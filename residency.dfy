/**
 * A value-level model of one GeomVertexArrayData's residency, with the
 * pipeline collapsed to its single stage-0 CData record: the payload
 * bytes, the logical (uncompressed) full size, the residency class, the
 * optional save-file block, the LRU size, and the LRU bookkeeping reduced
 * to a tier label and a recency stamp. The save file is the map from
 * block to stored bytes.
 *
 * Each transition is a function of the old state. The class in
 * VertexArrayData runs the same transitions in place and promises exactly
 * these functions; the lemmas here state what the transitions preserve.
 */
module Residency {
  import opened VertexTypes
  import opened ByteEdits

  /**
   * ramClass, data, fullSize and savedBlock are _ram_class, _data,
   * _data_full_size and _saved_block; lruSize is the size the page is
   * accounted at in its LRU; lru is the LRU list it is on; uses counts
   * the times it was marked most recently used.
   */
  datatype Page = Page(ramClass: RamClass, data: Bytes, fullSize: nat,
                       savedBlock: Option<BlockId>, lruSize: nat, lru: Tier, uses: nat)

  /** A page together with the contents of the save file it may hold a block in. */
  datatype State = State(page: Page, blocks: map<BlockId, Bytes>)

  /** mark_used_lru(): move to the most recently used end of the current list. */
  function MarkUsed(p: Page): Page
  {
    p.(uses := p.uses + 1)
  }

  /** set_ram_class(rc): change class and move to that class's LRU list. */
  function SetRamClass(p: Page, rc: RamClass): Page
  {
    p.(ramClass := rc, lru := GlobalLru(rc), uses := p.uses + 1)
  }

  /** The page's saved block, if it has one, can be read back from the save file. */
  predicate Readable(s: State)
  {
    s.page.savedBlock.Some? ==> s.page.savedBlock.value in s.blocks
  }

  /** The bytes that currently hold the payload: the save-file block when on disk, else the data. */
  function Stored(s: State): Bytes
    requires Readable(s)
  {
    if OnDisk(s.page.ramClass) && s.page.savedBlock.Some? then s.blocks[s.page.savedBlock.value]
    else s.page.data
  }

  /** Undo compression when the class says the stored bytes are codec output. */
  function Expand(cfg: Config, p: Page, b: Bytes): Bytes
  {
    if Packed(p.ramClass) && p.fullSize > cfg.minCompressSize then cfg.codec.uncompress(b) else b
  }

  /** The uncompressed vertex bytes the page stands for, wherever they are kept. */
  function Contents(cfg: Config, s: State): Bytes
    requires Readable(s)
  {
    Expand(cfg, s.page, Stored(s))
  }

  /**
   * The residency invariant: a block is held exactly when the class is a
   * disk class, and then the in-memory data is empty; the page is on the
   * LRU list its class maps to; the logical contents are full-size long.
   */
  ghost predicate Inv(cfg: Config, s: State)
  {
    && Readable(s)
    && (s.page.savedBlock.Some? <==> OnDisk(s.page.ramClass))
    && (OnDisk(s.page.ramClass) ==> s.page.data == [])
    && s.page.lru == GlobalLru(s.page.ramClass)
    && |Contents(cfg, s)| == s.page.fullSize
  }

  /**
   * The invariant and the contents depend on the save file only through
   * the page's own block: other arrays' writes and frees leave them alone.
   */
  lemma InvFrame(cfg: Config, s: State, blocks: map<BlockId, Bytes>)
    requires Inv(cfg, s)
    requires s.page.savedBlock.Some? ==>
               && s.page.savedBlock.value in blocks
               && blocks[s.page.savedBlock.value] == s.blocks[s.page.savedBlock.value]
    ensures Inv(cfg, State(s.page, blocks))
    ensures Contents(cfg, State(s.page, blocks)) == Contents(cfg, s)
  {
  }

  // ---------------------------------------------------------------------
  // The transitions
  // ---------------------------------------------------------------------

  /**
   * restore_from_disk: a disk-class page reads its block back, frees it
   * and becomes compressed or resident according to how it was stored.
   * Any other class is left alone; so is a disk page without a block
   * (the assertion on the block returns early).
   */
  function RestoreFromDisk(s: State): (r: State)
    requires Readable(s)
    ensures Readable(r)
    ensures r.page.fullSize == s.page.fullSize
  {
    var p := s.page;
    if !OnDisk(p.ramClass) || p.savedBlock.None? then s
    else
      var b := p.savedBlock.value;
      var back := p.(data := s.blocks[b], savedBlock := None);
      State(SetRamClass(back, if p.ramClass == CompressedDisk then Compressed else Resident),
            s.blocks - {b})
  }

  /**
   * make_resident: a resident page is only marked used. Otherwise the page
   * is first restored from disk if needed; a compressed page is then
   * expanded (only when its full size exceeds the compression threshold,
   * smaller pages were never compressed) and becomes resident, accounted
   * at its new data size. The expansion goes into a full-size buffer: a
   * shorter expansion fails its assertion and changes nothing further, a
   * longer one is cut to the full size.
   */
  function MakeResident(cfg: Config, s: State): (r: State)
    requires Readable(s)
    ensures Readable(r)
    ensures r.page.fullSize == s.page.fullSize
  {
    if s.page.ramClass == Resident then State(MarkUsed(s.page), s.blocks)
    else
      var s1 := if OnDisk(s.page.ramClass) then RestoreFromDisk(s) else s;
      var p := s1.page;
      if p.ramClass != Compressed then s1
      else if p.fullSize > cfg.minCompressSize && |cfg.codec.uncompress(p.data)| < p.fullSize then s1
      else
        var d := if p.fullSize > cfg.minCompressSize then cfg.codec.uncompress(p.data)[..p.fullSize] else p.data;
        State(SetRamClass(p.(data := d, lruSize := |d|), Resident), s1.blocks)
  }

  /**
   * make_compressed: a compressed page is only marked used. Otherwise the
   * page is first restored from disk if needed; a resident page then has
   * its data replaced by the codec output when its full size strictly
   * exceeds the threshold (smaller data is kept as is), becomes
   * compressed, and is accounted at its new data size.
   */
  function MakeCompressed(cfg: Config, s: State): (r: State)
    requires Readable(s)
    ensures Readable(r)
    ensures r.page.fullSize == s.page.fullSize
  {
    if s.page.ramClass == Compressed then State(MarkUsed(s.page), s.blocks)
    else
      var s1 := if OnDisk(s.page.ramClass) then RestoreFromDisk(s) else s;
      var p := s1.page;
      if p.ramClass != Resident then s1
      else
        var d := if p.fullSize > cfg.minCompressSize then cfg.codec.compress(p.data) else p.data;
        State(SetRamClass(p.(data := d, lruSize := |d|), Compressed), s1.blocks)
  }

  /**
   * make_disk, where `w` is what the save file's write_data returned for
   * the page's data (None when it could not write). A disk-class page is
   * only marked used, and so is a page whose write failed. Otherwise the
   * block records the data, the data is emptied, and the class goes from
   * resident to disk or from compressed to compressed-disk. A page that
   * already holds a block fails its assertion and changes nothing.
   */
  function MakeDisk(s: State, w: Option<BlockId>): (r: State)
    ensures Readable(s) ==> Readable(r)
    ensures r.page.fullSize == s.page.fullSize
  {
    var p := s.page;
    if OnDisk(p.ramClass) then State(MarkUsed(p), s.blocks)
    else if p.savedBlock.Some? then s
    else
      match w
      case None => State(MarkUsed(p), s.blocks)
      case Some(b) =>
        State(SetRamClass(p.(data := [], savedBlock := w),
                          if p.ramClass == Resident then Disk else CompressedDisk),
              s.blocks[b := p.data])
  }

  /**
   * evict_lru: a resident page goes to disk when the compressed LRU is
   * configured with no room at all, otherwise it is compressed; a
   * compressed page goes to disk; a disk-class page cannot be evicted and
   * is left alone. A page not on the list its class maps to fails the
   * assertion and is left alone.
   */
  function EvictLru(cfg: Config, s: State, w: Option<BlockId>): (r: State)
    requires Readable(s)
    ensures Readable(r)
    ensures r.page.fullSize == s.page.fullSize
  {
    if s.page.lru != GlobalLru(s.page.ramClass) then s
    else
      match s.page.ramClass
      case Resident => if cfg.maxCompressedSize == 0 then MakeDisk(s, w) else MakeCompressed(cfg, s)
      case Compressed => MakeDisk(s, w)
      case Disk => s
      case CompressedDisk => s
  }

  // ---------------------------------------------------------------------
  // What the transitions preserve
  // ---------------------------------------------------------------------

  lemma RestoreKeepsContents(cfg: Config, s: State)
    requires Inv(cfg, s)
    ensures var r := RestoreFromDisk(s);
            && Inv(cfg, r)
            && Contents(cfg, r) == Contents(cfg, s)
            && r.page.savedBlock.None? && !OnDisk(r.page.ramClass)
            && (!OnDisk(s.page.ramClass) ==> r == s)
            && (OnDisk(s.page.ramClass) ==>
                  && r.page.ramClass == (if s.page.ramClass == CompressedDisk then Compressed else Resident)
                  && r.page.data == s.blocks[s.page.savedBlock.value]
                  && r.blocks == s.blocks - {s.page.savedBlock.value})
  {
  }

  /**
   * make_resident always ends resident, holding the page's logical
   * contents, without a block (a block it held is freed).
   */
  lemma MakeResidentKeepsContents(cfg: Config, s: State)
    requires Inv(cfg, s)
    ensures var r := MakeResident(cfg, s);
            && Inv(cfg, r)
            && r.page.ramClass == Resident
            && r.page.data == Contents(cfg, s)
            && |r.page.data| == s.page.fullSize
            && r.page.savedBlock.None?
            && r.blocks == (if s.page.savedBlock.Some? then s.blocks - {s.page.savedBlock.value} else s.blocks)
  {
    if s.page.ramClass != Resident {
      var s1 := if OnDisk(s.page.ramClass) then RestoreFromDisk(s) else s;
      RestoreKeepsContents(cfg, s);
      assert Inv(cfg, s1) && Contents(cfg, s1) == Contents(cfg, s);
    }
  }

  /**
   * make_compressed always ends compressed without a block, and what the
   * page stands for is unchanged: expanding the codec output gives the
   * data back.
   */
  lemma MakeCompressedKeepsContents(cfg: Config, s: State)
    requires Inv(cfg, s) && RoundTrips(cfg.codec)
    ensures var r := MakeCompressed(cfg, s);
            && Inv(cfg, r)
            && Contents(cfg, r) == Contents(cfg, s)
            && r.page.ramClass == Compressed
            && r.page.savedBlock.None?
  {
    if s.page.ramClass != Compressed {
      var s1 := if OnDisk(s.page.ramClass) then RestoreFromDisk(s) else s;
      RestoreKeepsContents(cfg, s);
      if s1.page.ramClass == Resident && s1.page.fullSize > cfg.minCompressSize {
        assert cfg.codec.uncompress(cfg.codec.compress(s1.page.data)) == s1.page.data;
      }
    }
  }

  /**
   * make_disk keeps what the page stands for. A failed write, or a page
   * already on disk, only marks the page used; a successful write empties
   * the data into the new block and moves resident to disk and compressed
   * to compressed-disk, leaving the LRU size as it was.
   */
  lemma MakeDiskKeepsContents(cfg: Config, s: State, w: Option<BlockId>)
    requires Inv(cfg, s)
    ensures var r := MakeDisk(s, w);
            && Inv(cfg, r)
            && Contents(cfg, r) == Contents(cfg, s)
            && (OnDisk(s.page.ramClass) || w.None? ==> r == State(MarkUsed(s.page), s.blocks))
            && (!OnDisk(s.page.ramClass) && w.Some? ==>
                  && r.page.ramClass == (if s.page.ramClass == Resident then Disk else CompressedDisk)
                  && r.page.data == []
                  && r.page.savedBlock == w
                  && r.page.lruSize == s.page.lruSize
                  && r.blocks == s.blocks[w.value := s.page.data])
  {
  }

  /**
   * The eviction dispatch: a resident page is compressed, or written to
   * disk when the compressed LRU has a maximum size of zero; a compressed
   * page is written to disk; a disk-class page is left exactly as it was.
   */
  lemma EvictPolicy(cfg: Config, s: State, w: Option<BlockId>)
    requires Inv(cfg, s) && RoundTrips(cfg.codec)
    ensures var r := EvictLru(cfg, s, w);
            && Inv(cfg, r)
            && Contents(cfg, r) == Contents(cfg, s)
            && (s.page.ramClass == Resident && cfg.maxCompressedSize != 0 ==>
                  r == MakeCompressed(cfg, s) && r.page.ramClass == Compressed)
            && (s.page.ramClass == Resident && cfg.maxCompressedSize == 0 ==>
                  r == MakeDisk(s, w) && r.page.ramClass == (if w.Some? then Disk else Resident))
            && (s.page.ramClass == Compressed ==>
                  r == MakeDisk(s, w) && r.page.ramClass == (if w.Some? then CompressedDisk else Compressed))
            && (OnDisk(s.page.ramClass) ==> r == s)
  {
    MakeCompressedKeepsContents(cfg, s);
    MakeDiskKeepsContents(cfg, s, w);
  }

  /**
   * Disk-class pages are never evicted by an epoch: the disk list gets no
   * epoch, and an eviction request for such a page changes nothing.
   */
  lemma DiskNeverEvicted(cfg: Config, s: State, w: Option<BlockId>)
    requires Inv(cfg, s) && OnDisk(s.page.ramClass)
    ensures s.page.lru !in EpochTiers()
    ensures EvictLru(cfg, s, w) == s
  {
  }

  /**
   * Each transition whose target class already holds only marks the page
   * used: the bytes, full size, block, class, LRU size and save file are
   * all unchanged.
   */
  lemma TransitionsIdempotent(cfg: Config, s: State, w: Option<BlockId>)
    requires Readable(s)
    ensures s.page.ramClass == Resident ==> MakeResident(cfg, s) == State(MarkUsed(s.page), s.blocks)
    ensures s.page.ramClass == Compressed ==> MakeCompressed(cfg, s) == State(MarkUsed(s.page), s.blocks)
    ensures OnDisk(s.page.ramClass) ==> MakeDisk(s, w) == State(MarkUsed(s.page), s.blocks)
    ensures !OnDisk(s.page.ramClass) ==> RestoreFromDisk(s) == s
  {
  }

  /**
   * Compressing a resident page and making it resident again gives back
   * the same page: the same bytes, full size, class and list, with only
   * the recency advanced and the LRU size set to the data length. On the
   * way it is compressed, accounted at its compressed length.
   */
  lemma CompressRoundTrip(cfg: Config, s: State)
    requires Inv(cfg, s) && RoundTrips(cfg.codec) && s.page.ramClass == Resident
    ensures var c := MakeCompressed(cfg, s);
            && c.page.ramClass == Compressed
            && c.page.lruSize == |c.page.data|
            && c.page.data == (if s.page.fullSize > cfg.minCompressSize
                               then cfg.codec.compress(s.page.data) else s.page.data)
            && c.blocks == s.blocks
            && MakeResident(cfg, c) == State(s.page.(lruSize := |s.page.data|, uses := s.page.uses + 2), s.blocks)
  {
    var c := MakeCompressed(cfg, s);
    MakeCompressedKeepsContents(cfg, s);
    MakeResidentKeepsContents(cfg, c);
    assert Contents(cfg, s) == s.page.data;
  }

  /**
   * Writing a resident or compressed page to a fresh block and restoring
   * it gives back the same page and save file, with only the recency
   * advanced; making it resident instead yields its logical contents
   * (for a resident page, exactly its old data).
   */
  lemma DiskRoundTrip(cfg: Config, s: State, b: BlockId)
    requires Inv(cfg, s) && !OnDisk(s.page.ramClass) && b !in s.blocks
    ensures var d := MakeDisk(s, Some(b));
            && OnDisk(d.page.ramClass)
            && d.page.data == []
            && d.page.savedBlock == Some(b)
            && d.blocks == s.blocks[b := s.page.data]
            && RestoreFromDisk(d) == State(s.page.(uses := s.page.uses + 2), s.blocks)
            && MakeResident(cfg, d).page.data == Contents(cfg, s)
            && MakeResident(cfg, d).blocks == s.blocks
            && (s.page.ramClass == Resident ==> MakeResident(cfg, d).page.data == s.page.data)
  {
    var d := MakeDisk(s, Some(b));
    MakeDiskKeepsContents(cfg, s, Some(b));
    MakeResidentKeepsContents(cfg, d);
    assert d.blocks - {b} == s.blocks;
  }

  /** A write that returns no block is a soft failure: only the recency changes. */
  lemma DiskWriteFailureIsSoft(s: State)
    requires !OnDisk(s.page.ramClass) && s.page.savedBlock.None?
    ensures MakeDisk(s, None) == State(MarkUsed(s.page), s.blocks)
  {
  }

  // ---------------------------------------------------------------------
  // Sequences of transitions
  // ---------------------------------------------------------------------

  /** One residency request, with the write outcome where one is made. */
  datatype Op =
    | ToResident
    | ToCompressed
    | ToDisk(written: Option<BlockId>)
    | Restore
    | Evict(written: Option<BlockId>)

  function Step(cfg: Config, s: State, op: Op): (r: State)
    requires Readable(s)
    ensures Readable(r)
    ensures r.page.fullSize == s.page.fullSize
  {
    match op
    case ToResident => MakeResident(cfg, s)
    case ToCompressed => MakeCompressed(cfg, s)
    case ToDisk(w) => MakeDisk(s, w)
    case Restore => RestoreFromDisk(s)
    case Evict(w) => EvictLru(cfg, s, w)
  }

  /** The full size is the same after any sequence of residency requests. */
  function Run(cfg: Config, s: State, ops: seq<Op>): (r: State)
    requires Readable(s)
    ensures Readable(r)
    ensures r.page.fullSize == s.page.fullSize
    decreases |ops|
  {
    if ops == [] then s else Run(cfg, Step(cfg, s, ops[0]), ops[1..])
  }

  lemma StepKeepsContents(cfg: Config, s: State, op: Op)
    requires Inv(cfg, s) && RoundTrips(cfg.codec)
    ensures Inv(cfg, Step(cfg, s, op))
    ensures Contents(cfg, Step(cfg, s, op)) == Contents(cfg, s)
  {
    match op
    case ToResident => MakeResidentKeepsContents(cfg, s);
    case ToCompressed => MakeCompressedKeepsContents(cfg, s);
    case ToDisk(w) => MakeDiskKeepsContents(cfg, s, w);
    case Restore => RestoreKeepsContents(cfg, s);
    case Evict(w) => EvictPolicy(cfg, s, w);
  }

  /**
   * Any sequence of residency requests keeps the invariant (in particular
   * a block exists exactly when the class is a disk class) and keeps the
   * logical contents byte for byte.
   */
  lemma {:induction false} RunKeepsContents(cfg: Config, s: State, ops: seq<Op>)
    requires Inv(cfg, s) && RoundTrips(cfg.codec)
    ensures Inv(cfg, Run(cfg, s, ops))
    ensures Contents(cfg, Run(cfg, s, ops)) == Contents(cfg, s)
    decreases |ops|
  {
    if ops != [] {
      StepKeepsContents(cfg, s, ops[0]);
      RunKeepsContents(cfg, Step(cfg, s, ops[0]), ops[1..]);
    }
  }

  // ---------------------------------------------------------------------
  // The handle's edits
  // ---------------------------------------------------------------------

  /**
   * The common tail of the handle's edits: the new bytes become the data,
   * the full size is reset to their length, and the page becomes resident
   * and is accounted at that length.
   */
  function Reset(p: Page, d: Bytes): Page
  {
    SetRamClass(p.(data := d, fullSize := |d|, lruSize := |d|), Resident)
  }

  /** The blocks a page holds in the save file: its saved block, if any. */
  function Held(p: Page): set<BlockId>
  {
    if p.savedBlock.Some? then {p.savedBlock.value} else {}
  }

  /** check_resident: make the page resident unless it already is. */
  function CheckResident(cfg: Config, s: State): (r: State)
    requires Readable(s)
    ensures Readable(r)
  {
    if s.page.ramClass == Resident then s else MakeResident(cfg, s)
  }

  lemma CheckResidentKeepsContents(cfg: Config, s: State)
    requires Inv(cfg, s)
    ensures var r := CheckResident(cfg, s);
            && Inv(cfg, r)
            && r.page.ramClass == Resident
            && r.page.data == Contents(cfg, s)
            && r.page.fullSize == s.page.fullSize
            && r.blocks == s.blocks - Held(s.page)
  {
    MakeResidentKeepsContents(cfg, s);
  }

  /**
   * check_resident depends on the save file only through the page's own
   * block: with other arrays' blocks changed it yields the same page, and
   * it frees only that block.
   */
  lemma CheckResidentFrame(cfg: Config, s: State, blocks: map<BlockId, Bytes>)
    requires Inv(cfg, s)
    requires s.page.savedBlock.Some? ==>
               && s.page.savedBlock.value in blocks
               && blocks[s.page.savedBlock.value] == s.blocks[s.page.savedBlock.value]
    ensures Inv(cfg, State(s.page, blocks))
    ensures CheckResident(cfg, State(s.page, blocks)).page == CheckResident(cfg, s).page
    ensures CheckResident(cfg, State(s.page, blocks)).blocks == blocks - Held(s.page)
  {
    InvFrame(cfg, s, blocks);
    CheckResidentKeepsContents(cfg, State(s.page, blocks));
  }

  /** Replacing a resident page's bytes keeps the invariant; the new bytes are its contents. */
  lemma ResetKeepsInv(cfg: Config, s: State, d: Bytes)
    requires Inv(cfg, s) && s.page.ramClass == Resident
    ensures Inv(cfg, State(Reset(s.page, d), s.blocks))
    ensures Contents(cfg, State(Reset(s.page, d), s.blocks)) == d
  {
  }

  /** set_num_rows on a resident page: a different row count resizes the rows. */
  function SetNumRows(s: State, n: nat, stride: nat): State
    requires stride > 0
  {
    if n == |s.page.data| / stride then s
    else State(Reset(s.page, ResizeRows(s.page.data, n, stride)), s.blocks)
  }

  /** unclean_set_num_rows on a resident page: a different row count gets fresh zero rows. */
  function UncleanSetNumRows(s: State, n: nat, stride: nat): State
    requires stride > 0
  {
    if n == |s.page.data| / stride then s
    else State(Reset(s.page, UncleanRows(s.page.data, n, stride)), s.blocks)
  }

  /**
   * set_num_rows (through check_resident) keeps the invariant. An
   * unchanged row count leaves the contents and full size alone; any
   * other count resizes the contents and resets the full size and LRU
   * size to the new length.
   */
  lemma SetNumRowsEffect(cfg: Config, s: State, n: nat, stride: nat)
    requires Inv(cfg, s) && stride > 0
    ensures var c := Contents(cfg, s);
            var r := SetNumRows(CheckResident(cfg, s), n, stride);
            && Inv(cfg, r)
            && r.page.ramClass == Resident
            && (n == |c| / stride ==> r.page.data == c && r.page.fullSize == s.page.fullSize)
            && (n != |c| / stride ==>
                  && r.page.data == ResizeRows(c, n, stride)
                  && r.page.fullSize == |r.page.data|
                  && r.page.lruSize == |r.page.data|)
  {
    var s1 := CheckResident(cfg, s);
    CheckResidentKeepsContents(cfg, s);
    if n != |s1.page.data| / stride {
      ResetKeepsInv(cfg, s1, ResizeRows(s1.page.data, n, stride));
    }
  }

  lemma UncleanSetNumRowsEffect(cfg: Config, s: State, n: nat, stride: nat)
    requires Inv(cfg, s) && stride > 0
    ensures var c := Contents(cfg, s);
            var r := UncleanSetNumRows(CheckResident(cfg, s), n, stride);
            && Inv(cfg, r)
            && r.page.ramClass == Resident
            && (n == |c| / stride ==> r.page.data == c && r.page.fullSize == s.page.fullSize)
            && (n != |c| / stride ==>
                  && r.page.data == Zeros(n * stride)
                  && r.page.fullSize == n * stride
                  && r.page.lruSize == n * stride)
  {
    var s1 := CheckResident(cfg, s);
    CheckResidentKeepsContents(cfg, s);
    if n != |s1.page.data| / stride {
      ResetKeepsInv(cfg, s1, UncleanRows(s1.page.data, n, stride));
    }
  }
}

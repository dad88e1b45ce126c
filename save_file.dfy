/**
 * The vertex-data save file as the residency logic uses it: a store of
 * blocks that a write may refuse, that gives the written bytes back on a
 * read, and that forgets a block when it is freed. Blocks are named by
 * fresh identifiers; capacity is counted in bytes.
 */
module SaveFile {
  import opened VertexTypes

  /** size_t on a 64-bit platform: an int converted by wrapping modulo 2^64. */
  function SizeT(x: int): (r: nat)
    ensures r < 0x1_0000_0000_0000_0000
    ensures 0 <= x < 0x1_0000_0000_0000_0000 ==> r == x
    ensures -0x1_0000_0000_0000_0000 <= x < 0 ==> r == x + 0x1_0000_0000_0000_0000
  {
    x % 0x1_0000_0000_0000_0000
  }

  /** Some block of a non-empty store. */
  ghost function Pick(m: map<BlockId, Bytes>): (b: BlockId)
    requires m != map[]
    ensures b in m
  {
    var b :| b in m; b
  }

  /** The bytes held by all the blocks of a store, each counted once. */
  ghost function Total(m: map<BlockId, Bytes>): nat
    decreases |m|
  {
    if m == map[] then 0 else |m[Pick(m)]| + Total(m - {Pick(m)})
  }

  /** Any block may be taken out first: the total is that block's size plus the rest. */
  lemma {:induction false} TotalRemove(m: map<BlockId, Bytes>, k: BlockId)
    requires k in m
    ensures Total(m) == Total(m - {k}) + |m[k]|
    decreases |m|
  {
    var b := Pick(m);
    if b != k {
      TotalRemove(m - {b}, k);
      TotalRemove(m - {k}, b);
      assert m - {b} - {k} == m - {k} - {b};
    }
  }

  /** A new block adds exactly its size to the total. */
  lemma TotalAdd(m: map<BlockId, Bytes>, k: BlockId, d: Bytes)
    requires k !in m
    ensures Total(m[k := d]) == Total(m) + |d|
  {
    TotalRemove(m[k := d], k);
    assert m[k := d] - {k} == m;
  }

  class VertexDataSaveFile {
    /** The most bytes the file may hold at once. */
    const capacity: nat
    /** The bytes of every block currently allocated. */
    var blocks: map<BlockId, Bytes>
    /** Bytes currently accounted to allocated blocks: always their total size. */
    var used: nat
    /** Every identifier below this one has been handed out. */
    var nextId: BlockId

    ghost predicate Valid()
      reads this
    {
      && (forall b :: b in blocks ==> b < nextId)
      && used == Total(blocks)
    }

    constructor (capacity: nat)
      ensures Valid()
      ensures this.capacity == capacity && blocks == map[] && used == 0
    {
      this.capacity := capacity;
      blocks := map[];
      used := 0;
      nextId := 0;
    }

    /** Write `d` to a new block; no block (the null pointer) when it does not fit. */
    method WriteData(d: Bytes) returns (w: Option<BlockId>)
      requires Valid()
      modifies this
      ensures Valid()
      ensures w.None? <==> old(used) + |d| > capacity
      ensures w.None? ==> blocks == old(blocks) && used == old(used)
      ensures w.Some? ==> && w.value !in old(blocks)
                          && blocks == old(blocks)[w.value := d]
                          && used == old(used) + |d|
    {
      if used + |d| > capacity {
        w := None;
      } else {
        w := Some(nextId);
        TotalAdd(blocks, nextId, d);
        blocks := blocks[nextId := d];
        used := used + |d|;
        nextId := nextId + 1;
      }
    }

    /** Read a block back: exactly the bytes that were written to it. */
    method ReadData(b: BlockId) returns (d: Bytes)
      requires b in blocks
      ensures d == blocks[b]
    {
      d := blocks[b];
    }

    /** Delete a block, returning its space to the file. */
    method FreeBlock(b: BlockId)
      requires Valid() && b in blocks
      modifies this
      ensures Valid()
      ensures blocks == old(blocks) - {b}
      ensures used == old(used) - |old(blocks)[b]|
    {
      TotalRemove(blocks, b);
      used := used - |blocks[b]|;
      blocks := blocks - {b};
    }
  }

  /**
   * make_save_file: the global save file, whose capacity is the
   * max-disk-vertex-data setting converted to size_t (so the default of
   * -1 means no practical limit).
   */
  method MakeSaveFile(maxDiskVertexData: int) returns (f: VertexDataSaveFile)
    ensures fresh(f) && f.Valid()
    ensures f.capacity == SizeT(maxDiskVertexData) && f.blocks == map[] && f.used == 0
  {
    f := new VertexDataSaveFile(SizeT(maxDiskVertexData));
  }
}

/**
 * GeomVertexArrayData and GeomVertexArrayDataHandle as objects whose
 * fields change in place. Every residency method is proved to leave the
 * object in exactly the state the matching Residency function computes
 * from the old one, and to keep Valid(), the residency invariant; the
 * handle's edits are proved against the byte-level functions of
 * ByteEdits. The table of graphics contexts is kept equal to the
 * Registry functions.
 */
module VertexArrayData {
  import opened VertexTypes
  import opened ByteEdits
  import R = Residency
  import Registry
  import opened SaveFile

  /** A vertex buffer context created for one array on one set of prepared objects. */
  datatype BufferContext = BufferContext(id: nat)

  /** The graphics state guardian, reduced to whether it will create a vertex buffer. */
  datatype Gsg = Gsg(supportsVertexBuffers: bool)

  /**
   * The consumer side of preparation, reduced to what GeomVertexArrayData
   * relies on: a queue of arrays waiting to be prepared, the creation of a
   * context, and its release, which calls back clear_prepared.
   */
  class PreparedGraphicsObjects {
    var queued: set<GeomVertexArrayData>
    /** The contexts released so far, in order. */
    var released: seq<BufferContext>
    var nextContext: nat

    constructor ()
      ensures queued == {} && released == []
    {
      queued := {};
      released := [];
      nextContext := 0;
    }

    method EnqueueVertexBuffer(data: GeomVertexArrayData)
      modifies this`queued
      ensures queued == old(queued) + {data}
    {
      queued := queued + {data};
    }

    method IsVertexBufferQueued(data: GeomVertexArrayData) returns (b: bool)
      ensures b <==> data in queued
    {
      b := data in queued;
    }

    method DequeueVertexBuffer(data: GeomVertexArrayData) returns (b: bool)
      modifies this`queued
      ensures b <==> data in old(queued)
      ensures queued == old(queued) - {data}
    {
      b := data in queued;
      queued := queued - {data};
    }

    /** A new context, or none when the guardian cannot make one. */
    method PrepareVertexBufferNow(data: GeomVertexArrayData, gsg: Gsg) returns (vbc: Option<BufferContext>)
      modifies this`nextContext
      ensures vbc.Some? <==> gsg.supportsVertexBuffers
    {
      if gsg.supportsVertexBuffers {
        vbc := Some(BufferContext(nextContext));
        nextContext := nextContext + 1;
      } else {
        vbc := None;
      }
    }

    /** Release a context of `data`, which then forgets this set of prepared objects. */
    method ReleaseVertexBuffer(vbc: BufferContext, data: GeomVertexArrayData)
      modifies this`released, data`contexts
      ensures released == old(released) + [vbc]
      ensures data.contexts == Registry.Cleared(old(data.contexts), this)
    {
      released := released + [vbc];
      data.ClearPrepared(this);
    }
  }

  class GeomVertexArrayData {
    /** The stride of the array format: bytes per row. */
    const stride: nat
    const cfg: Config
    /** The global save file every array writes its blocks to. */
    const saveFile: VertexDataSaveFile

    var ramClass: RamClass
    var data: Bytes
    var fullSize: nat
    var savedBlock: Option<BlockId>
    var lruSize: nat
    var lru: Tier
    /** How often the page was marked most recently used, standing for its place in its LRU. */
    ghost var uses: nat
    var contexts: map<PreparedGraphicsObjects, BufferContext>

    ghost function Model(): R.State
      reads this, saveFile
    {
      R.State(R.Page(ramClass, data, fullSize, savedBlock, lruSize, lru, uses), saveFile.blocks)
    }

    ghost predicate Valid()
      reads this, saveFile
    {
      && stride > 0
      && saveFile.Valid()
      && RoundTrips(cfg.codec)
      && R.Inv(cfg, Model())
    }

    /** The uncompressed vertex bytes, wherever they are kept. */
    ghost function Contents(): Bytes
      reads this, saveFile
      requires Valid()
    {
      R.Contents(cfg, Model())
    }

    /** A new, empty, resident array on the resident LRU with no contexts. */
    constructor (stride: nat, cfg: Config, saveFile: VertexDataSaveFile)
      requires stride > 0 && saveFile.Valid() && RoundTrips(cfg.codec)
      ensures Valid()
      ensures this.stride == stride && this.cfg == cfg && this.saveFile == saveFile
      ensures ramClass == Resident && lru == RamLru && savedBlock.None?
      ensures data == [] && fullSize == 0 && lruSize == 0 && contexts == map[]
      ensures Contents() == []
    {
      this.stride := stride;
      this.cfg := cfg;
      this.saveFile := saveFile;
      ramClass := Resident;
      data := [];
      fullSize := 0;
      savedBlock := None;
      lruSize := 0;
      lru := GlobalLru(Resident);
      uses := 1;
      contexts := map[];
    }

    method MarkUsedLru()
      modifies this`uses
      ensures uses == old(uses) + 1
    {
      uses := uses + 1;
    }

    method SetRamClass(rc: RamClass)
      modifies this`ramClass, this`lru, this`uses
      ensures ramClass == rc && lru == GlobalLru(rc) && uses == old(uses) + 1
    {
      ramClass := rc;
      lru := GlobalLru(rc);
      uses := uses + 1;
    }

    method RestoreFromDisk()
      requires Valid()
      modifies this, saveFile
      ensures Valid()
      ensures Model() == R.RestoreFromDisk(old(Model()))
      ensures contexts == old(contexts)
    {
      R.RestoreKeepsContents(cfg, Model());
      if ramClass == Disk || ramClass == CompressedDisk {
        var b := savedBlock.value;
        var d := saveFile.ReadData(b);
        data := d;
        saveFile.FreeBlock(b);
        savedBlock := None;
        SetRamClass(if ramClass == CompressedDisk then Compressed else Resident);
      }
    }

    method MakeResident()
      requires Valid()
      modifies this, saveFile
      ensures Valid()
      ensures Model() == R.MakeResident(cfg, old(Model()))
      ensures contexts == old(contexts)
    {
      R.MakeResidentKeepsContents(cfg, Model());
      if ramClass == Resident {
        MarkUsedLru();
        return;
      }
      if ramClass == Disk || ramClass == CompressedDisk {
        RestoreFromDisk();
      }
      if ramClass == Compressed {
        var d := data;
        if fullSize > cfg.minCompressSize {
          d := cfg.codec.uncompress(data)[..fullSize];
        }
        data := d;
        lruSize := |d|;
        SetRamClass(Resident);
      }
    }

    method MakeCompressed()
      requires Valid()
      modifies this, saveFile
      ensures Valid()
      ensures Model() == R.MakeCompressed(cfg, old(Model()))
      ensures contexts == old(contexts)
    {
      R.MakeCompressedKeepsContents(cfg, Model());
      if ramClass == Compressed {
        MarkUsedLru();
        return;
      }
      if ramClass == Disk || ramClass == CompressedDisk {
        RestoreFromDisk();
      }
      if ramClass == Resident {
        var d := data;
        if fullSize > cfg.minCompressSize {
          d := cfg.codec.compress(data);
        }
        data := d;
        lruSize := |d|;
        SetRamClass(Compressed);
      }
    }

    /** `written` is the block the save file handed out, None when it refused or was not asked. */
    method MakeDisk() returns (ghost written: Option<BlockId>)
      requires Valid()
      modifies this, saveFile
      ensures Valid()
      ensures Model() == R.MakeDisk(old(Model()), written)
      ensures !OnDisk(old(ramClass)) ==>
                (written.None? <==> old(saveFile.used) + |old(data)| > saveFile.capacity)
      ensures written.Some? ==> written.value !in old(saveFile.blocks)
      ensures contexts == old(contexts)
    {
      ghost var s := Model();
      if ramClass == Disk || ramClass == CompressedDisk {
        MarkUsedLru();
        written := None;
        R.MakeDiskKeepsContents(cfg, s, written);
        return;
      }
      var w := saveFile.WriteData(data);
      savedBlock := w;
      written := w;
      R.MakeDiskKeepsContents(cfg, s, written);
      if w.None? {
        MarkUsedLru();
        return;
      }
      data := [];
      SetRamClass(if ramClass == Resident then Disk else CompressedDisk);
    }

    method EvictLru() returns (ghost written: Option<BlockId>)
      requires Valid()
      modifies this, saveFile
      ensures Valid()
      ensures Model() == R.EvictLru(cfg, old(Model()), written)
      ensures contexts == old(contexts)
    {
      match ramClass
      case Resident =>
        if cfg.maxCompressedSize == 0 {
          written := MakeDisk();
        } else {
          MakeCompressed();
          written := None;
        }
      case Compressed =>
        written := MakeDisk();
      case Disk =>
        written := None;
      case CompressedDisk =>
        written := None;
    }

    /** prepare: queue the array for preparation at the start of the next frame. */
    method Prepare(po: PreparedGraphicsObjects)
      modifies po`queued
      ensures po.queued == old(po.queued) + {this}
    {
      po.EnqueueVertexBuffer(this);
    }

    /** is_prepared: true when prepared on `po` or queued there. */
    method IsPrepared(po: PreparedGraphicsObjects) returns (b: bool)
      ensures b <==> po in contexts || this in po.queued
    {
      if po in contexts {
        return true;
      }
      b := po.IsVertexBufferQueued(this);
    }

    /**
     * prepare_now: the existing context on `po`, or a new one from the
     * consumer (`made`), which is recorded unless it is null.
     */
    method PrepareNow(po: PreparedGraphicsObjects, gsg: Gsg)
      returns (vbc: Option<BufferContext>, ghost made: Option<BufferContext>)
      modifies this`contexts, po`nextContext
      ensures contexts == Registry.Prepared(old(contexts), po, made)
      ensures vbc == Registry.Handed(old(contexts), po, made)
      ensures po !in old(contexts) ==> (made.Some? <==> gsg.supportsVertexBuffers)
      ensures po in old(contexts) ==> made.None? && po.nextContext == old(po.nextContext)
    {
      made := None;
      if po in contexts {
        return Some(contexts[po]), made;
      }
      vbc := po.PrepareVertexBufferNow(this, gsg);
      made := vbc;
      if vbc.Some? {
        contexts := contexts[po := vbc.value];
      }
    }

    /**
     * release: a context on `po` is released (and forgotten, through the
     * clear_prepared callback); otherwise the array is taken off `po`'s
     * queue. True when either happened.
     */
    method Release(po: PreparedGraphicsObjects) returns (b: bool)
      modifies this`contexts, po`released, po`queued
      ensures b <==> po in old(contexts) || this in old(po.queued)
      ensures contexts == Registry.Cleared(old(contexts), po)
      ensures po in old(contexts) ==>
                po.released == old(po.released) + [old(contexts)[po]] && po.queued == old(po.queued)
      ensures po !in old(contexts) ==>
                po.released == old(po.released) && po.queued == old(po.queued) - {this}
    {
      if po in contexts {
        po.ReleaseVertexBuffer(contexts[po], this);
        return true;
      }
      b := po.DequeueVertexBuffer(this);
    }

    /**
     * release_all: every context is released on its own prepared objects;
     * the callbacks empty the table, and the number released is its old size.
     */
    method ReleaseAll() returns (numFreed: nat)
      modifies this`contexts, contexts.Keys
      ensures contexts == map[]
      ensures numFreed == |old(contexts)|
      ensures forall po :: po in old(contexts) ==> po.released == old(po.released) + [old(contexts)[po]]
      ensures forall po :: po in old(contexts) ==> po.queued == old(po.queued)
      ensures forall po :: po in old(contexts) ==> po.nextContext == old(po.nextContext)
    {
      var temp := contexts;
      numFreed := |contexts|;
      var todo := temp.Keys;
      while todo != {}
        invariant todo <= temp.Keys
        invariant contexts.Keys == todo
        invariant forall po :: po in todo ==> contexts[po] == temp[po]
        invariant forall po :: po in temp && po !in todo ==> po.released == old(po.released) + [temp[po]]
        invariant forall po :: po in todo ==> po.released == old(po.released)
        invariant forall po :: po in temp ==> po.queued == old(po.queued)
        invariant forall po :: po in temp ==> po.nextContext == old(po.nextContext)
        decreases |todo|
      {
        var po :| po in todo;
        po.ReleaseVertexBuffer(temp[po], this);
        todo := todo - {po};
      }
    }

    /** clear_prepared: forget `po` without releasing anything. */
    method ClearPrepared(po: PreparedGraphicsObjects)
      modifies this`contexts
      ensures contexts == Registry.Cleared(old(contexts), po)
    {
      if po in contexts {
        contexts := contexts - {po};
      }
    }
  }

  /**
   * A handle through which the array's bytes are read or written. Every
   * edit first makes the array resident, then leaves it resident with the
   * full size and LRU size set to the new length.
   */
  class GeomVertexArrayDataHandle {
    const obj: GeomVertexArrayData
    const writable: bool

    constructor (obj: GeomVertexArrayData, writable: bool)
      ensures this.obj == obj && this.writable == writable
    {
      this.obj := obj;
      this.writable := writable;
    }

    /** check_resident: afterwards the data holds the contents; a block held is freed. */
    method CheckResident()
      requires obj.Valid()
      modifies obj, obj.saveFile
      ensures obj.Valid()
      ensures obj.Model() == R.CheckResident(obj.cfg, old(obj.Model()))
      ensures obj.ramClass == Resident && obj.savedBlock.None?
      ensures obj.data == old(obj.Contents())
      ensures obj.saveFile.blocks == if old(obj.savedBlock).Some?
                                     then old(obj.saveFile.blocks) - {old(obj.savedBlock).value}
                                     else old(obj.saveFile.blocks)
      ensures obj.contexts == old(obj.contexts)
    {
      R.CheckResidentKeepsContents(obj.cfg, obj.Model());
      if obj.ramClass != Resident {
        obj.MakeResident();
      }
    }

    /**
     * set_num_rows: a read-only handle changes nothing. Otherwise, when the
     * row count differs from the current one, the rows are resized
     * (zero-filled when growing) and the result is true.
     */
    method SetNumRows(n: nat) returns (changed: bool)
      requires obj.Valid()
      modifies obj, obj.saveFile
      ensures obj.Valid()
      ensures obj.contexts == old(obj.contexts)
      ensures !writable ==> !changed && obj.Model() == old(obj.Model())
      ensures writable ==>
                && obj.Model() == R.SetNumRows(R.CheckResident(obj.cfg, old(obj.Model())), n, obj.stride)
                && (changed <==> n != |old(obj.Contents())| / obj.stride)
                && obj.ramClass == Resident
                && obj.Contents() == (if changed then ResizeRows(old(obj.Contents()), n, obj.stride)
                                      else old(obj.Contents()))
                && (changed ==> obj.lruSize == obj.fullSize)
    {
      if !writable {
        return false;
      }
      R.SetNumRowsEffect(obj.cfg, obj.Model(), n, obj.stride);
      CheckResident();
      var stride := obj.stride;
      var rows := |obj.data| / stride;
      if n == rows {
        return false;
      }
      if n > rows {
        obj.data := InsertZeros(obj.data, |obj.data|, (n - rows) * stride);
      } else {
        RowsFit(|obj.data|, n, stride);
        obj.data := Erase(obj.data, n * stride, |obj.data|);
      }
      obj.fullSize := |obj.data|;
      obj.SetRamClass(Resident);
      obj.lruSize := obj.fullSize;
      changed := true;
    }

    /**
     * unclean_set_num_rows: like set_num_rows, but a different row count
     * gets a brand new zero-filled vector of n rows.
     */
    method UncleanSetNumRows(n: nat) returns (changed: bool)
      requires obj.Valid()
      modifies obj, obj.saveFile
      ensures obj.Valid()
      ensures obj.contexts == old(obj.contexts)
      ensures !writable ==> !changed && obj.Model() == old(obj.Model())
      ensures writable ==>
                && obj.Model() == R.UncleanSetNumRows(R.CheckResident(obj.cfg, old(obj.Model())), n, obj.stride)
                && (changed <==> n != |old(obj.Contents())| / obj.stride)
                && obj.ramClass == Resident
                && obj.Contents() == (if changed then Zeros(n * obj.stride) else old(obj.Contents()))
                && (changed ==> obj.lruSize == obj.fullSize)
    {
      if !writable {
        return false;
      }
      R.UncleanSetNumRowsEffect(obj.cfg, obj.Model(), n, obj.stride);
      CheckResident();
      var stride := obj.stride;
      if n == |obj.data| / stride {
        return false;
      }
      obj.data := Zeros(n * stride);
      obj.fullSize := |obj.data|;
      obj.SetRamClass(Resident);
      obj.lruSize := obj.fullSize;
      changed := true;
    }

    /**
     * The first steps of both copies: check_resident on this handle, then
     * on the other. Both arrays end resident holding their contents. Both
     * use the one global save file, and two arrays never hold the same block.
     */
    method CheckBothResident(other: GeomVertexArrayDataHandle)
      requires obj.Valid() && other.obj.Valid()
      requires other.obj.saveFile == obj.saveFile
      requires other.obj != obj ==> obj.savedBlock.None? || obj.savedBlock != other.obj.savedBlock
      modifies obj, other.obj, obj.saveFile
      ensures obj.Valid() && other.obj.Valid()
      ensures obj.contexts == old(obj.contexts) && other.obj.contexts == old(other.obj.contexts)
      ensures obj.ramClass == Resident && obj.data == old(obj.Contents())
      ensures other.obj.ramClass == Resident && other.obj.data == old(other.obj.Contents())
      ensures obj.Model().page == R.CheckResident(obj.cfg, old(obj.Model())).page
      ensures other.obj.Model().page == R.CheckResident(other.obj.cfg, old(other.obj.Model())).page
      ensures obj.saveFile.blocks == old(obj.saveFile.blocks) - R.Held(old(obj.Model()).page)
                                                              - R.Held(old(other.obj.Model()).page)
    {
      ghost var theirs := other.obj.Model();
      CheckResident();
      if other.obj != obj {
        R.CheckResidentFrame(other.obj.cfg, theirs, obj.saveFile.blocks);
      }
      ghost var mine := obj.Model();
      other.CheckResident();
      if other.obj != obj {
        R.InvFrame(obj.cfg, mine, obj.saveFile.blocks);
      }
    }

    /** The common tail of the copies: `d` becomes the data of the resident array. */
    method Store(d: Bytes)
      requires obj.Valid() && obj.ramClass == Resident
      modifies obj
      ensures obj.Valid()
      ensures obj.Model() == R.State(R.Reset(old(obj.Model()).page, d), obj.saveFile.blocks)
      ensures obj.Contents() == d
      ensures obj.contexts == old(obj.contexts)
    {
      R.ResetKeepsInv(obj.cfg, obj.Model(), d);
      obj.data := d;
      obj.fullSize := |obj.data|;
      obj.SetRamClass(Resident);
      obj.lruSize := obj.fullSize;
    }

    /**
     * copy_data_from: this array becomes a resident copy of the other's
     * contents; the other is made resident with its contents unchanged.
     */
    method CopyDataFrom(other: GeomVertexArrayDataHandle)
      requires obj.Valid() && other.obj.Valid()
      requires other.obj.saveFile == obj.saveFile
      requires other.obj != obj ==> obj.savedBlock.None? || obj.savedBlock != other.obj.savedBlock
      modifies obj, other.obj, obj.saveFile
      ensures obj.Valid() && other.obj.Valid()
      ensures obj.contexts == old(obj.contexts) && other.obj.contexts == old(other.obj.contexts)
      ensures other.obj.Contents() == old(other.obj.Contents())
      ensures !writable ==> obj.Model() == old(obj.Model()) && other.obj.Model() == old(other.obj.Model())
      ensures writable ==>
                && obj.data == old(other.obj.Contents())
                && obj.Contents() == old(other.obj.Contents())
                && obj.ramClass == Resident && obj.savedBlock.None?
                && obj.fullSize == |obj.data| && obj.lruSize == obj.fullSize
                && other.obj.ramClass == Resident
                && obj.Model().page == R.Reset(R.CheckResident(obj.cfg, old(obj.Model())).page, obj.data)
                && (other.obj != obj ==>
                      other.obj.Model().page == R.CheckResident(other.obj.cfg, old(other.obj.Model())).page)
                && obj.saveFile.blocks == old(obj.saveFile.blocks) - R.Held(old(obj.Model()).page)
                                                                   - R.Held(old(other.obj.Model()).page)
    {
      if !writable {
        return;
      }
      CheckBothResident(other);
      Store(other.obj.data);
    }

    /**
     * copy_subdata_from: both ranges are clamped to their vectors; this
     * array's range is replaced by the other's range, the array growing or
     * shrinking by the difference. The other array is made resident with
     * its contents unchanged.
     */
    method CopySubdataFrom(toStart: nat, toSize: nat, other: GeomVertexArrayDataHandle,
                           fromStart: nat, fromSize: nat)
      requires obj.Valid() && other.obj.Valid()
      requires other.obj != obj
      requires other.obj.saveFile == obj.saveFile
      requires obj.savedBlock.None? || obj.savedBlock != other.obj.savedBlock
      modifies obj, other.obj, obj.saveFile
      ensures obj.Valid() && other.obj.Valid()
      ensures obj.contexts == old(obj.contexts) && other.obj.contexts == old(other.obj.contexts)
      ensures other.obj.Contents() == old(other.obj.Contents())
      ensures !writable ==> obj.Model() == old(obj.Model()) && other.obj.Model() == old(other.obj.Model())
      ensures writable ==>
                && obj.data == CopySubdata(old(obj.Contents()), toStart, toSize,
                                           old(other.obj.Contents()), fromStart, fromSize)
                && obj.Contents() == obj.data
                && obj.ramClass == Resident && obj.savedBlock.None?
                && obj.fullSize == |obj.data| && obj.lruSize == obj.fullSize
                && other.obj.ramClass == Resident
                && obj.Model().page == R.Reset(R.CheckResident(obj.cfg, old(obj.Model())).page, obj.data)
                && (other.obj != obj ==>
                      other.obj.Model().page == R.CheckResident(other.obj.cfg, old(other.obj.Model())).page)
                && obj.saveFile.blocks == old(obj.saveFile.blocks) - R.Held(old(obj.Model()).page)
                                                                   - R.Held(old(other.obj.Model()).page)
    {
      if !writable {
        return;
      }
      CheckBothResident(other);
      Store(ResizeAndCopy(obj.data, toStart, toSize, other.obj.data, fromStart, fromSize));
    }
  }
}

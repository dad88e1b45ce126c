/**
 * Value types shared by the model of a vertex array's buffer residency:
 * bytes, the four residency classes, the three global LRU lists and the
 * table that maps one to the other, and the compression codec.
 */
module VertexTypes {

  /** One byte of vertex data (an unsigned char in the buffer). */
  newtype Byte = b: int | 0 <= b < 256

  type Bytes = seq<Byte>

  /** Identity of a block allocated in the vertex-data save file. */
  type BlockId = nat

  datatype Option<T> = None | Some(value: T)

  /** The residency class of an array's payload (RamClass). */
  datatype RamClass = Resident | Compressed | Disk | CompressedDisk

  /** The three global LRU lists: resident RAM, compressed RAM and disk. */
  datatype Tier = RamLru | CompressedLru | DiskLru

  /** The payload lives in a save-file block rather than in memory. */
  predicate OnDisk(rc: RamClass)
  {
    rc == Disk || rc == CompressedDisk
  }

  /** The stored bytes are codec output (when the buffer was big enough to be compressed). */
  predicate Packed(rc: RamClass)
  {
    rc == Compressed || rc == CompressedDisk
  }

  /**
   * The _global_lru table: the LRU list a page of each class belongs to.
   * Each in-memory class has its own list; both disk classes share one.
   */
  function GlobalLru(rc: RamClass): (t: Tier)
    ensures t == RamLru <==> rc == Resident
    ensures t == CompressedLru <==> rc == Compressed
    ensures t == DiskLru <==> OnDisk(rc)
  {
    match rc
    case Resident => RamLru
    case Compressed => CompressedLru
    case Disk => DiskLru
    case CompressedDisk => DiskLru
  }

  /**
   * The LRU lists that lru_epoch asks to consider evictions, in order.
   * The disk list gets no epoch: nothing is evicted from disk automatically.
   */
  function EpochTiers(): (ts: seq<Tier>)
    ensures DiskLru !in ts
    ensures forall rc :: !OnDisk(rc) ==> GlobalLru(rc) in ts
  {
    [RamLru, CompressedLru]
  }

  /**
   * The deflate codec, seen only through its two directions: `compress`
   * stands for compress2 at the configured level, `uncompress` for
   * uncompress. Their stream format is not modelled.
   */
  datatype Codec = Codec(compress: Bytes -> Bytes, uncompress: Bytes -> Bytes)

  /** The codec's contract: expanding what it compressed gives the input back. */
  ghost predicate RoundTrips(c: Codec)
  {
    forall s: Bytes :: c.uncompress(c.compress(s)) == s
  }

  /**
   * The configuration the residency logic consults: the minimum size worth
   * compressing (min-vertex-data-compress-size), the maximum size of the
   * compressed LRU (max-compressed-vertex-data, negative for no limit) and
   * the codec at the configured compression level.
   */
  datatype Config = Config(minCompressSize: nat, maxCompressedSize: int, codec: Codec)
}

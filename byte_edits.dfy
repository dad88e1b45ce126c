/**
 * Edits of a byte vector as GeomVertexArrayDataHandle performs them:
 * the three vector primitives it uses (erase a range, insert zero bytes,
 * memcpy over a range), the row resize of set_num_rows and
 * unclean_set_num_rows, and the clamped splice of copy_subdata_from.
 * Each primitive is characterised byte by byte, independently of the
 * concatenation that computes it.
 */
module ByteEdits {
  import opened VertexTypes

  function Min(a: nat, b: nat): nat
  {
    if a <= b then a else b
  }

  /** A fresh vector of n zero bytes. */
  function Zeros(n: nat): (r: Bytes)
    ensures |r| == n
    ensures forall k :: 0 <= k < n ==> r[k] == 0
  {
    seq(n, _ => 0)
  }

  /** vector::erase(begin + i, begin + j). */
  function Erase(d: Bytes, i: nat, j: nat): (r: Bytes)
    requires i <= j <= |d|
    ensures |r| == |d| - (j - i)
    ensures forall k :: 0 <= k < |r| ==> r[k] == if k < i then d[k] else d[k + (j - i)]
  {
    d[..i] + d[j..]
  }

  /** vector::insert(begin + i, n, 0). */
  function InsertZeros(d: Bytes, i: nat, n: nat): (r: Bytes)
    requires i <= |d|
    ensures |r| == |d| + n
    ensures forall k :: 0 <= k < |r| ==> r[k] == if k < i then d[k] else if k < i + n then 0 else d[k - n]
  {
    d[..i] + Zeros(n) + d[i..]
  }

  /** memcpy(&d[at], piece, |piece|): overwrite |piece| bytes in place. */
  function Overwrite(d: Bytes, at: nat, piece: Bytes): (r: Bytes)
    requires at + |piece| <= |d|
    ensures |r| == |d|
    ensures forall k :: 0 <= k < |r| ==> r[k] == if at <= k < at + |piece| then piece[k - at] else d[k]
  {
    d[..at] + piece + d[at + |piece|..]
  }

  /**
   * The reference meaning of a splice: the `cut` bytes at `at` are
   * replaced by `piece`; everything before is kept, everything after is
   * kept and shifted.
   */
  ghost predicate IsSplice(r: Bytes, d: Bytes, at: nat, cut: nat, piece: Bytes)
    requires at + cut <= |d|
  {
    && |r| == |d| - cut + |piece|
    && r[..at] == d[..at]
    && r[at..at + |piece|] == piece
    && r[at + |piece|..] == d[at + cut..]
  }

  function Splice(d: Bytes, at: nat, cut: nat, piece: Bytes): (r: Bytes)
    requires at + cut <= |d|
    ensures IsSplice(r, d, at, cut, piece)
  {
    d[..at] + piece + d[at + cut..]
  }

  /**
   * The resize step of copy_subdata_from: shrink by erasing or grow by
   * inserting zeros at the end of the replaced range, so that it becomes
   * `n` bytes long.
   */
  function ResizeRange(d: Bytes, at: nat, cut: nat, n: nat): (r: Bytes)
    requires at + cut <= |d|
  {
    if n < cut then Erase(d, at + n, at + cut)
    else if cut < n then InsertZeros(d, at + cut, n - cut)
    else d
  }

  /**
   * Resizing the range in place and then copying the piece over it
   * (the order copy_subdata_from uses) is exactly the splice.
   */
  lemma ResizeThenCopyIsSplice(d: Bytes, at: nat, cut: nat, piece: Bytes)
    requires at + cut <= |d|
    ensures at + |piece| <= |ResizeRange(d, at, cut, |piece|)|
    ensures Overwrite(ResizeRange(d, at, cut, |piece|), at, piece) == Splice(d, at, cut, piece)
  {
    var mid := ResizeRange(d, at, cut, |piece|);
    assert |mid| == |d| - cut + |piece|;
    var r := Overwrite(mid, at, piece);
    var s := Splice(d, at, cut, piece);
    assert |r| == |s|;
    forall k | 0 <= k < |r|
      ensures r[k] == s[k]
    {
      if k < at {
        assert s[k] == s[..at][k] == d[..at][k];
      } else if k < at + |piece| {
        assert s[k] == s[at..at + |piece|][k - at] == piece[k - at];
      } else {
        assert s[k] == s[at + |piece|..][k - at - |piece|] == d[at + cut..][k - at - |piece|];
      }
    }
  }

  /** A start/size pair inside a vector. */
  datatype Range = Range(start: nat, size: nat)

  /**
   * The argument clamping of copy_subdata_from: the start is pulled back
   * to the end of the vector and the size cut to what remains after it.
   */
  function ClampRange(start: nat, size: nat, len: nat): (r: Range)
    ensures r.start + r.size <= len
    ensures start <= len ==> r.start == start && r.start + r.size == Min(start + size, len)
    ensures start > len ==> r == Range(len, 0)
    ensures start + size <= len ==> r == Range(start, size)
  {
    var s := Min(start, len);
    Range(s, Min(size, len - s))
  }

  /**
   * The bytes copy_subdata_from leaves in the destination: the clamped
   * destination range replaced by the clamped source range.
   */
  function CopySubdata(to: Bytes, toStart: nat, toSize: nat,
                       from: Bytes, fromStart: nat, fromSize: nat): (r: Bytes)
    ensures var t := ClampRange(toStart, toSize, |to|);
            var f := ClampRange(fromStart, fromSize, |from|);
            IsSplice(r, to, t.start, t.size, from[f.start..f.start + f.size])
  {
    var t := ClampRange(toStart, toSize, |to|);
    var f := ClampRange(fromStart, fromSize, |from|);
    Splice(to, t.start, t.size, from[f.start..f.start + f.size])
  }

  /**
   * The steps copy_subdata_from takes on the destination vector: clamp
   * both ranges, resize the destination range to the source range's size,
   * then copy the source range over it. The result is the splice.
   */
  function ResizeAndCopy(to: Bytes, toStart: nat, toSize: nat,
                         from: Bytes, fromStart: nat, fromSize: nat): (r: Bytes)
    ensures r == CopySubdata(to, toStart, toSize, from, fromStart, fromSize)
  {
    var t := ClampRange(toStart, toSize, |to|);
    var f := ClampRange(fromStart, fromSize, |from|);
    var piece := from[f.start..f.start + f.size];
    ResizeThenCopyIsSplice(to, t.start, t.size, piece);
    Overwrite(ResizeRange(to, t.start, t.size, f.size), t.start, piece)
  }

  lemma MulLe(a: nat, b: nat, c: nat)
    requires a <= b
    ensures a * c <= b * c
  {
    assert b * c == a * c + (b - a) * c;
  }

  lemma QuotientBound(a: nat, b: nat, stride: nat, ma: nat, mb: nat)
    requires ma < stride && mb < stride && a * stride + ma == b * stride + mb
    ensures a <= b
  {
    if a > b {
      assert (b + 1) * stride == b * stride + stride;
      MulLe(b + 1, a, stride);
      assert false;
    }
  }

  /** Division by the stride is determined by quotient and remainder. */
  lemma DivUnique(x: nat, stride: nat, q: nat, m: nat)
    requires stride > 0 && m < stride && x == q * stride + m
    ensures x / stride == q && x % stride == m
  {
    var q' := x / stride;
    var m' := x % stride;
    assert q' * stride + m' == x;
    QuotientBound(q', q, stride, m', m);
    QuotientBound(q, q', stride, m, m');
  }

  /** A row count that is at most the number of whole rows fits in the vector. */
  lemma RowsFit(len: nat, n: nat, stride: nat)
    requires stride > 0 && n <= len / stride
    ensures n * stride <= len
  {
    var q := len / stride;
    assert q * stride + len % stride == len;
    MulLe(n, q, stride);
  }

  /**
   * The byte vector set_num_rows leaves behind: with `rows` whole rows
   * now, growing appends (n - rows) * stride zero bytes at the end and
   * shrinking erases everything from byte n * stride on.
   */
  function ResizeRows(d: Bytes, n: nat, stride: nat): (r: Bytes)
    requires stride > 0
  {
    var rows := |d| / stride;
    if n > rows then InsertZeros(d, |d|, (n - rows) * stride)
    else if n < rows then
      RowsFit(|d|, n, stride);
      Erase(d, n * stride, |d|)
    else d
  }

  /**
   * set_num_rows keeps the existing bytes up to the new length and
   * appends only zeros; afterwards the vector holds exactly n whole rows.
   * When the old length was a whole number of rows the new length is
   * n * stride; otherwise growing keeps the bytes of the partial last row
   * and shrinking drops them. The same row count leaves the vector alone.
   */
  lemma ResizeRowsShape(d: Bytes, n: nat, stride: nat)
    requires stride > 0
    ensures var r := ResizeRows(d, n, stride);
            && (n == |d| / stride ==> r == d)
            && (n > |d| / stride ==> |r| == n * stride + |d| % stride)
            && (n < |d| / stride ==> |r| == n * stride)
            && (forall k :: 0 <= k < |r| ==> r[k] == if k < |d| then d[k] else 0)
            && |r| / stride == n
            && (|d| % stride == 0 ==> |r| == n * stride)
  {
    var rows := |d| / stride;
    if n > rows {
      GrowRows(d, n, stride);
    } else if n < rows {
      ShrinkRows(d, n, stride);
    } else {
      assert |d| == rows * stride + |d| % stride;
    }
  }

  /** The growing case of ResizeRowsShape. */
  lemma GrowRows(d: Bytes, n: nat, stride: nat)
    requires stride > 0 && n > |d| / stride
    ensures var r := ResizeRows(d, n, stride);
            && |r| == n * stride + |d| % stride
            && |r| / stride == n
  {
    var r := ResizeRows(d, n, stride);
    var rows := |d| / stride;
    var rem := |d| % stride;
    assert |d| == rows * stride + rem;
    assert n * stride == (n - rows) * stride + rows * stride;
    assert |r| == n * stride + rem;
    DivUnique(|r|, stride, n, rem);
  }

  /** The shrinking case of ResizeRowsShape. */
  lemma ShrinkRows(d: Bytes, n: nat, stride: nat)
    requires stride > 0 && n < |d| / stride
    ensures var r := ResizeRows(d, n, stride);
            && n * stride <= |d|
            && |r| == n * stride
            && |r| / stride == n
  {
    RowsFit(|d|, n, stride);
    DivUnique(n * stride, stride, n, 0);
  }

  /**
   * unclean_set_num_rows: a different row count gets a brand new vector
   * of n * stride zero bytes; the same row count keeps the vector.
   */
  function UncleanRows(d: Bytes, n: nat, stride: nat): (r: Bytes)
    requires stride > 0
    ensures n == |d| / stride ==> r == d
    ensures n != |d| / stride ==> |r| == n * stride && forall k :: 0 <= k < |r| ==> r[k] == 0
  {
    if n == |d| / stride then d else Zeros(n * stride)
  }
}

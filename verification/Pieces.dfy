/**
 * The bytes of a torrent, cut into pieces of one length (the last may be short),
 * and the arithmetic that locates an offset in a piece.
 */
module Pieces {
  import opened Common

  /** Data cut into parts of length `d`, the last one possibly shorter. */
  function Cut(data: seq<byte>, d: int): (parts: seq<seq<byte>>)
    requires d > 0
    ensures forall p :: 0 <= p < |parts| ==> 0 < |parts[p]| <= d
  {
    if data == [] then []
    else if |data| <= d then [data]
    else [data[..d]] + Cut(data[d..], d)
  }

  /** A torrent's data and piece length. */
  datatype Layout = Layout(data: seq<byte>, pieceLength: int) {

    /** A torrent holds some data, and its piece indexes fit the 32-bit integer type used for them. */
    ghost predicate Valid() {
      && 0 < pieceLength < 0x8000_0000
      && 0 < |data| <= 0x7FFF_FFFF * pieceLength
    }

    function Pieces(): seq<seq<byte>>
      requires Valid()
    {
      Cut(data, pieceLength)
    }

    predicate IsPiece(p: int)
      requires Valid()
    {
      0 <= p < |Pieces()|
    }

    /** The data of one piece. */
    function PieceBytes(p: int): (bytes: seq<byte>)
      requires Valid() && IsPiece(p)
      ensures 0 < |bytes| <= pieceLength
    {
      Pieces()[p]
    }

    function PieceSize(p: int): (size: int)
      requires Valid() && IsPiece(p)
      ensures 0 < size <= pieceLength
    {
      |PieceBytes(p)|
    }
  }

  /** The offset at which part `p` starts: `p` lengths of `d`. */
  function Start(p: int, d: int): (start: int)
    ensures 0 <= d ==> 0 <= start
  {
    if p <= 0 then 0 else Start(p - 1, d) + d
  }

  lemma {:induction false} StartIsProduct(p: int, d: int)
    requires 0 <= p
    ensures Start(p, d) == p * d
  {
    if p > 0 {
      StartIsProduct(p - 1, d);
    }
  }

  lemma {:induction false} StartMonotone(p: int, q: int, d: int)
    requires 0 <= p <= q && 0 <= d
    ensures Start(p, d) + (if p < q then d else 0) <= Start(q, d)
  {
    if p < q {
      StartMonotone(p, q - 1, d);
    }
  }

  /** Truncating quotient and remainder of an offset: the part that holds it, and where in that part. */
  lemma TruncIsStart(x: int, d: int)
    requires d > 0 && 0 <= x
    ensures 0 <= TruncDiv(x, d) && Start(TruncDiv(x, d), d) <= x < Start(TruncDiv(x, d), d) + d
    ensures TruncMod(x, d) == x - Start(TruncDiv(x, d), d)
  {
    StartIsProduct(x / d, d);
  }

  /** The part that holds an offset is the only one whose bounds contain it. */
  lemma StartUnique(x: int, p: int, q: int, d: int)
    requires d > 0 && 0 <= p && 0 <= q
    requires Start(p, d) <= x < Start(p, d) + d && Start(q, d) <= x < Start(q, d) + d
    ensures p == q
  {
    if p < q {
      StartMonotone(p, q, d);
    } else {
      StartMonotone(q, p, d);
    }
  }

  /** Part `p` exists iff data reaches its start. */
  lemma {:induction false} CutAt(data: seq<byte>, d: int, p: int)
    requires d > 0 && 0 <= p
    ensures p < |Cut(data, d)| <==> Start(p, d) < |data|
    ensures Start(p, d) < |data| ==> Cut(data, d)[p] == data[Start(p, d)..Min(Start(p, d) + d, |data|)]
  {
    if p == 0 {
      assert data != [] ==> Cut(data, d)[0] == data[..Min(d, |data|)];
    } else if |data| > d {
      CutAt(data[d..], d, p - 1);
      if Start(p, d) < |data| {
        SubSlice(data, d, Start(p - 1, d), Min(Start(p, d), |data| - d));
      }
    }
  }

  lemma SubSlice(data: seq<byte>, d: int, from: int, to: int)
    requires 0 <= d && 0 <= from <= to && d + to <= |data|
    ensures data[d..][from..to] == data[d + from..d + to]
  {
  }

  /** A piece of a torrent, as a slice of its data. */
  lemma PieceIsSlice(layout: Layout, p: int)
    requires layout.Valid() && 0 <= p
    ensures layout.IsPiece(p) <==> Start(p, layout.pieceLength) < |layout.data|
    ensures layout.IsPiece(p) ==>
              var start := Start(p, layout.pieceLength);
              layout.PieceBytes(p) == layout.data[start..Min(start + layout.pieceLength, |layout.data|)]
  {
    CutAt(layout.data, layout.pieceLength, p);
  }

  /** The piece that holds offset `x` of the torrent, as the 32-bit index the code computes. */
  function PieceAt(x: int, pieceLength: int): int
    requires pieceLength > 0
  {
    Int32(TruncDiv(x, pieceLength))
  }

  /** The offset in that piece, as the 32-bit number the code computes. */
  function OffsetInPiece(x: int, pieceLength: int): int
    requires pieceLength > 0
  {
    Int32(TruncMod(x, pieceLength))
  }

  /** Every byte of the torrent lies in the piece that truncating division names, at the remainder. */
  lemma ByteInPiece(layout: Layout, x: int)
    requires layout.Valid() && 0 <= x < |layout.data|
    ensures var p, o := PieceAt(x, layout.pieceLength), OffsetInPiece(x, layout.pieceLength);
            && layout.IsPiece(p)
            && Start(p, layout.pieceLength) <= x < Start(p + 1, layout.pieceLength)
            && 0 <= o == x - Start(p, layout.pieceLength) < layout.PieceSize(p)
            && layout.PieceBytes(p)[o] == layout.data[x]
  {
    hide PieceAt, OffsetInPiece;
    PieceAtBounds(x, layout.pieceLength);
    PieceIsSlice(layout, PieceAt(x, layout.pieceLength));
  }

  /** Neither 32-bit conversion loses anything for an offset in the torrent or at its end. */
  lemma PieceAtBounds(x: int, d: int)
    requires 0 < d < 0x8000_0000 && 0 <= x <= 0x7FFF_FFFF * d
    ensures var p := PieceAt(x, d);
            && 0 <= p && Start(p, d) <= x < Start(p + 1, d)
            && OffsetInPiece(x, d) == x - Start(p, d)
  {
    hide TruncDiv, TruncMod;
    TruncIsStart(x, d);
    var limit := 0x7FFF_FFFF;
    StartIsProduct(limit, d);
    if TruncDiv(x, d) > limit {
      StartMonotone(limit, TruncDiv(x, d), d);
    }
  }

  /** Truncation: the offset before the first byte counts as in piece 0, or -1 when pieces are one byte long. */
  lemma BeforeFirstByte(layout: Layout)
    requires layout.Valid()
    ensures PieceAt(-1, layout.pieceLength) == (if layout.pieceLength == 1 then -1 else 0)
    ensures layout.IsPiece(0)
  {
    var d := layout.pieceLength;
    PieceIsSlice(layout, 0);
    if d > 1 {
      StartIsProduct(0, d);
      StartUnique(1, 1 / d, 0, d) by {
        TruncIsStart(1, d);
      }
    }
  }

  lemma PieceAtMonotone(layout: Layout, x: int, y: int)
    requires layout.Valid() && 0 <= x <= y < |layout.data|
    ensures 0 <= PieceAt(x, layout.pieceLength) <= PieceAt(y, layout.pieceLength)
  {
    hide PieceAt;
    var d := layout.pieceLength;
    ByteInPiece(layout, x);
    ByteInPiece(layout, y);
    if PieceAt(y, d) < PieceAt(x, d) {
      StartMonotone(PieceAt(y, d) + 1, PieceAt(x, d), d);
    }
  }

  /** Of the pieces between those of two bytes, each exists and holds a byte between the two. */
  lemma PieceBetween(layout: Layout, x: int, y: int, p: int)
    requires layout.Valid() && 0 <= x <= y < |layout.data|
    requires PieceAt(x, layout.pieceLength) <= p <= PieceAt(y, layout.pieceLength)
    ensures layout.IsPiece(p)
    ensures var b := Max(x, Start(p, layout.pieceLength)); x <= b <= y && PieceAt(b, layout.pieceLength) == p
    ensures PieceAt(x, layout.pieceLength) < p ==> x < Start(p, layout.pieceLength)
    ensures Start(p, layout.pieceLength) <= y
  {
    hide PieceAt;
    var d := layout.pieceLength;
    var first, last := PieceAt(x, d), PieceAt(y, d);
    ByteInPiece(layout, x);
    ByteInPiece(layout, y);
    var b := Max(x, Start(p, d));
    if first == p {
      assert b == x;
    } else {
      StartMonotone(first + 1, p, d);
      StartMonotone(p, last, d);
      assert b == Start(p, d);
      ByteInPiece(layout, b);
      StartUnique(b, p, PieceAt(b, d), d);
    }
  }

  /** Every byte of a window of `n` bytes from `base` lies in one of the pieces. */
  ghost predicate Covers(base: int, n: int, d: int, pieces: set<int>)
    requires d > 0
  {
    forall x :: base <= x < base + n ==> PieceAt(x, d) in pieces
  }

  predicate AllIn(first: int, last: int, pieces: set<int>) {
    forall p :: first <= p <= last ==> p in pieces
  }

  /** Bytes and pieces: a window is covered iff all pieces from that of its first byte to that of its last are there. */
  lemma CoversIffAllIn(layout: Layout, base: int, n: int, pieces: set<int>)
    requires layout.Valid() && 0 <= base && 0 < n && base + n <= |layout.data|
    ensures var d := layout.pieceLength;
            Covers(base, n, d, pieces) <==> AllIn(PieceAt(base, d), PieceAt(base + n - 1, d), pieces)
  {
    hide PieceAt;
    var d := layout.pieceLength;
    if AllIn(PieceAt(base, d), PieceAt(base + n - 1, d), pieces) {
      forall x | base <= x < base + n
        ensures PieceAt(x, d) in pieces
      {
        PieceAtMonotone(layout, base, x);
        PieceAtMonotone(layout, x, base + n - 1);
      }
    }
    if Covers(base, n, d, pieces) {
      forall p | PieceAt(base, d) <= p <= PieceAt(base + n - 1, d)
        ensures p in pieces
      {
        PieceBetween(layout, base, base + n - 1, p);
      }
    }
  }

  lemma CoversMore(base: int, n: int, d: int, pieces: set<int>, more: set<int>)
    requires d > 0
    ensures pieces <= more && Covers(base, n, d, pieces) ==> Covers(base, n, d, more)
  {
  }

  lemma CoversBoth(base: int, n: int, d: int, pieces: set<int>, others: set<int>)
    requires d > 0
    ensures Covers(base, n, d, pieces * others) <==> Covers(base, n, d, pieces) && Covers(base, n, d, others)
  {
    hide PieceAt;
  }

  /** A window is covered iff its parts are. */
  lemma CoversParts(base: int, n: int, m: int, d: int, pieces: set<int>)
    requires d > 0 && 0 <= n && 0 <= m
    ensures Covers(base, n + m, d, pieces) <==> Covers(base, n, d, pieces) && Covers(base + n, m, d, pieces)
  {
    hide PieceAt;
  }

  lemma WindowExists(layout: Layout, base: int, size: int)
    requires layout.Valid() && 0 <= base && 0 < size && base + size <= |layout.data|
    ensures forall p :: PieceAt(base, layout.pieceLength) <= p <= PieceAt(base + size - 1, layout.pieceLength)
              ==> layout.IsPiece(p)
  {
    ByteInPiece(layout, base);
    ByteInPiece(layout, base + size - 1);
  }

  /** Piece `p`, read from `from` on, supplies bytes `at` to `end` of a window of `size` bytes from `base`. */
  ghost predicate Supplies(layout: Layout, base: int, size: int, p: int, from: int, at: int, end: int)
    requires layout.Valid() && 0 <= base && base + size <= |layout.data|
  {
    && layout.IsPiece(p) && 0 <= from < layout.PieceSize(p)
    && 0 <= at < end <= size && end - at == Min(size - at, layout.PieceSize(p) - from)
    && layout.PieceBytes(p)[from..from + (end - at)] == layout.data[base + at..base + end]
  }

  /** Consecutive pieces, the first read from `from`, supply a window; `cuts` are the seams between them. */
  ghost predicate Stitched(layout: Layout, base: int, size: int, first: int, from: int, cuts: seq<int>)
    requires layout.Valid() && 0 <= base && base + size <= |layout.data|
  {
    && |cuts| >= 2 && cuts[0] == 0 && cuts[|cuts| - 1] == size
    && forall i :: 0 <= i < |cuts| - 1 ==>
         Supplies(layout, base, size, first + i, if i == 0 then from else 0, cuts[i], cuts[i + 1])
  }

  /** Where a window of `size` bytes from `base` passes from the piece before `p` to `p`. */
  function Seam(base: int, size: int, p: int, d: int): int {
    Max(0, Min(size, Start(p, d) - base))
  }

  /** A piece of a window supplies the bytes between its seams. */
  lemma PieceSupplies(layout: Layout, base: int, size: int, p: int)
    requires layout.Valid() && 0 <= base && 0 < size && base + size <= |layout.data|
    requires PieceAt(base, layout.pieceLength) <= p <= PieceAt(base + size - 1, layout.pieceLength)
    ensures var d := layout.pieceLength;
            var from := if p == PieceAt(base, d) then OffsetInPiece(base, d) else 0;
            Supplies(layout, base, size, p, from, Seam(base, size, p, d), Seam(base, size, p + 1, d))
  {
    hide PieceAt, OffsetInPiece, Supplies;
    var d := layout.pieceLength;
    PieceBetween(layout, base, base + size - 1, p);
    ByteInPiece(layout, base);
    var from := if p == PieceAt(base, d) then OffsetInPiece(base, d) else 0;
    SupplyArithmetic(Start(p, d), d, |layout.data|, base, size, from);
    SliceSupplies(layout, base, size, p, from, Seam(base, size, p, d), Seam(base, size, p + 1, d));
  }

  /** Bytes of a piece supply the bytes of a window that lie at the same offsets of the torrent. */
  lemma SliceSupplies(layout: Layout, base: int, size: int, p: int, from: int, at: int, end: int)
    requires layout.Valid() && layout.IsPiece(p) && 0 <= base && base + size <= |layout.data|
    requires var start := Start(p, layout.pieceLength);
             var pieceEnd := Min(start + layout.pieceLength, |layout.data|);
             && start + from == base + at && 0 <= from && 0 <= at < end
             && from + (end - at) <= pieceEnd - start
             && end - at == Min(size - at, pieceEnd - start - from)
    ensures Supplies(layout, base, size, p, from, at, end)
  {
    var start := Start(p, layout.pieceLength);
    PieceIsSlice(layout, p);
    SliceOfSlice(layout.data, start, Min(start + layout.pieceLength, |layout.data|), from, from + (end - at));
  }

  lemma SupplyArithmetic(start: int, d: int, total: int, base: int, size: int, from: int)
    requires 0 <= start < base + size <= total && 0 <= base < start + d && 0 < d && 0 < size
    requires from == Max(0, base - start)
    ensures var at, end := Max(0, Min(size, start - base)), Max(0, Min(size, start + d - base));
            && start + from == base + at && at < end
            && from + (end - at) <= Min(start + d, total) - start
            && end - at == Min(size - at, Min(start + d, total) - start - from)
  {
  }

  lemma SliceOfSlice(data: seq<byte>, lo: int, hi: int, from: int, to: int)
    requires 0 <= lo <= hi <= |data| && 0 <= from <= to <= hi - lo
    ensures data[lo..hi][from..to] == data[lo + from..lo + to]
  {
    forall i | 0 <= i < to - from
      ensures data[lo..hi][from..to][i] == data[lo + from..lo + to][i]
    {
    }
  }

  lemma LastSeam(layout: Layout, base: int, size: int)
    requires layout.Valid() && 0 <= base && 0 < size && base + size <= |layout.data|
    ensures var d := layout.pieceLength;
            && Seam(base, size, PieceAt(base, d), d) == 0
            && Seam(base, size, PieceAt(base + size - 1, d) + 1, d) == size
  {
    hide PieceAt, OffsetInPiece;
    ByteInPiece(layout, base);
    ByteInPiece(layout, base + size - 1);
  }

  /** The pieces from that of the first byte of a window to that of its last supply the window. */
  lemma WindowStitched(layout: Layout, base: int, size: int) returns (cuts: seq<int>)
    requires layout.Valid() && 0 <= base && 0 < size && base + size <= |layout.data|
    ensures var d := layout.pieceLength;
            && |cuts| == PieceAt(base + size - 1, d) - PieceAt(base, d) + 2
            && Stitched(layout, base, size, PieceAt(base, d), OffsetInPiece(base, d), cuts)
  {
    hide PieceAt, OffsetInPiece, Seam, Supplies;
    var d := layout.pieceLength;
    var first, last, from := PieceAt(base, d), PieceAt(base + size - 1, d), OffsetInPiece(base, d);
    PieceAtMonotone(layout, base, base + size - 1);
    LastSeam(layout, base, size);
    cuts := seq(last - first + 2, i => Seam(base, size, first + i, d));
    forall i | 0 <= i < |cuts| - 1
      ensures Supplies(layout, base, size, first + i, if i == 0 then from else 0, cuts[i], cuts[i + 1])
    {
      PieceSupplies(layout, base, size, first + i);
    }
    assert first + (|cuts| - 1) == last + 1;
  }

  /** Appending the next bytes of a source extends the part of a buffer that agrees with it. */
  lemma AppendSlice(source: seq<byte>, base: int, size: int, at: int, end: int, before: seq<byte>, after: seq<byte>)
    requires 0 <= base && base + size <= |source| && size <= |before| && 0 <= at <= end <= size
    requires before[..at] == source[base..base + at]
    requires after == before[..at] + source[base + at..base + end] + before[end..]
    ensures after[..end] == source[base..base + end] && after[size..] == before[size..]
  {
    assert after[..end] == before[..at] + source[base + at..base + end];
  }
}

/** Which pieces a file buffers, how many of their bytes are missing, and when it stops buffering. */
module Buffering {
  import opened Common
  import opened Pieces
  import opened PieceCache
  import opened Torrents

  /** The pieces from that of a first offset of the torrent to that of the last of `length` bytes. */
  function Section(offset: int, length: int, d: int): seq<int>
    requires d > 0
  {
    var first, last := PieceAt(offset, d), PieceAt(offset + length - 1, d);
    seq(Max(0, last - first + 1), i => first + i)
  }

  /** What buffering the first `start` and last `end` bytes of a file at `offset` selects. */
  function Selected(offset: int, size: int, d: int, start: int, end: int): seq<int>
    requires d > 0
  {
    var s, e := Max(start, 0), Max(end, 0);
    if size > s + e then Section(offset, s, d) + Section(offset + size - e, e, d)
    else Section(offset, size, d)
  }

  /** Total size of the listed pieces, a piece counted once for each mention. */
  ghost function SizeOf(layout: Layout, pieces: seq<int>): (n: int)
    requires layout.Valid() && AllPieces(layout, pieces)
    ensures 0 <= n && (0 < n <==> pieces != [])
  {
    Missing(layout, pieces, {})
  }

  /** Bytes of the listed pieces that are neither owned nor in the download queue. */
  ghost function StillMissing(layout: Layout, pieces: seq<int>, owned: set<int>, queue: seq<QueueEntry>): int
    requires layout.Valid() && AllPieces(layout, pieces)
  {
    Missing(layout, pieces, owned) - Received(pieces, queue)
  }

  /** Every listed piece is owned, or all its bytes are in the download queue. */
  ghost predicate Complete(layout: Layout, pieces: seq<int>, owned: set<int>, queue: seq<QueueEntry>)
    requires layout.Valid() && AllPieces(layout, pieces)
  {
    forall p :: p in pieces ==> p in owned || FullyReceived(layout, p, queue)
  }

  predicate AllPieces(layout: Layout, pieces: seq<int>)
    requires layout.Valid()
  {
    forall p :: p in pieces ==> layout.IsPiece(p)
  }

  /** A file that occupies `size` bytes of a torrent from `offset` on. */
  predicate Inside(layout: Layout, offset: int, size: int) {
    0 <= offset && 0 <= size && offset + size <= |layout.data|
  }

  lemma SectionHas(layout: Layout, offset: int, length: int, x: int)
    requires layout.Valid() && Inside(layout, offset, length) && offset <= x < offset + length
    ensures PieceAt(x, layout.pieceLength) in Section(offset, length, layout.pieceLength)
  {
    hide PieceAt;
    var d := layout.pieceLength;
    PieceAtMonotone(layout, offset, x);
    PieceAtMonotone(layout, x, offset + length - 1);
    var i := PieceAt(x, d) - PieceAt(offset, d);
    assert Section(offset, length, d)[i] == PieceAt(x, d);
  }

  /** A section of a non-empty file selects only pieces of the file, even when its length is zero. */
  lemma SectionInside(layout: Layout, offset: int, size: int, from: int, length: int, p: int)
    requires layout.Valid() && Inside(layout, offset, size) && 0 < size
    requires 0 <= from && 0 <= length && from + length <= size
    requires p in Section(offset + from, length, layout.pieceLength)
    ensures PieceAt(offset, layout.pieceLength) <= p <= PieceAt(offset + size - 1, layout.pieceLength)
    ensures layout.IsPiece(p)
  {
    hide PieceAt;
    var d := layout.pieceLength;
    var last := offset + from + length - 1;
    PieceAtMonotone(layout, offset, offset + size - 1);
    if last < 0 {
      BeforeFirstByte(layout);
    } else {
      PieceAtMonotone(layout, last, offset + size - 1);
    }
    if from < size {
      PieceAtMonotone(layout, offset, offset + from);
    } else {
      PieceAtBounds(offset + from, d);
      PieceAtEnd(layout, offset, offset + from);
    }
    WindowExists(layout, offset, size);
  }

  lemma PieceAtEnd(layout: Layout, x: int, y: int)
    requires layout.Valid() && 0 <= x < |layout.data| && x <= y <= |layout.data|
    ensures PieceAt(x, layout.pieceLength) <= PieceAt(y, layout.pieceLength)
  {
    hide PieceAt;
    var d := layout.pieceLength;
    ByteInPiece(layout, x);
    PieceAtBounds(y, d);
    if PieceAt(y, d) < PieceAt(x, d) {
      StartMonotone(PieceAt(y, d) + 1, PieceAt(x, d), d);
    }
  }

  /** A byte of the file that `buffer` was asked for: among the first `start`, the last `end`, or all when they meet. */
  predicate Asked(size: int, start: int, end: int, x: int) {
    var s, e := Max(start, 0), Max(end, 0);
    0 <= x < size && (size <= s + e || x < s || size - e <= x)
  }

  /** Coverage: every byte asked for lies in a selected piece, and only pieces of the file are selected. */
  lemma BufferCovers(layout: Layout, offset: int, size: int, start: int, end: int)
    requires layout.Valid() && Inside(layout, offset, size) && 0 < size
    ensures var d := layout.pieceLength;
            var selected := Selected(offset, size, d, start, end);
            && (forall x :: Asked(size, start, end, x) ==> PieceAt(offset + x, d) in selected)
            && (forall p :: p in selected ==>
                  layout.IsPiece(p) && PieceAt(offset, d) <= p <= PieceAt(offset + size - 1, d))
  {
    hide PieceAt, Section;
    var d := layout.pieceLength;
    var s, e := Max(start, 0), Max(end, 0);
    forall x | Asked(size, start, end, x)
      ensures PieceAt(offset + x, d) in Selected(offset, size, d, start, end)
    {
      if size <= s + e {
        SectionHas(layout, offset, size, offset + x);
      } else if x < s {
        SectionHas(layout, offset, s, offset + x);
      } else {
        SectionHas(layout, offset + size - e, e, offset + x);
      }
    }
    forall p | p in Selected(offset, size, d, start, end)
      ensures layout.IsPiece(p) && PieceAt(offset, d) <= p <= PieceAt(offset + size - 1, d)
    {
      if size <= s + e {
        SectionInside(layout, offset, size, 0, size, p);
      } else if p in Section(offset, s, d) {
        SectionInside(layout, offset, size, 0, s, p);
      } else {
        SectionInside(layout, offset, size, size - e, e, p);
      }
    }
  }

  /** Some byte of the torrent from `from` on, before `to`, lies in the piece. */
  ghost predicate HasByte(from: int, to: int, d: int, p: int)
    requires d > 0
  {
    exists x :: from <= x < to && PieceAt(x, d) == p
  }

  /** A section of at least one byte lists the pieces that hold its bytes, each once. */
  lemma SectionIs(layout: Layout, offset: int, length: int, p: int)
    requires layout.Valid() && Inside(layout, offset, length) && 0 < length
    ensures var d := layout.pieceLength;
            multiset(Section(offset, length, d))[p] == if HasByte(offset, offset + length, d, p) then 1 else 0
  {
    hide PieceAt;
    var d := layout.pieceLength;
    var section := Section(offset, length, d);
    Increasing(section, p);
    if p in section {
      PieceBetween(layout, offset, offset + length - 1, p);
    }
    if x :| offset <= x < offset + length && PieceAt(x, d) == p {
      SectionHas(layout, offset, length, x);
    }
  }

  lemma {:induction false} Increasing(pieces: seq<int>, p: int)
    requires forall i, j :: 0 <= i < j < |pieces| ==> pieces[i] < pieces[j]
    ensures multiset(pieces)[p] == if p in pieces then 1 else 0
  {
    if pieces != [] {
      var before, last := pieces[..|pieces| - 1], pieces[|pieces| - 1];
      Increasing(before, p);
      assert pieces == before + [last];
      assert last !in before;
    }
  }

  /**
   * What is selected was asked for: asked for some first and some last bytes of a non-empty file, each piece is
   * selected once for its bytes among the first and once for those among the last, so twice iff it has both;
   * when the two meet, once for its bytes of the file.
   */
  lemma SelectedTimes(layout: Layout, offset: int, size: int, start: int, end: int, p: int)
    requires layout.Valid() && Inside(layout, offset, size) && 0 < start && 0 < end && 0 < size
    ensures var d := layout.pieceLength;
            var selected := Selected(offset, size, d, start, end);
            && multiset(selected)[p]
               == (if size <= start + end then if HasByte(offset, offset + size, d, p) then 1 else 0
                   else (if HasByte(offset, offset + start, d, p) then 1 else 0)
                        + if HasByte(offset + size - end, offset + size, d, p) then 1 else 0)
            && (p in selected <==> exists x :: Asked(size, start, end, x) && PieceAt(offset + x, d) == p)
  {
    hide PieceAt, Section;
    var d := layout.pieceLength;
    if size <= start + end {
      SectionIs(layout, offset, size, p);
      SelectedByAsked(layout, offset, size, start, end, 0, size, p);
    } else {
      SectionIs(layout, offset, start, p);
      SectionIs(layout, offset + size - end, end, p);
      SelectedByAsked(layout, offset, size, start, end, 0, start, p);
      SelectedByAsked(layout, offset, size, start, end, size - end, size, p);
    }
    if x :| Asked(size, start, end, x) && PieceAt(offset + x, d) == p {
      BufferCovers(layout, offset, size, start, end);
    }
  }

  lemma SelectedByAsked(layout: Layout, offset: int, size: int, start: int, end: int, from: int, to: int, p: int)
    requires layout.Valid() && forall x :: from <= x < to ==> Asked(size, start, end, x)
    ensures var d := layout.pieceLength;
            HasByte(offset + from, offset + to, d, p) ==>
              exists x :: Asked(size, start, end, x) && PieceAt(offset + x, d) == p
  {
    hide PieceAt, Asked;
    var d := layout.pieceLength;
    if y :| offset + from <= y < offset + to && PieceAt(y, d) == p {
      var x := y - offset;
      assert Asked(size, start, end, x) && PieceAt(offset + x, d) == p;
    }
  }

  /** The piece holds both a byte of the first and a byte of the last ones asked for, which do not meet. */
  ghost predicate AtBothEnds(offset: int, size: int, d: int, start: int, end: int, p: int)
    requires d > 0
  {
    && size > start + end
    && HasByte(offset, offset + start, d, p) && HasByte(offset + size - end, offset + size, d, p)
  }

  /**
   * When nothing is missing of what was selected: iff each byte asked for lies in a piece that is owned, or
   * fully received and not one that holds bytes of both ends, as that is counted twice as missing.
   */
  lemma SettledIff(layout: Layout, offset: int, size: int, start: int, end: int, owned: set<int>,
                   queue: seq<QueueEntry>)
    requires layout.Valid() && Inside(layout, offset, size) && 0 < start && 0 < end && 0 < size
    ensures var d := layout.pieceLength;
            Settled(layout, Selected(offset, size, d, start, end), owned, queue) <==>
              forall x :: Asked(size, start, end, x) ==>
                && layout.IsPiece(PieceAt(offset + x, d))
                && (PieceAt(offset + x, d) in owned
                    || (FullyReceived(layout, PieceAt(offset + x, d), queue)
                        && !AtBothEnds(offset, size, d, start, end, PieceAt(offset + x, d))))
  {
    hide PieceAt, Asked, FullyReceived;
    var d := layout.pieceLength;
    var selected := Selected(offset, size, d, start, end);
    BufferCovers(layout, offset, size, start, end);
    forall x | Asked(size, start, end, x)
      ensures var p := PieceAt(offset + x, d);
              p in selected && (multiset(selected)[p] == 1 <==> !AtBothEnds(offset, size, d, start, end, p))
    {
      SelectedTimes(layout, offset, size, start, end, PieceAt(offset + x, d));
    }
    forall p | p in selected
      ensures exists x :: Asked(size, start, end, x) && PieceAt(offset + x, d) == p
    {
      SelectedTimes(layout, offset, size, start, end, p);
    }
    hide Selected;
  }

  /** Asked for no first or no last bytes, a file selects besides only the piece of that empty section. */
  lemma SelectedBesides(layout: Layout, offset: int, size: int, start: int, end: int, p: int)
    requires layout.Valid() && Inside(layout, offset, size) && 0 < size
    requires p in Selected(offset, size, layout.pieceLength, start, end)
    ensures var d := layout.pieceLength;
            || (exists x :: Asked(size, start, end, x) && PieceAt(offset + x, d) == p)
            || (start <= 0 && p == PieceAt(offset, d) && p in Section(offset, 0, d))
            || (end <= 0 && p == PieceAt(offset + size, d) && p in Section(offset + size, 0, d))
  {
    hide PieceAt, Section;
    var s, e := Max(start, 0), Max(end, 0);
    if size <= s + e {
      SectionIs(layout, offset, size, p);
      SelectedByAsked(layout, offset, size, start, end, 0, size, p);
    } else if p in Section(offset, s, layout.pieceLength) {
      if s == 0 {
        EmptySection(layout, offset);
      } else {
        SectionIs(layout, offset, s, p);
        SelectedByAsked(layout, offset, size, start, end, 0, s, p);
      }
    } else if e == 0 {
      EmptySection(layout, offset + size);
    } else {
      SectionIs(layout, offset + size - e, e, p);
      SelectedByAsked(layout, offset, size, start, end, size - e, size, p);
    }
  }

  /** An offset at which a piece starts. */
  predicate Aligned(x: int, d: int)
    requires d > 0
  {
    x % d == 0
  }

  /**
   * A section of no bytes selects the piece of its offset if that is not piece-aligned, or is 0 and pieces
   * are longer than a byte; otherwise it selects nothing.
   */
  lemma EmptySection(layout: Layout, x: int)
    requires layout.Valid() && 0 <= x <= |layout.data|
    ensures var d := layout.pieceLength;
            Section(x, 0, d) == if Aligned(x, d) && (x > 0 || d == 1) then [] else [PieceAt(x, d)]
    ensures var d := layout.pieceLength;
            !(Aligned(x, d) && (x > 0 || d == 1)) ==> layout.IsPiece(PieceAt(x, d))
  {
    var d := layout.pieceLength;
    hide PieceAt, Aligned;
    if x == 0 {
      ZeroAligned(d);
      BeforeFirstByte(layout);
      PieceAtBounds(0, d);
      StartUnique(0, PieceAt(0, d), 0, d);
    } else {
      PieceBefore(layout, x);
    }
  }

  /** The byte before an offset lies in the piece before that of the offset iff the offset is aligned. */
  lemma PieceBefore(layout: Layout, x: int)
    requires layout.Valid() && 0 < x <= |layout.data|
    ensures var d := layout.pieceLength;
            PieceAt(x - 1, d) == if Aligned(x, d) then PieceAt(x, d) - 1 else PieceAt(x, d)
    ensures layout.IsPiece(PieceAt(x - 1, layout.pieceLength))
  {
    hide PieceAt, Aligned;
    var d := layout.pieceLength;
    var p, q := PieceAt(x, d), PieceAt(x - 1, d);
    AlignedStart(x, d);
    PieceAtBounds(x, d);
    ByteInPiece(layout, x - 1);
    if Aligned(x, d) {
      StartUnique(x - 1, p - 1, q, d);
    } else {
      StartUnique(x - 1, p, q, d);
    }
  }

  lemma ZeroAligned(d: int)
    requires d > 0
    ensures Aligned(0, d)
  {
  }

  lemma AlignedStart(x: int, d: int)
    requires 0 < d < 0x8000_0000 && 0 <= x <= 0x7FFF_FFFF * d
    ensures Aligned(x, d) <==> x == Start(PieceAt(x, d), d)
    ensures Aligned(x, d) && x > 0 ==> PieceAt(x, d) > 0
  {
    hide PieceAt, OffsetInPiece, TruncDiv, TruncMod;
    PieceAtBounds(x, d);
    TruncIsStart(x, d);
    StartUnique(x, PieceAt(x, d), TruncDiv(x, d), d);
    RemainderAgrees(x, d);
  }

  lemma RemainderAgrees(x: int, d: int)
    requires 0 < d && 0 <= x
    ensures x % d == TruncMod(x, d)
  {
  }

  /**
   * Buffering an empty file selects nothing iff it starts at a piece boundary, and not at offset 0 unless pieces
   * are one byte long.
   */
  lemma EmptyFileSelects(layout: Layout, offset: int, start: int, end: int)
    requires layout.Valid() && Inside(layout, offset, 0)
    ensures Selected(offset, 0, layout.pieceLength, start, end) == []
       <==> Aligned(offset, layout.pieceLength) && (offset > 0 || layout.pieceLength == 1)
    ensures AllPieces(layout, Selected(offset, 0, layout.pieceLength, start, end))
  {
    hide PieceAt, Aligned;
    EmptySection(layout, offset);
  }

  /**
   * Asked for no bytes, a non-empty file selects nothing iff it lies on piece boundaries, and not at offset 0
   * unless pieces are one byte long.
   */
  lemma NothingAskedSelects(layout: Layout, offset: int, size: int, start: int, end: int)
    requires layout.Valid() && Inside(layout, offset, size) && 0 < size && start <= 0 && end <= 0
    ensures var d := layout.pieceLength;
            Selected(offset, size, d, start, end) == []
            <==> Aligned(offset, d) && (offset > 0 || d == 1) && Aligned(offset + size, d)
  {
    hide PieceAt, Aligned, Section;
    EmptySection(layout, offset);
    EmptySection(layout, offset + size);
  }

  lemma SelectedArePieces(layout: Layout, offset: int, size: int, start: int, end: int)
    requires layout.Valid() && Inside(layout, offset, size)
    ensures AllPieces(layout, Selected(offset, size, layout.pieceLength, start, end))
  {
    if size == 0 {
      EmptyFileSelects(layout, offset, start, end);
    } else {
      BufferCovers(layout, offset, size, start, end);
    }
  }

  // ------------------------------------------------------------------------------------------

  /** What one file remembers of its buffering. */
  datatype State = State(priority: int, buffering: bool, pieces: seq<int>, size: int) {
    ghost predicate Valid(layout: Layout)
      requires layout.Valid()
    {
      AllPieces(layout, pieces) && size == SizeOf(layout, pieces) && (buffering ==> size > 0)
    }
  }

  /** One operation on a file; a check comes with the number of bytes it finds missing. */
  datatype Operation = Buffer(selected: seq<int>) | SetPriority(priority: int) | Check(missing: int)

  ghost function Next(layout: Layout, s: State, op: Operation): State
    requires layout.Valid() && (op.Buffer? ==> AllPieces(layout, op.selected))
  {
    match op
    case Buffer(selected) =>
      s.(pieces := selected, size := SizeOf(layout, selected), buffering := SizeOf(layout, selected) > 0)
    case SetPriority(priority) => State(priority, false, [], 0)
    case Check(missing) => s.(buffering := s.buffering && missing != 0)
  }

  ghost predicate Possible(layout: Layout, ops: seq<Operation>)
    requires layout.Valid()
  {
    forall i :: 0 <= i < |ops| && ops[i].Buffer? ==> AllPieces(layout, ops[i].selected)
  }

  ghost function After(layout: Layout, s: State, ops: seq<Operation>): State
    requires layout.Valid() && Possible(layout, ops)
  {
    if ops == [] then s else Next(layout, After(layout, s, ops[..|ops| - 1]), ops[|ops| - 1])
  }

  /** In every run of operations the buffer size is that of the buffered pieces, and buffering means there are some. */
  lemma {:induction false} BufferingInvariant(layout: Layout, s: State, ops: seq<Operation>)
    requires layout.Valid() && Possible(layout, ops) && s.Valid(layout)
    ensures After(layout, s, ops).Valid(layout)
  {
    if ops != [] {
      BufferingInvariant(layout, s, ops[..|ops| - 1]);
    }
  }

  /** An operation after which no file buffers. */
  predicate Stops(op: Operation) {
    op == Check(0) || op.SetPriority? || op == Buffer([])
  }

  /** Nothing among the operations stops buffering. */
  predicate Kept(ops: seq<Operation>) {
    forall k :: 0 <= k < |ops| ==> !Stops(ops[k])
  }

  predicate Begins(op: Operation) {
    op.Buffer? && op.selected != []
  }

  /** Some operation makes the file buffer, and none since stops it. */
  predicate Begun(ops: seq<Operation>) {
    exists k :: 0 <= k < |ops| && BegunAt(ops, k)
  }

  predicate BegunAt(ops: seq<Operation>, k: nat)
    requires k < |ops|
  {
    Begins(ops[k]) && Kept(ops[k + 1..])
  }

  lemma KeptStep(ops: seq<Operation>, from: nat)
    requires from < |ops|
    ensures var last := |ops| - 1; Kept(ops[from..]) <==> Kept(ops[..last][from..]) && !Stops(ops[last])
  {
    var last := |ops| - 1;
    var all, before := ops[from..], ops[..last][from..];
    assert all == before + [ops[last]];
    hide Stops;
    if Kept(all) {
      forall k | 0 <= k < |before|
        ensures !Stops(before[k])
      {
        assert all[k] == before[k];
      }
      assert all[|before|] == ops[last];
    }
  }

  lemma BegunStep(ops: seq<Operation>)
    requires ops != []
    ensures var last := |ops| - 1; Begun(ops) <==> Begins(ops[last]) || (Begun(ops[..last]) && !Stops(ops[last]))
  {
    var last := |ops| - 1;
    var before := ops[..last];
    forall k: nat | k < last
      ensures BegunAt(ops, k) <==> BegunAt(before, k) && !Stops(ops[last])
    {
      KeptStep(ops, k + 1);
    }
    assert BegunAt(ops, last) <==> Begins(ops[last]);
    hide BegunAt, Begins, Stops;
    if k :| 0 <= k < last && BegunAt(before, k) {
      assert Stops(ops[last]) || BegunAt(ops, k);
    }
  }

  /**
   * A file that buffers goes on buffering until an operation that stops it: a check that finds
   * nothing missing, a new priority, or a buffering that selects nothing. It starts again only
   * by a buffering that selects something.
   */
  lemma {:induction false} BufferingLasts(layout: Layout, s: State, ops: seq<Operation>)
    requires layout.Valid() && Possible(layout, ops) && s.Valid(layout)
    ensures After(layout, s, ops).buffering <==> (s.buffering && Kept(ops)) || Begun(ops)
  {
    if ops != [] {
      var last := |ops| - 1;
      BufferingLasts(layout, s, ops[..last]);
      KeptStep(ops, 0);
      assert ops[0..] == ops && ops[..last][0..] == ops[..last];
      BegunStep(ops);
      hide Kept, Begun;
    }
  }

  /**
   * What a file remembers comes from the last operation that set it: the priority from the last setting of one,
   * the buffer from the last buffering, or none since a later setting of the priority. Checks touch neither.
   */
  lemma {:induction false} MemoryOverRuns(layout: Layout, s: State, ops: seq<Operation>, k: nat)
    requires layout.Valid() && Possible(layout, ops) && k < |ops| && !ops[k].Check?
    ensures (forall i :: k < i < |ops| ==> ops[i].Check?) ==>
              After(layout, s, ops).pieces == if ops[k].Buffer? then ops[k].selected else []
    ensures ops[k].SetPriority? && (forall i :: k < i < |ops| ==> !ops[i].SetPriority?) ==>
              After(layout, s, ops).priority == ops[k].priority
  {
    if k < |ops| - 1 {
      MemoryOverRuns(layout, s, ops[..|ops| - 1], k);
    }
  }

  /** What may be asked of a file at any time. */
  datatype Request = AskBuffer(start: int, end: int) | AskPriority(priority: int)

  class File {
    const torrent: Torrent
    const mOffset: int
    const mSize: int
    const mPieceLength: int
    var mPriority: int
    var mBuffering: bool
    var mBufferPieces: seq<int>
    var mBufferSize: int
    // The priority of this file as the handle has it.
    var handlePriority: int

    ghost function Memory(): State
      reads this
    {
      State(mPriority, mBuffering, mBufferPieces, mBufferSize)
    }

    ghost predicate Valid()
      reads this, torrent
    {
      torrent.Valid() && Consistent()
    }

    ghost predicate Consistent()
      reads this
    {
      Placed() && Memory().Valid(torrent.layout)
    }

    ghost predicate Placed() {
      && torrent.layout.Valid() && mPieceLength == torrent.layout.pieceLength
      && Inside(torrent.layout, mOffset, mSize)
    }

    /** What a request to this file does to what it remembers. */
    ghost function Asked(r: Request): (op: Operation)
      requires Placed()
      ensures !op.Check? && (op.Buffer? ==> AllPieces(torrent.layout, op.selected))
    {
      match r
      case AskBuffer(start, end) =>
        SelectedArePieces(torrent.layout, mOffset, mSize, start, end);
        Operation.Buffer(Selected(mOffset, mSize, mPieceLength, start, end))
      case AskPriority(priority) => Operation.SetPriority(priority)
    }

    constructor (torrent: Torrent, offset: int, size: int, pieceLength: int, priority: int)
      requires torrent.Valid() && pieceLength == torrent.layout.pieceLength && Inside(torrent.layout, offset, size)
      ensures Valid() && Memory() == State(priority, false, [], 0) && this.torrent == torrent
      ensures mOffset == offset && mSize == size && handlePriority == priority
    {
      this.torrent, mOffset, mSize, mPieceLength := torrent, offset, size, pieceLength;
      mPriority, mBuffering, mBufferPieces, mBufferSize, handlePriority := priority, false, [], 0, priority;
      new;
      if mPriority == 0 {
        SetPriority(0);
      }
    }

    method SetPriority(priority: int)
      requires Valid()
      modifies this
      ensures Valid() && handlePriority == priority
      ensures Memory() == Next(torrent.layout, old(Memory()), Operation.SetPriority(priority))
    {
      mPriority := priority;
      mBuffering := false;
      mBufferSize := 0;
      mBufferPieces := [];
      handlePriority := priority;
    }

    /** One round of the loop below. */
    method AddBufferPiece(piece: int)
      requires torrent.layout.Valid() && torrent.PrioritiesValid()
      requires torrent.layout.IsPiece(piece) && AllPieces(torrent.layout, mBufferPieces)
      requires mBufferSize == SizeOf(torrent.layout, mBufferPieces)
      modifies `mBufferPieces, `mBufferSize, torrent`priorities, torrent`deadlines
      ensures torrent.PrioritiesValid() && AllPieces(torrent.layout, mBufferPieces)
      ensures mBufferPieces == old(mBufferPieces) + [piece]
      ensures mBufferSize == SizeOf(torrent.layout, mBufferPieces)
      ensures torrent.priorities == old(torrent.priorities)[piece := TOP_PRIORITY]
      ensures torrent.deadlines == old(torrent.deadlines)[piece := 0]
    {
      MissingAppend(torrent.layout, mBufferPieces, piece, {});
      torrent.priorities := torrent.priorities[piece := TOP_PRIORITY];
      torrent.deadlines := torrent.deadlines[piece := 0];
      mBufferSize := mBufferSize + torrent.layout.PieceSize(piece);
      mBufferPieces := mBufferPieces + [piece];
    }

    /** Adds the pieces of a section to the buffer, at top priority and with no time to lose. */
    method AddBufferPieces(offset: int, length: int)
      requires torrent.layout.Valid() && torrent.PrioritiesValid() && mPieceLength == torrent.layout.pieceLength
      requires AllPieces(torrent.layout, mBufferPieces) && mBufferSize == SizeOf(torrent.layout, mBufferPieces)
      requires AllPieces(torrent.layout, Section(mOffset + offset, length, mPieceLength))
      modifies `mBufferPieces, `mBufferSize, torrent`priorities, torrent`deadlines
      ensures torrent.PrioritiesValid()
      ensures AllPieces(torrent.layout, mBufferPieces) && mBufferSize == SizeOf(torrent.layout, mBufferPieces)
      ensures var section := Section(mOffset + offset, length, mPieceLength);
              && mBufferPieces == old(mBufferPieces) + section
              && torrent.priorities == Urgent(old(torrent.priorities), section, TOP_PRIORITY)
              && torrent.deadlines == Urgent(old(torrent.deadlines), section, 0)
    {
      hide PieceAt, torrent.PrioritiesValid, AllPieces, SizeOf, Urgent;
      var first := PieceAt(mOffset + offset, mPieceLength);
      var last := PieceAt(mOffset + offset + length - 1, mPieceLength);
      ghost var section := Section(mOffset + offset, length, mPieceLength);
      ghost var pieces, priorities, deadlines := mBufferPieces, torrent.priorities, torrent.deadlines;
      UrgentNone(priorities, TOP_PRIORITY);
      UrgentNone(deadlines, 0);
      var piece := first;
      ghost var n := 0;
      while piece <= last
        invariant piece == first + n && 0 <= n <= |section| && (piece > last ==> n == |section|)
        invariant torrent.PrioritiesValid()
        invariant AllPieces(torrent.layout, mBufferPieces) && mBufferSize == SizeOf(torrent.layout, mBufferPieces)
        invariant mBufferPieces == pieces + section[..n]
        invariant torrent.priorities == Urgent(priorities, section[..n], TOP_PRIORITY)
        invariant torrent.deadlines == Urgent(deadlines, section[..n], 0)
        decreases last - piece
      {
        assert section[..n + 1] == section[..n] + [piece];
        UrgentStep(priorities, section[..n], piece, TOP_PRIORITY);
        UrgentStep(deadlines, section[..n], piece, 0);
        ListedPiece(torrent.layout, section, n);
        AddBufferPiece(piece);
        piece, n := piece + 1, n + 1;
      }
      assert section[..n] == section;
    }

    method Buffer(startBufferSize: int, endBufferSize: int)
      requires Valid()
      modifies `mBufferPieces, `mBufferSize, `mBuffering, torrent`priorities, torrent`deadlines
      ensures Valid()
      ensures var selected := Selected(mOffset, mSize, mPieceLength, startBufferSize, endBufferSize);
              && AllPieces(torrent.layout, selected)
              && Memory() == Next(torrent.layout, old(Memory()), Operation.Buffer(selected))
              && torrent.priorities == Urgent(old(torrent.priorities), selected, TOP_PRIORITY)
              && torrent.deadlines == Urgent(old(torrent.deadlines), selected, 0)
    {
      hide PieceAt, Section, Urgent;
      hide torrent.CacheValid, torrent.QueueAndOwnershipValid, torrent.PrioritiesValid, torrent.ScheduleValid;
      var start, end := Max(startBufferSize, 0), Max(endBufferSize, 0);
      ghost var selected := Selected(mOffset, mSize, mPieceLength, startBufferSize, endBufferSize);
      ghost var priorities, deadlines := torrent.priorities, torrent.deadlines;
      SelectedArePieces(torrent.layout, mOffset, mSize, startBufferSize, endBufferSize);
      mBufferSize := 0;
      mBufferPieces := [];
      if mSize > start + end {
        ghost var s1, s2 := Section(mOffset, start, mPieceLength), Section(mOffset + mSize - end, end, mPieceLength);
        assert mOffset + (mSize - end) == mOffset + mSize - end;
        UrgentBoth(priorities, s1, s2, TOP_PRIORITY);
        UrgentBoth(deadlines, s1, s2, 0);
        AddBufferPieces(0, start);
        AddBufferPieces(mSize - end, end);
      } else {
        AddBufferPieces(0, mSize);
      }
      assert mBufferPieces == selected && torrent.Valid();
      hide Selected, AllPieces, SizeOf;
      mBuffering := mBufferSize > 0;
    }

    method Serve(r: Request)
      requires Valid()
      modifies this, torrent`priorities, torrent`deadlines
      ensures Valid() && Memory() == Next(torrent.layout, old(Memory()), Asked(r))
      ensures torrent.priorities.Keys == old(torrent.priorities).Keys
    {
      match r {
        case AskBuffer(start, end) => Buffer(start, end);
        case AskPriority(priority) => SetPriority(priority);
      }
    }

    /** Missing and buffered bytes, with ownership and download queue read at different moments. */
    method GetBufferBytesMissing() returns (missing: int)
      requires Valid()
      modifies torrent
      ensures Valid() && torrent.Advanced() && Memory() == old(Memory())
      ensures Followed(torrent.layout, old(torrent.Said()), old(torrent.schedule), torrent.Said(), torrent.schedule)
      ensures 0 <= missing <= mBufferSize
      ensures torrent.owned == old(torrent.owned) ==>
                && missing == StillMissing(torrent.layout, mBufferPieces, torrent.owned, torrent.queue)
                && (missing == 0 <==> Settled(torrent.layout, mBufferPieces, torrent.owned, torrent.queue))
      ensures missing == 0 ==> Complete(torrent.layout, mBufferPieces, torrent.owned, torrent.queue)
      ensures AllOwned(mBufferPieces, old(torrent.owned)) ==> missing == 0
    {
      missing := torrent.GetBytesMissing(mBufferPieces);
      MissingAntitone(torrent.layout, mBufferPieces, {}, old(torrent.owned));
      if forall p :: p in mBufferPieces ==> p in old(torrent.owned) {
        NothingMissingOwned(torrent.layout, mBufferPieces, old(torrent.owned));
      }
      NothingMissingIff(torrent.layout, mBufferPieces, torrent.owned, torrent.queue);
    }

    /** The progress shown: a percentage, 100 when the file does not buffer. */
    method GetBufferingProgress() returns (progress: real)
      requires Valid()
      modifies torrent
      ensures Valid() && torrent.Advanced() && Memory() == old(Memory())
      ensures 0.0 <= progress <= 100.0
      ensures !mBuffering ==> progress == 100.0
      ensures mBuffering && torrent.owned == old(torrent.owned) ==>
                mBufferSize > 0
                && var missing := StillMissing(torrent.layout, mBufferPieces, torrent.owned, torrent.queue);
                   progress == 100.0 * (mBufferSize - missing) as real / mBufferSize as real
      ensures progress == 100.0 && mBuffering ==>
                Complete(torrent.layout, mBufferPieces, torrent.owned, torrent.queue)
    {
      if mBufferSize == 0 || !mBuffering {
        return 100.0;
      }
      var missing := GetBufferBytesMissing();
      progress := 100.0 * (mBufferSize - missing) as real / mBufferSize as real;
      PercentageInRange(mBufferSize - missing, mBufferSize);
    }

    /** Stops buffering when nothing is missing; tells whether the file still buffers. */
    method VerifyBufferingState() returns (buffering: bool, ghost missing: int)
      requires Valid()
      modifies `mBuffering, torrent
      ensures Valid() && torrent.Advanced()
      ensures Followed(torrent.layout, old(torrent.Said()), old(torrent.schedule), torrent.Said(), torrent.schedule)
      ensures buffering == mBuffering
      ensures Memory() == Next(torrent.layout, old(Memory()), Check(missing))
      ensures old(mBuffering) ==> Right(torrent.layout, mBufferPieces, missing, old(torrent.Said()), torrent.Said())
    {
      hide Missing, Received, FullyReceived, NoCleanups, NoPauses, Untouched;
      hide torrent.CacheValid, torrent.QueueAndOwnershipValid, torrent.PrioritiesValid, torrent.ScheduleValid;
      buffering, missing := false, 0;
      if mBuffering {
        var bytesMissing := GetBufferBytesMissing();
        missing := bytesMissing;
        if bytesMissing == 0 {
          mBuffering := false;
        } else {
          buffering := true;
        }
      } else {
        torrent.NothingDone();
        FollowedFirst(torrent.layout, torrent.Said(), torrent.schedule);
      }
    }
  }

  /**
   * The bytes found missing are right for a check that began with what the handle said `first` and
   * ended with what it said `last`: exact if ownership did not change meanwhile, none if all was
   * owned, and none only if all is owned or received. A piece buffered twice must be owned.
   */
  ghost predicate Right(layout: Layout, pieces: seq<int>, missing: int, first: Handle, last: Handle)
    requires layout.Valid() && AllPieces(layout, pieces)
  {
    && 0 <= missing <= SizeOf(layout, pieces)
    && (last.owned == first.owned ==>
          && missing == StillMissing(layout, pieces, last.owned, last.queue)
          && (missing == 0 <==> Settled(layout, pieces, last.owned, last.queue)))
    && (AllOwned(pieces, first.owned) ==> missing == 0)
    && (missing == 0 ==> Complete(layout, pieces, last.owned, last.queue))
  }

  /** What another thread asks of a torrent's file; a file that does not exist is not asked anything. */
  datatype FileStep = FileStep(file: nat, request: Request)

  /** What file `i` remembers after steps of other threads. */
  ghost function Served(f: File, i: nat, s: State, steps: seq<FileStep>): State
    requires f.Placed()
  {
    if steps == [] then s
    else
      var last, before := steps[|steps| - 1], Served(f, i, s, steps[..|steps| - 1]);
      if last.file == i then Next(f.torrent.layout, before, f.Asked(last.request)) else before
  }

  /** The same after batches of them. */
  ghost function ServedAll(f: File, i: nat, s: State, batches: seq<seq<FileStep>>): State
    requires f.Placed()
  {
    if batches == [] then s
    else Served(f, i, ServedAll(f, i, s, batches[..|batches| - 1]), batches[|batches| - 1])
  }

  /** What a visit found missing, and how many batches other threads had taken when it began and ended. */
  datatype Visit = Visit(began: nat, missing: int, ended: nat)

  ghost predicate AllPlaced(files: seq<File>, layout: Layout) {
    forall i :: 0 <= i < |files| ==> files[i].Placed() && files[i].torrent.layout == layout
  }

  /** A torrent as a check of its files finds it: its handle, and what other threads will do to it. */
  datatype Outset = Outset(layout: Layout, handle: Handle, schedule: seq<seq<Event>>) {
    /** What the handle says once other threads have taken some batches. */
    ghost function Said(taken: nat): Handle
      requires layout.Valid() && taken <= |schedule|
    {
      AfterBatches(layout, handle, schedule[..taken])
    }

    /** What a visit did to a file: the flag of one that buffered falls iff nothing was missing at that moment. */
    ghost predicate Visited(was: State, now: State, v: Visit)
      requires layout.Valid()
    {
      && was.Valid(layout) && now == Next(layout, was, Check(v.missing))
      && v.began <= v.ended <= |schedule|
      && (was.buffering ==> Right(layout, was.pieces, v.missing, Said(v.began), Said(v.ended)))
    }
  }

  /**
   * A check of a torrent's files in progress: how it found the torrent and what the files remembered, what
   * other threads ask of files around the visits (batch `i` comes before the visit of file `i`), what each
   * visit so far found and left, and how many batches are done.
   */
  datatype Course = Course(start: Outset, files: seq<File>, others: seq<seq<FileStep>>, was: seq<State>,
                           left: seq<State>, visits: seq<Visit>, done: nat) {
    ghost predicate Valid() {
      && start.layout.Valid() && AllPlaced(files, start.layout) && |was| == |files|
      && |visits| == |left| <= |files| && |left| <= done <= |others|
    }

    /** Every file has been visited, and all that others ask is done. */
    ghost predicate Whole() {
      Valid() && |left| == |files| && done == |others|
    }

    /** What file `i` remembered when it was visited. */
    ghost function Found(i: nat): State
      requires Valid() && i < |left|
    {
      ServedAll(files[i], i, was[i], others[..i + 1])
    }

    /** The files now, each after its visit and what has been asked of it since, or before its visit. */
    ghost predicate Fits(now: seq<State>, taken: nat)
      requires Valid()
    {
      && |now| == |files|
      && (forall i :: 0 <= i < |left| ==> i < done && Told(i, others[i + 1..done], now[i]))
      && (forall i :: |left| <= i < |files| ==> now[i] == ServedAll(files[i], i, was[i], others[..done]))
      && (forall i, j :: 0 <= i < j < |left| ==> visits[i].ended <= visits[j].began)
      && (forall i :: 0 <= i < |left| ==> visits[i].ended <= taken)
    }

    ghost predicate Told(i: nat, since: seq<seq<FileStep>>, now: State)
      requires Valid() && i < |left|
    {
      start.Visited(Found(i), left[i], visits[i]) && now == ServedAll(files[i], i, left[i], since)
    }
  }

  predicate SomeBuffers(files: seq<State>) {
    exists i :: 0 <= i < |files| && files[i].buffering
  }

  lemma OneMore<T>(s: seq<T>, from: nat, to: nat)
    requires from <= to < |s|
    ensures s[from..to + 1] == s[from..to] + [s[to]]
    ensures var longer := s[from..to + 1]; longer[..|longer| - 1] == s[from..to] && longer[|longer| - 1] == s[to]
  {
  }

  lemma ServedAllStep(f: File, i: nat, s: State, batches: seq<seq<FileStep>>, from: nat, to: nat)
    requires f.Placed() && from <= to < |batches|
    ensures ServedAll(f, i, s, batches[from..to + 1])
         == Served(f, i, ServedAll(f, i, s, batches[from..to]), batches[to])
  {
    OneMore(batches, from, to);
    hide Served;
  }

  /** One more batch of other threads' requests. */
  lemma BatchStep(c: Course, now: seq<State>, next: seq<State>, taken: nat)
    requires c.Valid() && c.Fits(now, taken) && c.done < |c.others| && |next| == |now|
    requires forall i :: 0 <= i < |next| ==> next[i] == Served(c.files[i], i, now[i], c.others[c.done])
    ensures var d := c.(done := c.done + 1); d.Valid() && d.Fits(next, taken)
  {
    hide Outset.Visited, Served, ServedAll;
    var d, others, done := c.(done := c.done + 1), c.others, c.done;
    forall i | 0 <= i < |c.left|
      ensures d.Told(i, others[i + 1..done + 1], next[i])
    {
      assert c.Told(i, others[i + 1..done], now[i]);
      ServedAllStep(c.files[i], i, c.left[i], others, i + 1, done);
    }
    forall i | |c.left| <= i < |c.files|
      ensures next[i] == ServedAll(c.files[i], i, c.was[i], others[..done + 1])
    {
      assert others[0..done] == others[..done] && others[0..done + 1] == others[..done + 1];
      ServedAllStep(c.files[i], i, c.was[i], others, 0, done);
    }
  }

  /** One more file visited. */
  lemma VisitStep(c: Course, now: seq<State>, taken: nat, file: State, v: Visit)
    requires c.Valid() && c.Fits(now, taken) && c.done == |c.left| + 1 <= |c.files|
    requires v.began == taken <= v.ended && c.start.Visited(now[|c.left|], file, v)
    ensures var d := c.(left := c.left + [file], visits := c.visits + [v]);
            d.Valid() && d.Fits(now[|c.left| := file], v.ended)
  {
    hide Outset.Visited, Served;
    var n, d := |c.left|, c.(left := c.left + [file], visits := c.visits + [v]);
    forall i | 0 <= i < n
      ensures d.Told(i, c.others[i + 1..c.done], now[i])
    {
      assert c.Told(i, c.others[i + 1..c.done], now[i]);
    }
    assert c.others[n + 1..c.done] == [];
  }

  lemma SomeBuffersStep(left: seq<State>, file: State)
    ensures SomeBuffers(left + [file]) <==> SomeBuffers(left) || file.buffering
  {
    if SomeBuffers(left) {
      var i :| 0 <= i < |left| && left[i].buffering;
      assert (left + [file])[i].buffering;
    }
    assert (left + [file])[|left|] == file;
  }

  /** The files of a torrent. */
  ghost predicate FilesOf(torrent: Torrent, mFiles: seq<File>)
    reads mFiles
    requires torrent.layout.Valid()
  {
    && (forall i :: 0 <= i < |mFiles| ==> mFiles[i].torrent == torrent && mFiles[i].Consistent())
    && (forall i, j :: 0 <= i < j < |mFiles| ==> mFiles[i] != mFiles[j])
  }

  ghost function Memories(mFiles: seq<File>): (memories: seq<State>)
    reads mFiles
    ensures |memories| == |mFiles|
    ensures forall i :: 0 <= i < |mFiles| ==> memories[i] == mFiles[i].Memory()
  {
    if mFiles == [] then [] else Memories(mFiles[..|mFiles| - 1]) + [mFiles[|mFiles| - 1].Memory()]
  }

  ghost function OutsetOf(torrent: Torrent): Outset
    reads torrent
  {
    Outset(torrent.layout, torrent.Said(), torrent.schedule)
  }

  /** The check of one file changes that file only. */
  method CheckFile(torrent: Torrent, mFiles: seq<File>, n: nat, file: File)
    returns (buffering: bool, ghost missing: int)
    requires torrent.Valid() && FilesOf(torrent, mFiles) && n < |mFiles| && file == mFiles[n]
    modifies file`mBuffering, torrent
    ensures torrent.Advanced() && FilesOf(torrent, mFiles) && buffering == file.mBuffering
    ensures Followed(torrent.layout, old(torrent.Said()), old(torrent.schedule), torrent.Said(), torrent.schedule)
    ensures Memories(mFiles) == old(Memories(mFiles))[n := file.Memory()]
    ensures old(file.Memory()).Valid(torrent.layout)
    ensures file.Memory() == Next(torrent.layout, old(file.Memory()), Check(missing))
    ensures old(file.mBuffering) ==>
              Right(torrent.layout, file.mBufferPieces, missing, old(torrent.Said()), torrent.Said())
  {
    hide NoCleanups, NoPauses, Untouched, SizeOf, AllPieces, Right, Followed;
    hide torrent.CacheValid, torrent.QueueAndOwnershipValid, torrent.PrioritiesValid, torrent.ScheduleValid;
    var still, bytesMissing := file.VerifyBufferingState();
    buffering, missing := still, bytesMissing;
  }

  /** A check in terms of the batches other threads had taken when it began and ended. */
  lemma CheckIsVisit(o: Outset, was: State, now: State, missing: int, first: Handle, whole: seq<seq<Event>>,
                     last: Handle, left: seq<seq<Event>>)
    requires o.layout.Valid() && was.Valid(o.layout) && now == Next(o.layout, was, Check(missing))
    requires Followed(o.layout, o.handle, o.schedule, first, whole) && Followed(o.layout, first, whole, last, left)
    requires was.buffering ==> Right(o.layout, was.pieces, missing, first, last)
    ensures Followed(o.layout, o.handle, o.schedule, last, left) && |left| <= |whole| <= |o.schedule|
    ensures o.Visited(was, now, Visit(|o.schedule| - |whole|, missing, |o.schedule| - |left|))
  {
    hide Right;
    FollowedAgain(o.layout, o.handle, o.schedule, first, whole, last, left);
  }

  /** Other threads' requests to a torrent's files. */
  method OtherSteps(torrent: Torrent, mFiles: seq<File>, steps: seq<FileStep>)
    requires torrent.Valid() && FilesOf(torrent, mFiles)
    modifies (set f | f in mFiles), torrent`priorities, torrent`deadlines
    ensures torrent.Advanced() && FilesOf(torrent, mFiles)
    ensures forall i :: 0 <= i < |mFiles| ==>
              Memories(mFiles)[i] == Served(mFiles[i], i, old(Memories(mFiles))[i], steps)
  {
    hide torrent.CacheValid, torrent.QueueAndOwnershipValid, torrent.PrioritiesValid, torrent.ScheduleValid;
    hide NoCleanups, NoPauses, Untouched, Memories, SizeOf, AllPieces, Served, Next;
    ghost var was := Memories(mFiles);
    torrent.NothingDone();
    NothingServed(mFiles, was, steps);
    for k := 0 to |steps|
      invariant torrent.Advanced() && FilesOf(torrent, mFiles)
      invariant forall i :: 0 <= i < |mFiles| ==>
                  Memories(mFiles)[i] == Served(mFiles[i], i, was[i], steps[..k])
    {
      ghost var before := Memories(mFiles);
      if steps[k].file < |mFiles| {
        ServeFile(torrent, mFiles, steps[k].file, mFiles[steps[k].file], steps[k].request);
      }
      assert steps[..k + 1] == steps[..k] + [steps[k]];
      ServedStepAll(mFiles, was, before, Memories(mFiles), steps[..k], steps[k]);
    }
    assert steps[..|steps|] == steps;
  }

  lemma NothingServed(files: seq<File>, was: seq<State>, steps: seq<FileStep>)
    requires |was| == |files| && forall i :: 0 <= i < |files| ==> files[i].Placed()
    ensures forall i :: 0 <= i < |files| ==> was[i] == Served(files[i], i, was[i], steps[..0])
  {
  }

  lemma ServedStepAll(files: seq<File>, was: seq<State>, before: seq<State>, now: seq<State>, steps: seq<FileStep>,
                      step: FileStep)
    requires |was| == |before| == |now| == |files| && forall i :: 0 <= i < |files| ==> files[i].Placed()
    requires forall i :: 0 <= i < |files| ==> before[i] == Served(files[i], i, was[i], steps)
    requires forall i :: 0 <= i < |files| ==>
               now[i] == if step.file == i then Next(files[i].torrent.layout, before[i], files[i].Asked(step.request))
                         else before[i]
    ensures forall i :: 0 <= i < |files| ==> now[i] == Served(files[i], i, was[i], steps + [step])
  {
    hide Served, Next;
    forall i | 0 <= i < |files|
      ensures now[i] == Served(files[i], i, was[i], steps + [step])
    {
      assert before[i] == Served(files[i], i, was[i], steps);
      ServedStep(files[i], i, was[i], steps, step);
    }
  }

  lemma ServedStep(f: File, i: nat, s: State, steps: seq<FileStep>, step: FileStep)
    requires f.Placed()
    ensures Served(f, i, s, steps + [step])
         == if step.file == i then Next(f.torrent.layout, Served(f, i, s, steps), f.Asked(step.request))
            else Served(f, i, s, steps)
  {
    assert (steps + [step])[..|steps|] == steps;
  }

  /** A request to one file changes that file only. */
  method ServeFile(torrent: Torrent, mFiles: seq<File>, n: nat, file: File, r: Request)
    requires torrent.Valid() && FilesOf(torrent, mFiles) && n < |mFiles| && file == mFiles[n]
    modifies file, torrent`priorities, torrent`deadlines
    ensures torrent.Valid() && FilesOf(torrent, mFiles)
    ensures torrent.priorities.Keys == old(torrent.priorities).Keys
    ensures Memories(mFiles)
         == old(Memories(mFiles))[n := Next(torrent.layout, old(Memories(mFiles))[n], file.Asked(r))]
  {
    hide torrent.CacheValid, torrent.QueueAndOwnershipValid, torrent.PrioritiesValid, torrent.ScheduleValid;
    hide SizeOf, AllPieces, Next, file.Asked;
    file.Serve(r);
  }

  /** A check in progress, and the torrent and files as they are. */
  ghost predicate Checking(torrent: Torrent, c: Course)
    reads torrent, c.files
  {
    && c.Valid() && c.start.layout == torrent.layout && FilesOf(torrent, c.files)
    && Followed(c.start.layout, c.start.handle, c.start.schedule, torrent.Said(), torrent.schedule)
    && c.Fits(Memories(c.files), |c.start.schedule| - |torrent.schedule|)
  }

  /** Other threads' next batch of requests. */
  method OthersRound(torrent: Torrent, mFiles: seq<File>, steps: seq<FileStep>, ghost c: Course)
    requires torrent.Valid() && Checking(torrent, c)
    requires mFiles == c.files && c.done < |c.others| && steps == c.others[c.done]
    modifies (set f | f in mFiles), torrent`priorities, torrent`deadlines
    ensures torrent.Advanced() && Checking(torrent, c.(done := c.done + 1))
  {
    hide torrent.CacheValid, torrent.QueueAndOwnershipValid, torrent.PrioritiesValid, torrent.ScheduleValid;
    hide NoCleanups, NoPauses, Untouched, Memories, Followed, Served, ServedAll, FilesOf, AllPlaced, c.Fits;
    ghost var now := Memories(mFiles);
    FollowedMeans(c.start.layout, c.start.handle, c.start.schedule, torrent.Said(), torrent.schedule);
    OtherSteps(torrent, mFiles, steps);
    BatchStep(c, now, Memories(mFiles), |c.start.schedule| - |torrent.schedule|);
  }

  /** The next visit. */
  method VisitRound(torrent: Torrent, mFiles: seq<File>, n: nat, ghost c: Course)
    returns (buffering: bool, ghost v: Visit, ghost file: State)
    requires torrent.Valid() && Checking(torrent, c)
    requires mFiles == c.files && n == |c.left| < |mFiles| && c.done == n + 1
    modifies (set f | f in mFiles)`mBuffering, torrent
    ensures torrent.Advanced() && buffering == file.buffering
    ensures Checking(torrent, c.(left := c.left + [file], visits := c.visits + [v]))
  {
    hide torrent.CacheValid, torrent.QueueAndOwnershipValid, torrent.PrioritiesValid, torrent.ScheduleValid;
    hide NoCleanups, NoPauses, Untouched, Memories, Followed, Served, ServedAll, FilesOf, AllPlaced, c.Fits;
    ghost var now, taken := Memories(mFiles), |c.start.schedule| - |torrent.schedule|;
    ghost var first, whole := torrent.Said(), torrent.schedule;
    FollowedMeans(c.start.layout, c.start.handle, c.start.schedule, first, whole);
    FitsLength(c, now, taken);
    var still, missing := CheckFile(torrent, mFiles, n, mFiles[n]);
    buffering, file := still, mFiles[n].Memory();
    CheckIsVisit(c.start, now[n], file, missing, first, whole, torrent.Said(), torrent.schedule);
    v := Visit(taken, missing, |c.start.schedule| - |torrent.schedule|);
    VisitStep(c, now, taken, file, v);
  }

  lemma FitsLength(c: Course, now: seq<State>, taken: nat)
    requires c.Valid() && c.Fits(now, taken)
    ensures |now| == |c.files|
  {
  }

  /**
   * The torrent's check visits every file, without early exit, and finds buffering iff some visit left its
   * file buffering. Other threads may buffer and prioritise files meanwhile: `others` are their requests,
   * batch by batch, around the visits.
   */
  method VerifyFiles(torrent: Torrent, mFiles: seq<File>, others: seq<seq<FileStep>>)
    returns (hasFilesBuffering: bool, ghost course: Course)
    requires torrent.Valid() && FilesOf(torrent, mFiles) && |others| == |mFiles| + 1
    modifies (set f | f in mFiles), torrent
    ensures torrent.Advanced() && FilesOf(torrent, mFiles)
    ensures course.start == old(OutsetOf(torrent)) && course.files == mFiles
    ensures course.others == others && course.was == old(Memories(mFiles)) && course.Whole()
    ensures |torrent.schedule| <= |old(torrent.schedule)|
    ensures course.Fits(Memories(mFiles), |old(torrent.schedule)| - |torrent.schedule|)
    ensures hasFilesBuffering == SomeBuffers(course.left)
  {
    hide torrent.CacheValid, torrent.QueueAndOwnershipValid, torrent.PrioritiesValid, torrent.ScheduleValid;
    hide NoCleanups, NoPauses, Untouched, SomeBuffers, Memories, Followed, FilesOf, AllPlaced, Checking, course.Fits;
    hasFilesBuffering := false;
    ghost var begun := Course(OutsetOf(torrent), mFiles, others, Memories(mFiles), [], [], 0);
    course := begun;
    torrent.NothingDone();
    CheckBegins(torrent, course);
    for n := 0 to |mFiles|
      invariant torrent.Advanced() && Checking(torrent, course)
      invariant course == begun.(left := course.left, visits := course.visits, done := n)
      invariant |course.left| == n && hasFilesBuffering == SomeBuffers(course.left)
    {
      OthersRound(torrent, mFiles, others[n], course);
      course := course.(done := n + 1);
      var buffering, v, file := VisitRound(torrent, mFiles, n, course);
      if buffering {
        hasFilesBuffering := true;
      }
      SomeBuffersStep(course.left, file);
      course := course.(left := course.left + [file], visits := course.visits + [v]);
    }
    OthersRound(torrent, mFiles, others[|mFiles|], course);
    course := course.(done := |others|);
    CheckEnds(torrent, course);
  }

  lemma CheckBegins(torrent: Torrent, c: Course)
    requires torrent.Valid() && FilesOf(torrent, c.files)
    requires c == Course(OutsetOf(torrent), c.files, c.others, Memories(c.files), [], [], 0)
    ensures Checking(torrent, c) && !SomeBuffers(c.left)
  {
    hide SizeOf, AllPieces;
    FollowedFirst(torrent.layout, torrent.Said(), torrent.schedule);
    assert c.others[..0] == [];
  }

  lemma CheckEnds(torrent: Torrent, c: Course)
    requires Checking(torrent, c) && |c.left| == |c.files| && c.done == |c.others|
    ensures c.Whole() && FilesOf(torrent, c.files) && |torrent.schedule| <= |c.start.schedule|
    ensures c.Fits(Memories(c.files), |c.start.schedule| - |torrent.schedule|)
  {
  }

  /**
   * What a whole check means for a file: its visit only ever stops buffering, and does so iff the file
   * buffered and nothing was missing; then each of its pieces was owned or received at that moment.
   */
  lemma VisitedMeans(c: Course, now: seq<State>, taken: nat, i: nat)
    requires c.Whole() && c.Fits(now, taken) && i < |c.files|
    ensures var found, o := c.Found(i), c.start;
            && c.visits[i].ended <= |o.schedule|
            && c.left[i] == found.(buffering := c.left[i].buffering) && c.left[i].Valid(o.layout)
            && (c.left[i].buffering <==> found.buffering && c.visits[i].missing != 0)
            && (found.buffering && !c.left[i].buffering ==>
                  Complete(o.layout, found.pieces, o.Said(c.visits[i].ended).owned, o.Said(c.visits[i].ended).queue))
            && (found.buffering && c.left[i].buffering ==> !AllOwned(found.pieces, o.handle.owned))
  {
    assert c.Told(i, c.others[i + 1..c.done], now[i]);
    OwnedGrows(c.start.layout, c.start.handle, c.start.schedule[..c.visits[i].began]);
    hide SizeOf, Complete, StillMissing, ServedAll;
  }

  // ------------------------------------------------------------------------------------------
  // The answer of a check, and the files when it ends.

  /** The operations among other threads' steps that are on file `i`. */
  ghost function OpsOn(f: File, i: nat, steps: seq<FileStep>): seq<Operation>
    requires f.Placed()
  {
    if steps == [] then []
    else
      var last := steps[|steps| - 1];
      OpsOn(f, i, steps[..|steps| - 1]) + if last.file == i then [f.Asked(last.request)] else []
  }

  ghost function OpsIn(f: File, i: nat, batches: seq<seq<FileStep>>): seq<Operation>
    requires f.Placed()
  {
    if batches == [] then []
    else OpsIn(f, i, batches[..|batches| - 1]) + OpsOn(f, i, batches[|batches| - 1])
  }

  lemma {:induction false} AfterAppend(layout: Layout, s: State, a: seq<Operation>, b: seq<Operation>)
    requires layout.Valid() && Possible(layout, a) && Possible(layout, b)
    ensures Possible(layout, a + b) && After(layout, s, a + b) == After(layout, After(layout, s, a), b)
  {
    if b == [] {
      assert a + b == a;
    } else {
      AfterAppend(layout, s, a, b[..|b| - 1]);
      assert (a + b)[..|a + b| - 1] == a + b[..|b| - 1];
    }
  }

  lemma {:induction false} ServedIsAfter(f: File, i: nat, s: State, steps: seq<FileStep>)
    requires f.Placed()
    ensures var layout, ops := f.torrent.layout, OpsOn(f, i, steps);
            Possible(layout, ops) && Served(f, i, s, steps) == After(layout, s, ops)
  {
    if steps != [] {
      var before, last := steps[..|steps| - 1], steps[|steps| - 1];
      ServedIsAfter(f, i, s, before);
      if last.file == i {
        hide f.Asked;
        AfterAppend(f.torrent.layout, s, OpsOn(f, i, before), [f.Asked(last.request)]);
        AfterOne(f.torrent.layout, After(f.torrent.layout, s, OpsOn(f, i, before)), f.Asked(last.request));
      } else {
        assert OpsOn(f, i, steps) == OpsOn(f, i, before);
      }
    }
  }

  lemma AfterOne(layout: Layout, s: State, op: Operation)
    requires layout.Valid() && Possible(layout, [op])
    ensures op.Buffer? ==> AllPieces(layout, op.selected)
    ensures After(layout, s, [op]) == Next(layout, s, op)
  {
    assert [op][0] == op;
    assert [op][..0] == [];
  }

  lemma {:induction false} ServedAllIsAfter(f: File, i: nat, s: State, batches: seq<seq<FileStep>>)
    requires f.Placed()
    ensures var layout, ops := f.torrent.layout, OpsIn(f, i, batches);
            Possible(layout, ops) && ServedAll(f, i, s, batches) == After(layout, s, ops)
  {
    if batches != [] {
      var before, last := batches[..|batches| - 1], batches[|batches| - 1];
      ServedAllIsAfter(f, i, s, before);
      ServedIsAfter(f, i, ServedAll(f, i, s, before), last);
      AfterAppend(f.torrent.layout, s, OpsIn(f, i, before), OpsOn(f, i, last));
    }
  }

  /** What has been asked of file `i` since its visit, when the check ends. */
  ghost function Since(c: Course, i: nat): seq<Operation>
    requires c.Whole() && i < |c.files|
  {
    OpsIn(c.files[i], i, c.others[i + 1..])
  }

  /** File `i` was left buffering by its visit and not stopped since, or was made to buffer since and not stopped. */
  ghost predicate StillBuffers(c: Course, i: nat)
    requires c.Whole() && i < |c.files|
  {
    (c.left[i].buffering && Kept(Since(c, i))) || Begun(Since(c, i))
  }

  /** Those are the files that buffer when the check ends. */
  lemma EndBuffersIff(c: Course, now: seq<State>, taken: nat, i: nat)
    requires c.Whole() && c.Fits(now, taken) && i < |c.files|
    ensures now[i].buffering <==> StillBuffers(c, i)
  {
    VisitedMeans(c, now, taken, i);
    var since := c.others[i + 1..];
    assert c.others[i + 1..c.done] == since;
    assert c.Told(i, since, now[i]);
    ServedAllIsAfter(c.files[i], i, c.left[i], since);
    BufferingLasts(c.start.layout, c.left[i], OpsIn(c.files[i], i, since));
    hide c.Fits, OpsIn, SizeOf;
  }

  ghost predicate SomeStillBuffers(c: Course)
    requires c.Whole()
  {
    exists i :: 0 <= i < |c.files| && StillBuffers(c, i)
  }

  /** No file has been made to buffer since its visit. */
  ghost predicate NoneBegun(c: Course)
    requires c.Whole()
  {
    forall i :: 0 <= i < |c.files| ==> !Begun(Since(c, i))
  }

  lemma EndAnswer(c: Course, now: seq<State>, taken: nat)
    requires c.Whole() && c.Fits(now, taken)
    ensures SomeBuffers(now) <==> SomeStillBuffers(c)
    ensures !SomeBuffers(c.left) ==> (SomeBuffers(now) <==> !NoneBegun(c))
  {
    FitsLength(c, now, taken);
    forall i | 0 <= i < |c.files|
      ensures now[i].buffering <==> StillBuffers(c, i)
    {
      EndBuffersIff(c, now, taken, i);
    }
    hide Since, Kept, Begun, c.Fits, AllPlaced;
    if i :| 0 <= i < |c.files| && StillBuffers(c, i) {
      assert now[i].buffering;
    }
    if i :| 0 <= i < |c.files| && Begun(Since(c, i)) {
      assert StillBuffers(c, i);
    }
  }

  /**
   * The answer of a check against the files when it ends. An answer that none buffers is right then iff no
   * file was made to buffer since its visit; an answer that one does, iff some file was left buffering and not
   * stopped since, or was made to buffer since.
   */
  lemma AnswerIsRightIff(c: Course, now: seq<State>, taken: nat)
    requires c.Whole() && c.Fits(now, taken)
    ensures SomeBuffers(now) == SomeBuffers(c.left) <==>
              if SomeBuffers(c.left) then SomeStillBuffers(c) else NoneBegun(c)
  {
    EndAnswer(c, now, taken);
  }

  predicate AllOwned(pieces: seq<int>, owned: set<int>) {
    forall p :: p in pieces ==> p in owned
  }

  /** A table in which every listed piece has the same value, and the others what they had. */
  function Urgent(table: map<int, int>, pieces: seq<int>, value: int): map<int, int> {
    map p | p in table.Keys + (set q | q in pieces) :: if p in pieces then value else table[p]
  }

  lemma UrgentNone(table: map<int, int>, value: int)
    ensures Urgent(table, [], value) == table
  {
  }

  lemma UrgentStep(table: map<int, int>, pieces: seq<int>, p: int, value: int)
    ensures Urgent(table, pieces + [p], value) == Urgent(table, pieces, value)[p := value]
  {
  }

  lemma UrgentBoth(table: map<int, int>, pieces: seq<int>, more: seq<int>, value: int)
    ensures Urgent(table, pieces + more, value) == Urgent(Urgent(table, pieces, value), more, value)
  {
  }

  lemma ListedPiece(layout: Layout, pieces: seq<int>, i: int)
    requires layout.Valid() && AllPieces(layout, pieces) && 0 <= i < |pieces|
    ensures layout.IsPiece(pieces[i])
  {
  }
}

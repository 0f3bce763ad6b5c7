/** A reader of one file of a torrent: positioned reads over pieces that arrive late. */
module Readers {
  import opened Common
  import opened Pieces
  import opened PieceCache
  import opened Torrents
  import opened Priorities

  datatype Whence = Beginning | Current | End | Unknown

  /** How many bytes a read at `pos` of a file of `size` bytes delivers. */
  function ReadCount(size: int, pos: int, count: int): int {
    Max(0, Min(count, size - pos))
  }

  /** The position a seek asks for; None when it lies outside the file. */
  function SeekTarget(size: int, pos: int, offset: int, whence: Whence): Option<int> {
    var target := match whence
      case Beginning => offset
      case Current => pos + offset
      case End => size + offset
      case Unknown => -1;
    if 0 <= target <= size then Some(target) else None
  }

  datatype StorageAnswer = Failed | Transferred(count: int)

  /** How an operation may give up; `until` is the earliest time at which it does for lack of time. */
  ghost predicate GaveUp<T>(torrent: Torrent, until: Option<int>, o: Outcome<T>)
    reads torrent
  {
    match o
    case Ok(_) => false
    case Blocked => torrent.schedule == []
    case Threw(error) =>
      match error
      case TorrentClosed => torrent.mClosed
      case TorrentPaused => torrent.mPaused && !torrent.mClosed
      case TimeoutReached => until.Some? && torrent.now >= until.value
      case TimedOutWaiting => until.Some? && torrent.now >= until.value
      case _ => false
  }

  /** Why a read of `n` bytes of the torrent from `base` on gave up waiting for ownership: a piece is not owned. */
  ghost predicate Unowned<T>(torrent: Torrent, base: int, n: int, until: Option<int>, o: Outcome<T>)
    reads torrent
    requires torrent.layout.Valid()
  {
    && 0 < n && !Covers(base, n, torrent.layout.pieceLength, torrent.owned)
    && GaveUp(torrent, until, o) && o != Threw(TimedOutWaiting)
  }

  /**
   * Why a read gave up waiting for ownership or for data: not all its pieces are owned and cached. It
   * timed out on the data exactly when they are owned.
   */
  ghost predicate Missed<T>(torrent: Torrent, base: int, n: int, until: Option<int>, o: Outcome<T>)
    reads torrent
    requires torrent.layout.Valid()
  {
    && 0 < n && !Covers(base, n, torrent.layout.pieceLength, torrent.Ready())
    && GaveUp(torrent, until, o)
    && (o.Threw? ==> (o.error == TimedOutWaiting <==> Covers(base, n, torrent.layout.pieceLength, torrent.owned)))
  }

  /** The earliest time at which a wait that starts at `now` gives up, if it ever does. */
  function Due(now: int, timeout: int): Option<int> {
    if timeout > 0 then Some(now + timeout) else None
  }

  /** An operation that gives up for lack of time does so only when there is a limit, and it has passed. */
  lemma GaveUpLate<T>(torrent: Torrent, since: int, timeout: int, o: Outcome<T>)
    requires GaveUp(torrent, Due(since, timeout), o) && o.Threw?
    ensures o.error in {TimeoutReached, TimedOutWaiting} <==> !(o.error in {TorrentClosed, TorrentPaused})
    ensures o.error in {TimeoutReached, TimedOutWaiting} ==> timeout > 0 && torrent.now >= since + timeout
  {
  }

  /** A later limit was kept only if an earlier one was, and a caller may pass a failure on. */
  lemma MissedMeans<S, T>(torrent: Torrent, base: int, n: int, until: Option<int>, earlier: Option<int>, o: Outcome<S>,
                          r: Outcome<T>)
    requires torrent.layout.Valid() && Missed(torrent, base, n, until, o) && !o.Ok? && r == o.Failure()
    requires until.Some? ==> earlier.Some? && earlier.value <= until.value
    ensures Missed(torrent, base, n, earlier, r) && GaveUp(torrent, earlier, r)
    ensures 0 < n && !Covers(base, n, torrent.layout.pieceLength, torrent.Ready())
  {
    hide Covers;
  }

  class Reader {
    const torrent: Torrent
    const mOffset: int
    const mSize: int
    const mPieceLength: int
    const mPPieces: int
    const mPieceWaitTimeout: int
    const mLastPiece: int
    var mPos: int

    predicate InTorrent() {
      0 <= mOffset && 0 <= mSize && mOffset + mSize <= |torrent.layout.data|
    }

    ghost predicate Valid()
      reads this, torrent
    {
      && torrent.Valid()
      && mPieceLength == torrent.layout.pieceLength
      && InTorrent()
      && mLastPiece == PieceFromOffset(mSize - 1)
      && 0 <= mPos <= mSize
    }

    /** The contents of the file. */
    ghost function Contents(): (contents: seq<byte>)
      requires InTorrent()
      ensures |contents| == mSize
    {
      torrent.layout.data[mOffset..mOffset + mSize]
    }

    constructor (torrent: Torrent, offset: int, size: int, pieceLength: int, ahead: int, timeout: int)
      requires torrent.Valid() && pieceLength == torrent.layout.pieceLength
      requires 0 <= offset && 0 <= size && offset + size <= |torrent.layout.data|
      ensures Valid() && mPos == 0 && this.torrent == torrent
      ensures mOffset == offset && mSize == size && mPPieces == ahead && mPieceWaitTimeout == timeout
    {
      this.torrent := torrent;
      mOffset, mSize, mPieceLength, mPPieces := offset, size, pieceLength, ahead;
      mPieceWaitTimeout := timeout;
      mLastPiece := PieceAt(offset + size - 1, pieceLength);
      mPos := 0;
    }

    function PieceFromOffset(x: int): int
      requires mPieceLength > 0
    {
      PieceAt(mOffset + x, mPieceLength)
    }

    function PieceOffsetFromOffset(x: int): int
      requires mPieceLength > 0
    {
      OffsetInPiece(mOffset + x, mPieceLength)
    }

    /** The pieces looked at before a read of `size` bytes. */
    function WindowSpan(size: int): Span
      reads this
      requires mPieceLength > 0
    {
      var first := PieceFromOffset(mPos);
      Span(first, PieceFromOffset(mPos + size - 1) - first, mPPieces, mLastPiece)
    }

    /** The pieces of `n` bytes of the file from `pos` on are among the given ones. */
    ghost predicate Within(pos: int, n: int, pieces: set<int>)
      requires mPieceLength > 0
    {
      Covers(mOffset + pos, n, mPieceLength, pieces)
    }

    /** The same, byte by byte. */
    lemma BytesCovered(pos: int, n: int)
      requires mPieceLength > 0
      ensures Within(pos, n, torrent.owned) <==>
                forall x :: pos <= x < pos + n ==> PieceFromOffset(x) in torrent.owned
    {
      hide PieceAt;
      if forall x :: pos <= x < pos + n ==> PieceFromOffset(x) in torrent.owned {
        forall x | mOffset + pos <= x < mOffset + pos + n
          ensures PieceAt(x, mPieceLength) in torrent.owned
        {
          assert PieceFromOffset(x - mOffset) in torrent.owned;
        }
      }
    }

    method NowaitReadAvailable(count: int) returns (available: bool)
      requires Valid()
      ensures available <==> forall x :: mPos <= x < mPos + count && x < mSize ==> PieceFromOffset(x) in torrent.owned
      ensures var n := Min(count, mSize - mPos);
              available <==> n <= 0 || AllIn(PieceFromOffset(mPos), PieceFromOffset(mPos + n - 1), torrent.owned)
    {
      var size := Min(count, mSize - mPos);
      if size <= 0 {
        return true;
      }
      hide PieceAt;
      CoversIffAllIn(torrent.layout, mOffset + mPos, size, torrent.owned);
      BytesCovered(mPos, size);
      var startPiece := PieceFromOffset(mPos);
      var endPiece := PieceFromOffset(mPos + size - 1);
      PieceAtMonotone(torrent.layout, mOffset + mPos, mOffset + mPos + size - 1);
      for p := startPiece to endPiece + 1
        invariant forall q :: startPiece <= q < p ==> q in torrent.owned
      {
        if p !in torrent.owned {
          return false;
        }
      }
      return true;
    }

    method SetPiecePriority(p: int, deadline: int, priority: int)
      requires torrent.Valid() && torrent.layout.IsPiece(p) && 0 <= priority <= TOP_PRIORITY
      modifies torrent`priorities, torrent`deadlines
      ensures torrent.Valid() && p in old(torrent.priorities)
      ensures torrent.priorities.Keys == old(torrent.priorities).Keys
      ensures torrent.priorities == if old(torrent.priorities)[p] < priority
                                    then old(torrent.priorities)[p := priority] else old(torrent.priorities)
      ensures torrent.deadlines == if old(torrent.priorities)[p] < priority
                                   then old(torrent.deadlines)[p := deadline] else old(torrent.deadlines)
    {
      if torrent.priorities[p] < priority {
        torrent.SetPriority(p, priority);
        torrent.deadlines := torrent.deadlines[p := deadline];
      }
    }

    /**
     * One round of the loop below: the next piece of the span, `i` pieces past its start. Other threads
     * go on before it is asked whether the piece is owned, and again before its priority is.
     */
    method LookAtPiece(p: int, i: int, s: Span, ghost priorities: map<int, int>, ghost deadlines: map<int, int>,
                       ghost had: set<int>, ghost start: seq<seq<Event>>)
      returns (ghost has: set<int>)
      requires torrent.Valid() && torrent.layout.IsPiece(p) && s.Has(p) && i == p - s.first && p in priorities
      requires had <= torrent.owned && Remains(start, torrent.schedule)
      requires Agree(torrent.priorities, s.RaisedBelow(priorities, had, p), start)
      requires Agree(torrent.deadlines, s.ScheduledBelow(deadlines, priorities, had, p), start)
      modifies torrent`mPieces, torrent`owned, torrent`queue, torrent`mPaused, torrent`mClosed, torrent`now,
               torrent`schedule, torrent`priorities, torrent`deadlines
      ensures torrent.Advanced() && had <= has <= torrent.owned && Remains(start, torrent.schedule)
      ensures Agree(torrent.priorities, s.RaisedBelow(priorities, has, p + 1), start)
      ensures Agree(torrent.deadlines, s.ScheduledBelow(deadlines, priorities, has, p + 1), start)
    {
      hide torrent.CacheValid, torrent.QueueAndOwnershipValid, torrent.ScheduleValid;
      hide Untouched, NoCleanups, NoPauses, Agree, s.RaisedBelow, s.ScheduledBelow, s.Raises;
      ghost var raised, due := s.RaisedBelow(priorities, had, p), s.ScheduledBelow(deadlines, priorities, had, p);
      torrent.YieldAgain(start, raised, due);
      if p in torrent.owned {
        has := had + {p};
        OwnedLater(s, deadlines, priorities, had, p);
        RaisedStep(s, priorities, has, p);
        ScheduledStep(s, deadlines, priorities, has, p);
        OwnedNotRaised(s, priorities, has, p);
      } else {
        has := had;
        torrent.YieldAgain(start, raised, due);
        RaisedStep(s, priorities, has, p);
        ScheduledStep(s, deadlines, priorities, has, p);
        SamePriority(torrent.priorities, torrent.deadlines, raised, due, start, p, s.Wanted(p), s.Deadline(p));
        MissingRaised(s, priorities, has, p);
        if i <= s.window {
          SetPiecePriority(p, 0, TOP_PRIORITY);
        } else {
          SetPiecePriority(p, (i - s.window) * 10, AHEAD_PRIORITY);
        }
      }
    }

    /**
     * The pass before a read and after a seek. `had` is what was owned when it was looked at; apart
     * from the pieces that other threads set the priority of, the pass leaves what it prescribes.
     */
    method SetPiecesPriorities(piece: int, pieceEndOffset: int) returns (ghost had: set<int>)
      requires Valid() && 0 <= piece
      modifies torrent`mPieces, torrent`owned, torrent`queue, torrent`mPaused, torrent`mClosed, torrent`now,
               torrent`schedule, torrent`priorities, torrent`deadlines
      ensures Valid() && torrent.Advanced() && old(torrent.owned) <= had <= torrent.owned
      ensures var s := Span(piece, pieceEndOffset, mPPieces, mLastPiece);
              && Agree(torrent.priorities, s.Raised(old(torrent.priorities), had), old(torrent.schedule))
              && Agree(torrent.deadlines, s.Scheduled(old(torrent.deadlines), old(torrent.priorities), had),
                       old(torrent.schedule))
    {
      hide PieceAt, Untouched, Remains, NoCleanups, NoPauses, Agree;
      hide torrent.CacheValid, torrent.QueueAndOwnershipValid, torrent.PrioritiesValid, torrent.ScheduleValid;
      var s := Span(piece, pieceEndOffset, mPPieces, mLastPiece);
      hide s.RaisedBelow, s.ScheduledBelow, s.Raised, s.Scheduled;
      ghost var priorities, deadlines, start := torrent.priorities, torrent.deadlines, torrent.schedule;
      had := torrent.owned;
      PiecesToLastExist();
      SameTables(start, priorities, deadlines);
      PassStarts(s, deadlines, priorities, had);
      var endPiece := piece + pieceEndOffset + mPPieces;
      ghost var end := Max(piece, Min(endPiece, mLastPiece) + 1);
      var i, p := 0, piece;
      while p <= endPiece && p <= mLastPiece
        invariant torrent.Advanced() && old(torrent.owned) <= had <= torrent.owned
        invariant i == p - piece && piece <= p <= end && Remains(start, torrent.schedule)
        invariant Agree(torrent.priorities, s.RaisedBelow(priorities, had, p), start)
        invariant Agree(torrent.deadlines, s.ScheduledBelow(deadlines, priorities, had, p), start)
        decreases mLastPiece - p
      {
        had := LookAtPiece(p, i, s, priorities, deadlines, had, start);
        p, i := p + 1, i + 1;
      }
      PassEnds(s, deadlines, priorities, had, end);
      assert p == end;
    }

    /**
     * The pieces up to the last exist, also for an empty file: its last piece is the one before it,
     * or for one that starts the torrent what truncation makes of -1, that is 0 (-1 if pieces are one byte).
     */
    lemma PiecesToLastExist()
      requires Valid()
      ensures forall p :: 0 <= p <= mLastPiece ==> torrent.layout.IsPiece(p) && p in torrent.priorities
    {
      if mOffset + mSize > 0 {
        ByteInPiece(torrent.layout, mOffset + mSize - 1);
      } else {
        BeforeFirstByte(torrent.layout);
      }
    }

    /** Copies bytes into the caller's buffer. */
    method Memcpy(buf: array<byte>, at: nat, bytes: seq<byte>)
      requires at + |bytes| <= buf.Length
      modifies buf
      ensures buf[..] == old(buf[..at]) + bytes + old(buf[at + |bytes|..])
    {
      forall i | 0 <= i < |bytes| {
        buf[at + i] := bytes[i];
      }
    }

    method WaitForPieces(first: int, last: int, until: Option<int>) returns (o: Outcome<()>)
      requires torrent.Valid() && first <= last + 1
      requires forall p :: first <= p <= last ==> torrent.layout.IsPiece(p)
      modifies torrent`mPieces, torrent`owned, torrent`queue, torrent`mPaused, torrent`mClosed, torrent`now,
               torrent`schedule, torrent`priorities, torrent`deadlines, torrent`sleeps
      ensures torrent.Advanced() && torrent.PrioritiesKept()
      ensures o.Ok? <==> AllIn(first, last, torrent.owned)
      ensures AllIn(first, last, old(torrent.owned)) ==> unchanged(torrent)
      ensures o.Threw? ==> match o.error
                           case TorrentClosed => torrent.mClosed
                           case TorrentPaused => torrent.mPaused && !torrent.mClosed
                           case TimeoutReached => until.Some? && torrent.now >= until.value
                           case _ => false
      ensures o.Blocked? ==> torrent.schedule == [] && (until.Some? ==> torrent.now < until.value)
    {
      hide Untouched, Remains, NoCleanups, NoPauses, Agree;
      hide torrent.CacheValid, torrent.QueueAndOwnershipValid, torrent.PrioritiesValid, torrent.ScheduleValid;
      SameTables(torrent.schedule, torrent.priorities, torrent.deadlines);
      for p := first to last + 1
        invariant torrent.Advanced() && torrent.PrioritiesKept()
        invariant AllIn(first, p - 1, torrent.owned)
        invariant AllIn(first, last, old(torrent.owned)) ==> unchanged(torrent)
      {
        o := WaitForNext(p, until, old(torrent.schedule), old(torrent.priorities), old(torrent.deadlines));
        if !o.Ok? {
          return;
        }
      }
      o := Ok(());
    }

    /** One round of the loop above. */
    method WaitForNext(p: int, until: Option<int>, ghost start: seq<seq<Event>>, ghost first: map<int, int>,
                       ghost due: map<int, int>)
      returns (o: Outcome<()>)
      requires torrent.Valid() && torrent.layout.IsPiece(p) && Remains(start, torrent.schedule)
      requires Agree(torrent.priorities, first, start) && Agree(torrent.deadlines, due, start)
      modifies torrent`mPieces, torrent`owned, torrent`queue, torrent`mPaused, torrent`mClosed, torrent`now,
               torrent`schedule, torrent`priorities, torrent`deadlines, torrent`sleeps
      ensures torrent.Advanced() && Remains(start, torrent.schedule)
      ensures Agree(torrent.priorities, first, start) && Agree(torrent.deadlines, due, start)
      ensures p in old(torrent.owned) ==> unchanged(torrent)
      ensures o.Ok? <==> p in torrent.owned
      ensures o.Threw? ==> match o.error
                           case TorrentClosed => torrent.mClosed
                           case TorrentPaused => torrent.mPaused && !torrent.mClosed
                           case TimeoutReached => until.Some? && torrent.now >= until.value
                           case _ => false
      ensures o.Blocked? ==> torrent.schedule == [] && (until.Some? ==> torrent.now < until.value)
    {
      hide Untouched, NoCleanups, NoPauses, Agree;
      hide torrent.CacheValid, torrent.QueueAndOwnershipValid, torrent.PrioritiesValid, torrent.ScheduleValid;
      ghost var before, priorities, deadlines := torrent.schedule, torrent.priorities, torrent.deadlines;
      o := torrent.WaitForPiece(p, until);
      AgreeLater(priorities, first, torrent.priorities, start, before);
      AgreeLater(deadlines, due, torrent.deadlines, start, before);
    }

    /** Reads one piece and copies its bytes from `from` on, as many as the window still needs. */
    method CopyPiece(buf: array<byte>, at: int, size: int, p: int, from: int, until: Option<int>,
                     ghost base: int, ghost end: int, ghost start: seq<seq<Event>>, ghost first: map<int, int>,
                     ghost due: map<int, int>)
      returns (o: Outcome<int>)
      requires torrent.Valid() && 0 <= base && base + size <= |torrent.layout.data| && size <= buf.Length
      requires Supplies(torrent.layout, base, size, p, from, at, end)
      requires buf[..][..at] == torrent.layout.data[base..base + at]
      requires Remains(start, torrent.schedule)
      requires Agree(torrent.priorities, first, start) && Agree(torrent.deadlines, due, start)
      modifies torrent`mPieces, torrent`owned, torrent`queue, torrent`mPaused, torrent`mClosed, torrent`now,
               torrent`schedule, torrent`priorities, torrent`deadlines, torrent`requested, buf
      ensures torrent.Advanced() && Remains(start, torrent.schedule)
      ensures Agree(torrent.priorities, first, start) && Agree(torrent.deadlines, due, start)
      ensures o.Ok? <==> p in torrent.mPieces
      ensures o.Ok? ==> 0 < o.value == end - at && end <= size
      ensures o.Ok? ==> buf[..][..end] == torrent.layout.data[base..base + end]
      ensures buf[..][size..] == old(buf[..])[size..]
      ensures o.Threw? ==> o.error == TimedOutWaiting && until.Some? && torrent.now >= until.value
      ensures o.Blocked? ==> torrent.schedule == [] && (until.Some? ==> torrent.now < until.value)
    {
      SuppliesMeans(torrent.layout, base, size, p, from, at, end);
      hide Untouched, NoCleanups, NoPauses, Agree, Supplies;
      hide torrent.CacheValid, torrent.QueueAndOwnershipValid, torrent.PrioritiesValid, torrent.ScheduleValid;
      ghost var left, priorities, deadlines := torrent.schedule, torrent.priorities, torrent.deadlines;
      var piece := torrent.ReadPiece(p, until);
      AgreeLater(priorities, first, torrent.priorities, start, left);
      AgreeLater(deadlines, due, torrent.deadlines, start, left);
      if !piece.Ok? {
        return piece.Failure();
      }
      var n := CopyBytes(buf, at, size, p, piece.value.buffer, from, base, end);
      return Ok(n);
    }

    /** Copies what a piece supplies of the window. */
    method CopyBytes(buf: array<byte>, at: int, size: int, ghost p: int, bytes: seq<byte>, from: int, ghost base: int,
                     ghost end: int)
      returns (n: int)
      requires torrent.layout.Valid() && 0 <= base && base + size <= |torrent.layout.data| && size <= buf.Length
      requires Supplies(torrent.layout, base, size, p, from, at, end) && bytes == torrent.layout.PieceBytes(p)
      requires buf[..][..at] == torrent.layout.data[base..base + at]
      modifies buf
      ensures 0 < n == end - at && end <= size
      ensures buf[..][..end] == torrent.layout.data[base..base + end]
      ensures buf[..][size..] == old(buf[..])[size..]
    {
      n := Min(size - at, |bytes| - from);
      ghost var before := buf[..];
      Memcpy(buf, at, bytes[from..from + n]);
      AppendSlice(torrent.layout.data, base, size, at, end, before, buf[..]);
    }

    /** Stitches a window together from the pieces that hold it. */
    method CopyPieces(buf: array<byte>, size: int, first: int, last: int, from: int, until: Option<int>,
                      ghost base: int, ghost cuts: seq<int>)
      returns (o: Outcome<int>)
      requires torrent.Valid() && 0 <= base && base + size <= |torrent.layout.data| && 0 < size <= buf.Length
      requires Stitched(torrent.layout, base, size, first, from, cuts) && |cuts| == last - first + 2
      modifies torrent`mPieces, torrent`owned, torrent`queue, torrent`mPaused, torrent`mClosed, torrent`now,
               torrent`schedule, torrent`priorities, torrent`deadlines, torrent`requested, buf
      ensures torrent.Advanced() && torrent.PrioritiesKept() && buf[..][size..] == old(buf[..])[size..]
      ensures o.Ok? ==> o.value == size && buf[..][..size] == torrent.layout.data[base..base + size]
      ensures !o.Ok? ==> !AllIn(first, last, torrent.mPieces.Keys)
      ensures NoCleanups(old(torrent.schedule)) ==> (o.Ok? <==> AllIn(first, last, torrent.mPieces.Keys))
      ensures o.Threw? ==> o.error == TimedOutWaiting && until.Some? && torrent.now >= until.value
      ensures o.Blocked? ==> torrent.schedule == [] && (until.Some? ==> torrent.now < until.value)
    {
      hide Untouched, Remains, NoCleanups, NoPauses, Agree, Supplies;
      hide torrent.CacheValid, torrent.QueueAndOwnershipValid, torrent.PrioritiesValid, torrent.ScheduleValid;
      ghost var source := torrent.layout.data;
      ghost var start, priorities, deadlines := torrent.schedule, torrent.priorities, torrent.deadlines;
      SameTables(start, priorities, deadlines);
      assert Supplies(torrent.layout, base, size, first + 0, from, cuts[0], cuts[1]);
      o := CopyPiece(buf, 0, size, first, from, until, base, cuts[1], start, priorities, deadlines);
      if !o.Ok? {
        return;
      }
      var n := o.value;

      for p := first + 1 to last + 1
        invariant torrent.Advanced() && torrent.PrioritiesKept()
        invariant n == cuts[p - first] && 0 < n <= size
        invariant buf[..][..n] == source[base..base + n] && buf[..][size..] == old(buf[..])[size..]
        invariant NoCleanups(start) ==> AllIn(first, p - 1, torrent.mPieces.Keys)
      {
        ghost var i := p - first;
        assert Supplies(torrent.layout, base, size, first + i, 0, cuts[i], cuts[i + 1]);
        o := CopyPiece(buf, n, size, p, 0, until, base, cuts[i + 1], start, priorities, deadlines);
        if !o.Ok? {
          return;
        }
        n := n + o.value;
      }
      o := Ok(n);
    }

    /** What the pass over a span left, when `had` was owned as it was looked at. */
    twostate predicate Looked(s: Span, had: set<int>)
      reads torrent
    {
      && old(torrent.owned) <= had <= torrent.owned
      && Agree(torrent.priorities, s.Raised(old(torrent.priorities), had), old(torrent.schedule))
      && Agree(torrent.deadlines, s.Scheduled(old(torrent.deadlines), old(torrent.priorities), had),
               old(torrent.schedule))
    }

    /**
     * What a read of `n` bytes from `pos` on does to priorities and deadlines, for the pieces whose priority other
     * threads leave alone: those of the window that are not owned when looked at end at priority 7, and those read
     * ahead, up to the file's last, at 6 at least; with a deadline for what was below. The others keep theirs.
     */
    ghost predicate OnTop(pos: int, n: int, had: set<int>, was: map<int, int>, due: map<int, int>,
                          schedule: seq<seq<Event>>)
      reads torrent
      requires mPieceLength > 0
    {
      forall p :: Untouched(schedule, p) && p in was ==>
        Rises(p, PieceFromOffset(pos), PieceFromOffset(pos + n - 1), had, was, due)
    }

    ghost predicate Rises(p: int, first: int, last: int, had: set<int>, was: map<int, int>, due: map<int, int>)
      reads torrent
      requires mPieceLength > 0 && p in was
    {
      var now, deadlines := torrent.priorities, torrent.deadlines;
      && p in now
      && if first <= p <= last && p !in had then
           now[p] == 7 && (was[p] < 7 ==> p in deadlines && deadlines[p] == 0)
         else if last < p <= last + mPPieces && p <= PieceFromOffset(mSize - 1) && p !in had then
           now[p] == Max(was[p], 6) && (was[p] < 6 ==> p in deadlines && deadlines[p] == 10 * (p - last))
         else
           now[p] == was[p] && (p in deadlines <==> p in due) && (p in due ==> deadlines[p] == due[p])
    }

    /** `was` and `due`: priorities and deadlines before a pass over the window that found `had` owned. */
    lemma WindowOnTop(pos: int, n: int, had: set<int>, was: map<int, int>, due: map<int, int>,
                      schedule: seq<seq<Event>>, s: Span)
      requires Valid() && 0 <= pos && 0 < n && pos + n <= mSize
      requires forall p :: torrent.layout.IsPiece(p) <==> p in was
      requires forall p :: p in was ==> was[p] <= TOP_PRIORITY
      requires s == Span(PieceFromOffset(pos), PieceFromOffset(pos + n - 1) - PieceFromOffset(pos), mPPieces,
                         mLastPiece)
      requires Agree(torrent.priorities, s.Raised(was, had), schedule)
      requires Agree(torrent.deadlines, s.Scheduled(due, was, had), schedule)
      ensures mPPieces >= 0 ==> OnTop(pos, n, had, was, due, schedule)
    {
      hide PieceAt, Untouched;
      hide torrent.CacheValid, torrent.QueueAndOwnershipValid, torrent.PrioritiesValid, torrent.ScheduleValid;
      var first, last := PieceFromOffset(pos), PieceFromOffset(pos + n - 1);
      PieceAtMonotone(torrent.layout, mOffset + pos, mOffset + pos + n - 1);
      PieceAtMonotone(torrent.layout, mOffset + pos + n - 1, mOffset + mSize - 1);
      var raised, scheduled := s.Raised(was, had), s.Scheduled(due, was, had);
      assert raised.Keys == was.Keys;
      hide s.Raised, s.Scheduled;
      if mPPieces >= 0 {
        forall p | Untouched(schedule, p) && p in was
          ensures Rises(p, first, last, had, was, due)
        {
          assert p in raised && (p in torrent.deadlines <==> p in scheduled);
          PassInNumbers(s, due, was, had, p - first);
        }
      }
    }

    /** With no other thread at work, the pass leaves exactly the priorities and deadlines it prescribes. */
    twostate lemma LookedAlone(s: Span, had: set<int>)
      requires Looked(s, had) && old(torrent.schedule) == [] && torrent.owned == old(torrent.owned)
      ensures torrent.priorities == s.Raised(old(torrent.priorities), old(torrent.owned))
      ensures torrent.deadlines == s.Scheduled(old(torrent.deadlines), old(torrent.priorities), old(torrent.owned))
    {
      AgreeAll(torrent.priorities, s.Raised(old(torrent.priorities), had));
      AgreeAll(torrent.deadlines, s.Scheduled(old(torrent.deadlines), old(torrent.priorities), had));
    }

    /** What a read does before it copies: looks ahead, then waits for its pieces. */
    method Prepare(startPiece: int, endPiece: int) returns (o: Outcome<()>, ghost had: set<int>, until: Option<int>)
      requires Valid() && 0 <= startPiece <= endPiece
      requires forall p :: startPiece <= p <= endPiece ==> torrent.layout.IsPiece(p)
      modifies torrent
      ensures torrent.Advanced()
      ensures Looked(Span(startPiece, endPiece - startPiece, mPPieces, mLastPiece), had)
      ensures until.Some? <==> mPieceWaitTimeout > 0
      ensures until.Some? ==> until.value >= old(torrent.now) + mPieceWaitTimeout
      ensures o.Ok? <==> AllIn(startPiece, endPiece, torrent.owned)
      ensures AllIn(startPiece, endPiece, old(torrent.owned)) ==> torrent.sleeps == old(torrent.sleeps)
      ensures o.Threw? ==> match o.error
                           case TorrentClosed => torrent.mClosed
                           case TorrentPaused => torrent.mPaused && !torrent.mClosed
                           case TimeoutReached => until.Some? && torrent.now >= until.value
                           case _ => false
      ensures o.Blocked? ==> torrent.schedule == [] && (until.Some? ==> torrent.now < until.value)
    {
      hide Agree, Untouched, NoCleanups, NoPauses;
      hide torrent.CacheValid, torrent.QueueAndOwnershipValid, torrent.PrioritiesValid, torrent.ScheduleValid;
      ghost var s := Span(startPiece, endPiece - startPiece, mPPieces, mLastPiece);
      had := SetPiecesPriorities(startPiece, endPiece - startPiece);
      until := if mPieceWaitTimeout > 0 then Some(torrent.now + mPieceWaitTimeout) else None;
      ghost var before, priorities, deadlines := torrent.schedule, torrent.priorities, torrent.deadlines;
      o := WaitForPieces(startPiece, endPiece, until);
      AgreeLater(priorities, s.Raised(old(torrent.priorities), had), torrent.priorities, old(torrent.schedule), before);
      AgreeLater(deadlines, s.Scheduled(old(torrent.deadlines), old(torrent.priorities), had), torrent.deadlines,
                 old(torrent.schedule), before);
    }

    /** A read of a window of at least one byte that lies in the file. */
    method ReadWindow(buf: array<byte>, size: int)
      returns (o: Outcome<int>, ghost had: set<int>, ghost until: Option<int>)
      requires Valid() && 0 < size <= buf.Length && mPos + size <= mSize
      modifies this`mPos, torrent, buf
      ensures torrent.Advanced() && buf[..][size..] == old(buf[..])[size..]
      ensures o.Ok? ==> o.value == size && mPos == old(mPos) + size
      ensures o.Ok? ==> buf[..][..size] == torrent.layout.data[mOffset + old(mPos)..mOffset + old(mPos) + size]
      ensures !o.Ok? ==> mPos == old(mPos) && Missed(torrent, mOffset + mPos, size, until, o)
      ensures o.Ok? ==> Within(old(mPos), size, torrent.owned)
      ensures o.Ok? && NoCleanups(old(torrent.schedule)) ==> Within(old(mPos), size, torrent.Ready())
      ensures Looked(old(WindowSpan(size)), had)
      ensures until.Some? <==> mPieceWaitTimeout > 0
      ensures until.Some? ==> until.value >= old(torrent.now) + mPieceWaitTimeout
      ensures o.Blocked? && until.Some? ==> torrent.now < until.value
      ensures Within(old(mPos), size, old(torrent.owned)) ==>
                torrent.sleeps == old(torrent.sleeps)
    {
      hide PieceAt, OffsetInPiece, Stitched, Covers, Agree, Untouched, NoCleanups, NoPauses;
      hide torrent.CacheValid, torrent.QueueAndOwnershipValid, torrent.PrioritiesValid, torrent.ScheduleValid;
      ghost var base := mOffset + mPos;
      var startPiece, endPiece := PieceFromOffset(mPos), PieceFromOffset(mPos + size - 1);
      PieceAtMonotone(torrent.layout, base, base + size - 1);
      WindowExists(torrent.layout, base, size);
      ghost var cuts := WindowStitched(torrent.layout, base, size);
      CoversIffAllIn(torrent.layout, base, size, torrent.owned);

      var waited, looked, limit := Prepare(startPiece, endPiece);
      had, until := looked, limit;
      if waited.Ok? {
        ghost var before, priorities, deadlines := torrent.schedule, torrent.priorities, torrent.deadlines;
        o := CopyPieces(buf, size, startPiece, endPiece, PieceOffsetFromOffset(mPos), limit, base, cuts);
        ghost var s := old(WindowSpan(size));
        AgreeLater(priorities, s.Raised(old(torrent.priorities), had), torrent.priorities, old(torrent.schedule),
                   before);
        AgreeLater(deadlines, s.Scheduled(old(torrent.deadlines), old(torrent.priorities), had), torrent.deadlines,
                   old(torrent.schedule), before);
      } else {
        o := waited.Failure();
      }
      CoversIffAllIn(torrent.layout, base, size, torrent.owned);
      CoversIffAllIn(torrent.layout, base, size, torrent.mPieces.Keys);
      CoversBoth(base, size, mPieceLength, torrent.owned, torrent.mPieces.Keys);
      if o.Ok? {
        mPos := mPos + o.value;
      }
    }

    /**
     * What a read of `n` bytes has done when it ends: one that returns has copied exactly the file's bytes
     * at the position and advanced by their number; one that throws has not moved; nothing behind is touched.
     */
    twostate predicate Delivered(buf: array<byte>, n: int, new o: Outcome<int>)
      requires InTorrent() && 0 <= old(mPos) && 0 <= n <= buf.Length && old(mPos) + n <= mSize
      reads this, torrent, buf
    {
      && buf[..][n..] == old(buf[..])[n..]
      && (!o.Ok? ==> mPos == old(mPos))
      && (o.Ok? ==>
            && o.value == n && mPos == old(mPos) + n
            && buf[..][..n] == Contents()[old(mPos)..old(mPos) + n])
    }

    /**
     * Reads at the current position. Whatever other threads do meanwhile, a read that returns delivers
     * the file; one that does not was not given all pieces of its window in time, and says which of
     * ownership and data was missing.
     */
    method Read(buf: array<byte>, count: int) returns (o: Outcome<int>, ghost had: set<int>, ghost until: Option<int>)
      requires Valid() && count <= buf.Length
      modifies this`mPos, torrent, buf
      ensures Valid() && torrent.Advanced()
      ensures var n := ReadCount(mSize, old(mPos), count);
              && Delivered(buf, n, o)
              // It stops short only at the end of the file.
              && (o.Ok? ==> o.value <= Max(0, count) && (o.value == Max(0, count) || mPos == mSize))
              && (n == 0 ==> o == Ok(0) && unchanged(torrent))
              && (n > 0 ==> Looked(old(WindowSpan(n)), had))
              // Pieces still missing of the window are at top priority, those read ahead at 6 at least.
              && (n > 0 && mPPieces >= 0 ==> OnTop(old(mPos), n, had, old(torrent.priorities), old(torrent.deadlines),
                                                   old(torrent.schedule)))
              && (!o.Ok? ==> Missed(torrent, mOffset + mPos, n, until, o))
              && (o.Ok? ==> Within(old(mPos), n, torrent.owned))
              // When no other thread expires pieces, success means the window is cached too.
              && (o.Ok? && NoCleanups(old(torrent.schedule)) ==> Within(old(mPos), n, torrent.Ready()))
              // When every piece of the window is owned, no sleep is taken for ownership.
              && (Within(old(mPos), n, old(torrent.owned)) ==>
                    torrent.sleeps == old(torrent.sleeps))
      ensures until.Some? ==> mPieceWaitTimeout > 0 && until.value >= old(torrent.now) + mPieceWaitTimeout
      ensures o.Blocked? && mPieceWaitTimeout > 0 ==> until.Some? && torrent.now < until.value
    {
      hide PieceAt, Covers, Missed, OnTop, Untouched, Agree;
      var size := Min(count, mSize - mPos);
      if size <= 0 {
        CoversNothing(mOffset + mPos, mPieceLength, torrent.owned, torrent.Ready());
        return Ok(0), {}, None;
      }
      ghost var was, due := torrent.priorities, torrent.deadlines;
      AllPrioritised(torrent);
      o, had, until := ReadWindow(buf, size);
      WindowOnTop(old(mPos), size, had, was, due, old(torrent.schedule), old(WindowSpan(size)));
      SliceOfSlice(torrent.layout.data, mOffset, mOffset + mSize, old(mPos), old(mPos) + size);
    }

    /** A target outside the file changes nothing; `had` is what was owned as the pass looked at it. */
    method Seek(offset: int, whence: Whence) returns (r: int, ghost had: set<int>)
      requires Valid()
      modifies this`mPos, torrent
      ensures Valid() && torrent.Advanced()
      ensures var target := SeekTarget(mSize, old(mPos), offset, whence);
              && r == (if target.Some? then target.value else -1)
              && mPos == (if target.Some? then target.value else old(mPos))
              && (target.None? ==> unchanged(torrent))
              && (target.Some? ==> Looked(Span(PieceFromOffset(target.value), 0, mPPieces, mLastPiece), had))
              // As for a read of one byte there.
              && (target.Some? && target.value < mSize && mPPieces >= 0 ==>
                    OnTop(target.value, 1, had, old(torrent.priorities), old(torrent.deadlines),
                          old(torrent.schedule)))
    {
      hide PieceAt, Agree, Untouched, NoCleanups, NoPauses, OnTop;
      ghost var was, due := torrent.priorities, torrent.deadlines;
      AllPrioritised(torrent);
      hide torrent.CacheValid, torrent.QueueAndOwnershipValid, torrent.PrioritiesValid, torrent.ScheduleValid;
      var off: int;
      match whence {
        case Beginning => off := offset;
        case Current => off := mPos + offset;
        case End => off := mSize + offset;
        case Unknown => off := -1;
      }
      if off < 0 || off > mSize {
        SameTables(torrent.schedule, torrent.priorities, torrent.deadlines);
        return -1, {};
      }
      mPos := off;
      PieceAtBounds(mOffset + off, mPieceLength);
      had := SetPiecesPriorities(PieceFromOffset(off), 0);
      if off < mSize {
        WindowOnTop(off, 1, had, was, due, old(torrent.schedule), Span(PieceFromOffset(off), 0, mPPieces, mLastPiece));
      }
      r := off;
    }

    /**
     * The storage call of the legacy build: bytes from an offset in a piece on, as many as the
     * storage likes up to `room` (also past the end of the piece), or an error. The pieces read from
     * are owned: nothing is known of the others' data.
     */
    method Readv(buf: array<byte>, at: int, room: int, piece: int, offset: int, answer: StorageAnswer)
      returns (r: Option<int>)
      requires torrent.layout.Valid() && mPieceLength == torrent.layout.pieceLength
      requires 0 <= at && 0 < room && at + room <= buf.Length
      requires 0 <= Start(piece, mPieceLength) + offset
      requires Start(piece, mPieceLength) + offset + room <= |torrent.layout.data|
      requires Covers(Start(piece, mPieceLength) + offset, room, mPieceLength, torrent.owned)
      modifies buf
      ensures r == if answer.Failed? then None else Some(Max(0, Min(answer.count, room)))
      ensures r.Some? ==> var base := Start(piece, mPieceLength) + offset;
                          buf[..] == old(buf[..at]) + torrent.layout.data[base..base + r.value]
                                     + old(buf[at + r.value..])
      ensures r.None? ==> buf[..] == old(buf[..])
    {
      if answer.Failed? {
        return None;
      }
      var n := Max(0, Min(answer.count, room));
      var base := Start(piece, mPieceLength) + offset;
      Memcpy(buf, at, torrent.layout.data[base..base + n]);
      return Some(n);
    }

    /** One storage call of the loop below: the window's next bytes, from byte `n` of it on. */
    method ReadNext(buf: array<byte>, size: int, n: int, answer: StorageAnswer) returns (r: Option<int>)
      requires Valid() && 0 <= n < size <= buf.Length && mPos + size <= mSize
      requires Within(mPos, size, torrent.owned)
      requires buf[..][..n] == torrent.layout.data[mOffset + mPos..mOffset + mPos + n]
      modifies buf
      ensures r == if answer.Failed? then None else Some(Max(0, Min(answer.count, size - n)))
      ensures r.Some? ==>
                buf[..][..n + r.value] == torrent.layout.data[mOffset + mPos..mOffset + mPos + n + r.value]
      ensures buf[..][size..] == old(buf[..])[size..]
    {
      hide PieceAt, OffsetInPiece, Covers, Start, PieceFromOffset, PieceOffsetFromOffset;
      hide torrent.CacheValid, torrent.QueueAndOwnershipValid, torrent.PrioritiesValid, torrent.ScheduleValid;
      var pos := mPos + n;
      NextBytesOwned(size, n);
      ghost var before := buf[..];
      r := Readv(buf, n, size - n, PieceFromOffset(pos), PieceOffsetFromOffset(pos), answer);
      if r.Some? {
        AppendSlice(torrent.layout.data, mOffset + mPos, size, n, n + r.value, before, buf[..]);
      }
    }

    /** The piece and position computed for a byte of the window name that byte, and what follows it is owned. */
    lemma NextBytesOwned(size: int, n: int)
      requires Valid() && 0 <= n < size && mPos + size <= mSize && Within(mPos, size, torrent.owned)
      ensures var base := Start(PieceFromOffset(mPos + n), mPieceLength) + PieceOffsetFromOffset(mPos + n);
              base == mOffset + mPos + n && Covers(base, size - n, mPieceLength, torrent.owned)
    {
      hide PieceAt, OffsetInPiece, Covers;
      ByteInPiece(torrent.layout, mOffset + mPos + n);
      CoversParts(mOffset + mPos, n, size - n, mPieceLength, torrent.owned);
    }

    /** Storage calls until the window is full: `answers` are what the storage says, one a call. */
    method ReadStored(buf: array<byte>, size: int, answers: seq<StorageAnswer>) returns (o: Outcome<int>)
      requires Valid() && 0 < size <= buf.Length && mPos + size <= mSize
      requires Within(mPos, size, torrent.owned)
      modifies buf
      ensures buf[..][size..] == old(buf[..])[size..]
      ensures o.Ok? ==> o.value == size
      ensures o.Ok? ==> buf[..][..size] == torrent.layout.data[mOffset + mPos..mOffset + mPos + size]
      ensures !o.Ok? ==> StorageFailed(size, answers, o)
    {
      hide PieceAt, Covers;
      hide torrent.CacheValid, torrent.QueueAndOwnershipValid, torrent.PrioritiesValid, torrent.ScheduleValid;
      ghost var source, base := torrent.layout.data, mOffset + mPos;
      var n, calls := 0, 0;
      while n != size
        invariant 0 <= n <= size && 0 <= calls <= |answers| && calls <= n
        invariant buf[..][..n] == source[base..base + n] && buf[..][size..] == old(buf[..])[size..]
        decreases size - n
      {
        if calls == |answers| {
          return Blocked;
        }
        var readSize := ReadNext(buf, size, n, answers[calls]);
        if readSize.None? {
          return Threw(ReadFailed);
        }
        if readSize.value == 0 {
          return Threw(NoDataToRead);
        }
        calls, n := calls + 1, n + readSize.value;
      }
      return Ok(n);
    }

    /** The legacy read of a window of at least one byte that lies in the file. */
    method ReadLegacyWindow(buf: array<byte>, size: int, answers: seq<StorageAnswer>)
      returns (o: Outcome<int>, ghost had: set<int>, ghost until: Option<int>)
      requires Valid() && 0 < size <= buf.Length && mPos + size <= mSize
      modifies this`mPos, torrent, buf
      ensures torrent.Advanced() && buf[..][size..] == old(buf[..])[size..]
      ensures o.Ok? ==> o.value == size && mPos == old(mPos) + size && Within(old(mPos), size, torrent.owned)
      ensures o.Ok? ==> buf[..][..size] == torrent.layout.data[mOffset + old(mPos)..mOffset + old(mPos) + size]
      ensures !o.Ok? ==>
                && mPos == old(mPos)
                && if Within(mPos, size, torrent.owned) then StorageFailed(size, answers, o)
                   else Unowned(torrent, mOffset + mPos, size, until, o)
      ensures Looked(old(WindowSpan(size)), had)
      ensures until.Some? ==> mPieceWaitTimeout > 0 && until.value >= old(torrent.now) + mPieceWaitTimeout
      ensures Within(old(mPos), size, old(torrent.owned)) ==> torrent.sleeps == old(torrent.sleeps)
    {
      hide PieceAt, OffsetInPiece, Covers, Untouched, NoCleanups, NoPauses, StorageFailed, Looked;
      hide torrent.CacheValid, torrent.QueueAndOwnershipValid, torrent.PrioritiesValid, torrent.ScheduleValid;
      ghost var base := mOffset + mPos;
      var startPiece, endPiece := PieceFromOffset(mPos), PieceFromOffset(mPos + size - 1);
      PieceAtMonotone(torrent.layout, base, base + size - 1);
      WindowExists(torrent.layout, base, size);
      CoversIffAllIn(torrent.layout, base, size, torrent.owned);
      var waited, looked, limit := Prepare(startPiece, endPiece);
      had, until := looked, limit;
      CoversIffAllIn(torrent.layout, base, size, torrent.owned);
      if !waited.Ok? {
        o := waited.Failure();
        return;
      }
      o := ReadStored(buf, size, answers);
      if o.Ok? {
        mPos := mPos + o.value;
      }
    }

    /**
     * The read of the legacy build: after the same pass and waits, it refines the same slice of the
     * file; it fails for want of ownership as the other does, or because the storage fails or stops.
     */
    method ReadLegacy(buf: array<byte>, count: int, answers: seq<StorageAnswer>)
      returns (o: Outcome<int>, ghost had: set<int>, ghost until: Option<int>)
      requires Valid() && count <= buf.Length
      modifies this`mPos, torrent, buf
      ensures Valid() && torrent.Advanced()
      ensures var n := ReadCount(mSize, old(mPos), count);
              && Delivered(buf, n, o)
              // It stops short only at the end of the file.
              && (o.Ok? ==> o.value <= Max(0, count) && (o.value == Max(0, count) || mPos == mSize))
              && (n == 0 ==> o == Ok(0) && unchanged(torrent))
              && (n > 0 ==> Looked(old(WindowSpan(n)), had))
              && (n > 0 && mPPieces >= 0 ==> OnTop(old(mPos), n, had, old(torrent.priorities), old(torrent.deadlines),
                                                   old(torrent.schedule)))
              && (o.Ok? ==> Within(old(mPos), n, torrent.owned))
              && (!o.Ok? ==>
                    if Within(mPos, n, torrent.owned) then StorageFailed(n, answers, o)
                    else Unowned(torrent, mOffset + mPos, n, until, o))
              && (Within(old(mPos), n, old(torrent.owned)) ==> torrent.sleeps == old(torrent.sleeps))
      ensures until.Some? ==> mPieceWaitTimeout > 0 && until.value >= old(torrent.now) + mPieceWaitTimeout
    {
      hide PieceAt, Covers, Unowned, StorageFailed, OnTop, Untouched, Agree;
      var size := Min(count, mSize - mPos);
      if size <= 0 {
        CoversNothing(mOffset + mPos, mPieceLength, torrent.owned, torrent.Ready());
        torrent.NothingDone();
        return Ok(0), {}, None;
      }
      ghost var was, due := torrent.priorities, torrent.deadlines;
      AllPrioritised(torrent);
      o, had, until := ReadLegacyWindow(buf, size, answers);
      WindowOnTop(old(mPos), size, had, was, due, old(torrent.schedule), old(WindowSpan(size)));
      SliceOfSlice(torrent.layout.data, mOffset, mOffset + mSize, old(mPos), old(mPos) + size);
    }
  }

  /** Why storage calls for `n` bytes ended early: an error, an empty transfer, or no more answers. */
  predicate StorageFailed(n: int, answers: seq<StorageAnswer>, o: Outcome<int>) {
    match o
    case Ok(_) => false
    case Threw(e) =>
      if e == ReadFailed then Failed in answers
      else e == NoDataToRead && exists i :: 0 <= i < |answers| && answers[i].Transferred? && answers[i].count <= 0
    case Blocked => |answers| < n
  }

  lemma SuppliesMeans(layout: Layout, base: int, size: int, p: int, from: int, at: int, end: int)
    requires layout.Valid() && 0 <= base && base + size <= |layout.data|
    requires Supplies(layout, base, size, p, from, at, end)
    ensures layout.IsPiece(p) && 0 <= at < end <= size
  {
  }

  lemma AllPrioritised(torrent: Torrent)
    requires torrent.layout.Valid() && torrent.PrioritiesValid()
    ensures forall p :: torrent.layout.IsPiece(p) <==> p in torrent.priorities
    ensures forall p :: p in torrent.priorities ==> torrent.priorities[p] <= TOP_PRIORITY
  {
  }

  lemma CoversNothing(base: int, d: int, owned: set<int>, ready: set<int>)
    requires d > 0
    ensures Covers(base, 0, d, owned) && Covers(base, 0, d, ready)
  {
  }

  /** The tables agree at a piece other threads leave alone, and still do once it gets the same values in both. */
  lemma SamePriority(priorities: map<int, int>, deadlines: map<int, int>, raised: map<int, int>, due: map<int, int>,
                     start: seq<seq<Event>>, p: int, priority: int, deadline: int)
    requires Agree(priorities, raised, start) && Agree(deadlines, due, start) && p in priorities && p in raised
    ensures var raise := priorities[p] < priority;
            var raises := raised[p] < priority;
            && Agree(if raise then priorities[p := priority] else priorities,
                     if raises then raised[p := priority] else raised, start)
            && Agree(if raise then deadlines[p := deadline] else deadlines,
                     if raises then due[p := deadline] else due, start)
  {
    hide Untouched;
  }
}

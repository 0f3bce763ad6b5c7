/**
 * A torrent: its handle (owned pieces, priorities, download queue), its cache of piece
 * data, and the waits for pieces. Other threads act between the critical sections of a
 * method: `schedule` lists, batch by batch, everything they will do, and is arbitrary.
 */
module Torrents {
  import opened Common
  import opened Pieces
  import opened PieceCache

  datatype Error =
    | TorrentClosed
    | TorrentPaused
    | TimeoutReached
    | TimedOutWaiting
    | ReadFailed
    | NoDataToRead
    | InvalidRangeStart

  /** How an operation that may wait ends. `Blocked`: the schedule ran out while it was waiting. */
  datatype Outcome<+T> = Ok(value: T) | Threw(error: Error) | Blocked {
    /** The same failure, for a caller that answers something else. */
    function Failure<U>(): (o: Outcome<U>)
      requires !Ok?
      ensures !o.Ok?
    {
      if Threw? then Threw(error) else Blocked
    }
  }

  predicate Distinct(queue: seq<QueueEntry>) {
    forall i, j :: 0 <= i < j < |queue| ==> queue[i].piece != queue[j].piece
  }

  /** What the handle promises of its download queue: one entry a piece, none owned, no more than a piece's bytes. */
  predicate QueueValid(layout: Layout, owned: set<int>, queue: seq<QueueEntry>)
    requires layout.Valid()
  {
    && Distinct(queue)
    && forall q :: q in queue ==>
         && layout.IsPiece(q.piece) && q.piece !in owned
         && (forall i :: 0 <= i < |q.blocks| ==> 0 <= q.blocks[i])
         && Sum(q.blocks) <= layout.PieceSize(q.piece)
  }

  predicate Without(queue: seq<QueueEntry>, p: int) {
    forall q :: q in queue ==> q.piece != p
  }

  /** The download queue once a piece has been completed. */
  function Completed(queue: seq<QueueEntry>, p: int): (rest: seq<QueueEntry>)
    ensures Without(rest, p)
    ensures forall q :: q in rest ==> q in queue
    ensures Distinct(queue) ==> Distinct(rest)
  {
    if queue == [] then []
    else
      var rest := Completed(queue[1..], p);
      assert forall q :: q in queue[1..] ==> q in queue;
      assert Distinct(queue) ==> Distinct(queue[1..]) && forall q :: q in queue[1..] ==> q.piece != queue[0].piece;
      if queue[0].piece == p then rest else [queue[0]] + rest
  }

  /** What the handle says of a torrent: the pieces owned and the download queue. */
  datatype Handle = Handle(owned: set<int>, queue: seq<QueueEntry>)

  /** What a step of another thread makes of it. */
  ghost function Applied(layout: Layout, h: Handle, e: Event): Handle
    requires layout.Valid()
  {
    match e
    case Finish(p) => Handle(h.owned + {p}, Completed(h.queue, p))
    case Download(queue) => if QueueValid(layout, h.owned, queue) then h.(queue := queue) else h
    case _ => h
  }

  ghost function AfterBatch(layout: Layout, h: Handle, batch: seq<Event>): Handle
    requires layout.Valid()
  {
    if batch == [] then h else Applied(layout, AfterBatch(layout, h, batch[..|batch| - 1]), batch[|batch| - 1])
  }

  ghost function AfterBatches(layout: Layout, h: Handle, batches: seq<seq<Event>>): Handle
    requires layout.Valid()
  {
    if batches == [] then h
    else AfterBatch(layout, AfterBatches(layout, h, batches[..|batches| - 1]), batches[|batches| - 1])
  }

  /** With `rest` of a schedule still to come, the handle is what the batches before made of it. */
  ghost predicate Followed(layout: Layout, first: Handle, whole: seq<seq<Event>>, h: Handle, rest: seq<seq<Event>>)
    requires layout.Valid()
  {
    && |rest| <= |whole| && rest == whole[|whole| - |rest|..]
    && h == AfterBatches(layout, first, whole[..|whole| - |rest|])
  }

  lemma FollowedFirst(layout: Layout, h: Handle, whole: seq<seq<Event>>)
    requires layout.Valid()
    ensures Followed(layout, h, whole, h, whole)
  {
  }

  lemma FollowedStep(layout: Layout, first: Handle, whole: seq<seq<Event>>, h: Handle, rest: seq<seq<Event>>)
    requires layout.Valid() && Followed(layout, first, whole, h, rest) && rest != []
    ensures Followed(layout, first, whole, AfterBatch(layout, h, rest[0]), rest[1..])
  {
    var k := |whole| - |rest|;
    assert whole[..k + 1][..k] == whole[..k];
    assert whole[..k + 1][k] == rest[0];
  }

  /** A part of a schedule followed after another. */
  lemma FollowedAgain(layout: Layout, first: Handle, whole: seq<seq<Event>>, h: Handle, rest: seq<seq<Event>>,
                      later: Handle, left: seq<seq<Event>>)
    requires layout.Valid() && Followed(layout, first, whole, h, rest) && Followed(layout, h, rest, later, left)
    ensures Followed(layout, first, whole, later, left)
  {
    var k, n := |whole| - |rest|, |rest| - |left|;
    BatchesAppend(layout, first, whole[..k], rest[..n]);
    assert whole[..k + n] == whole[..k] + rest[..n];
  }

  lemma {:induction false} BatchesAppend(layout: Layout, h: Handle, a: seq<seq<Event>>, b: seq<seq<Event>>)
    requires layout.Valid()
    ensures AfterBatches(layout, h, a + b) == AfterBatches(layout, AfterBatches(layout, h, a), b)
  {
    if b == [] {
      assert a + b == a;
    } else {
      BatchesAppend(layout, h, a, b[..|b| - 1]);
      assert (a + b)[..|a + b| - 1] == a + b[..|b| - 1];
    }
  }

  lemma {:induction false} OwnedGrows(layout: Layout, h: Handle, batches: seq<seq<Event>>)
    requires layout.Valid()
    ensures h.owned <= AfterBatches(layout, h, batches).owned
  {
    if batches != [] {
      OwnedGrows(layout, h, batches[..|batches| - 1]);
      OwnedGrowsInBatch(layout, AfterBatches(layout, h, batches[..|batches| - 1]), batches[|batches| - 1]);
    }
  }

  lemma {:induction false} OwnedGrowsInBatch(layout: Layout, h: Handle, batch: seq<Event>)
    requires layout.Valid()
    ensures h.owned <= AfterBatch(layout, h, batch).owned
  {
    if batch != [] {
      OwnedGrowsInBatch(layout, h, batch[..|batch| - 1]);
    }
  }

  lemma FollowedMeans(layout: Layout, first: Handle, whole: seq<seq<Event>>, h: Handle, rest: seq<seq<Event>>)
    requires layout.Valid() && Followed(layout, first, whole, h, rest)
    ensures Remains(whole, rest) && |rest| <= |whole|
  {
    forall p | Untouched(whole, p)
      ensures Untouched(rest, p)
    {
      var k := |whole| - |rest|;
      assert forall i :: 0 <= i < |rest| ==> rest[i] == whole[k + i];
    }
  }

  /** The data that other threads store is the torrent's, and pieces exist. */
  ghost predicate Truthful(layout: Layout, e: Event)
    requires layout.Valid()
  {
    match e
    case Store(p, buffer) => layout.IsPiece(p) && buffer == layout.PieceBytes(p)
    case Finish(p) => layout.IsPiece(p)
    case Prioritise(p, priority, _) => layout.IsPiece(p) && 0 <= priority <= TOP_PRIORITY
    case _ => true
  }

  ghost predicate AllTruthful(layout: Layout, schedule: seq<seq<Event>>)
    requires layout.Valid()
  {
    forall i, j :: 0 <= i < |schedule| && 0 <= j < |schedule[i]| ==> Truthful(layout, schedule[i][j])
  }

  /** No other thread is going to expire pieces. */
  ghost predicate NoCleanups(schedule: seq<seq<Event>>) {
    forall i, j :: 0 <= i < |schedule| && 0 <= j < |schedule[i]| ==> !schedule[i][j].Cleanup?
  }

  /** No other thread is going to pause or resume the torrent. */
  ghost predicate NoPauses(schedule: seq<seq<Event>>) {
    forall i, j :: 0 <= i < |schedule| && 0 <= j < |schedule[i]| ==>
      !schedule[i][j].Pause? && !schedule[i][j].Resume?
  }

  /** No other thread is going to set the priority of a piece. */
  ghost predicate Untouched(schedule: seq<seq<Event>>, p: int) {
    forall i, j :: 0 <= i < |schedule| && 0 <= j < |schedule[i]| ==>
      !(schedule[i][j].Prioritise? && schedule[i][j].piece == p)
  }

  /** What is left of a schedule touches no piece that the whole of it does not. */
  ghost predicate Remains(schedule: seq<seq<Event>>, rest: seq<seq<Event>>) {
    forall p :: Untouched(schedule, p) ==> Untouched(rest, p)
  }

  /** Two tables agree on the pieces whose priority no other thread sets. */
  ghost predicate Agree(a: map<int, int>, b: map<int, int>, schedule: seq<seq<Event>>) {
    forall p :: Untouched(schedule, p) ==> (p in a <==> p in b) && (p in a ==> a[p] == b[p])
  }

  lemma AgreeLater(a: map<int, int>, b: map<int, int>, c: map<int, int>, schedule: seq<seq<Event>>,
                   rest: seq<seq<Event>>)
    requires Agree(a, b, schedule) && Remains(schedule, rest) && Agree(c, a, rest)
    ensures Agree(c, b, schedule)
  {
    hide Untouched;
  }

  lemma SameTables(schedule: seq<seq<Event>>, priorities: map<int, int>, deadlines: map<int, int>)
    ensures Agree(priorities, priorities, schedule) && Agree(deadlines, deadlines, schedule)
    ensures Remains(schedule, schedule)
  {
  }

  /** What is left after the first batch. */
  lemma FirstBatch(schedule: seq<seq<Event>>)
    requires schedule != []
    ensures Remains(schedule, schedule[1..])
    ensures NoCleanups(schedule) ==> NoCleanups(schedule[1..])
    ensures NoPauses(schedule) ==> NoPauses(schedule[1..])
  {
  }

  /** A piece that a step of the schedule sets the priority of may get another value. */
  lemma AgreeTouched(a: map<int, int>, b: map<int, int>, schedule: seq<seq<Event>>, i: nat, j: nat, value: int)
    requires Agree(a, b, schedule) && i < |schedule| && j < |schedule[i]|
    ensures schedule[i][j].Prioritise? ==> Agree(a[schedule[i][j].piece := value], b, schedule)
  {
  }

  lemma AgreeAll(a: map<int, int>, b: map<int, int>)
    ensures Agree(a, b, []) ==> a == b
  {
    if Agree(a, b, []) {
      forall p
        ensures (p in a <==> p in b) && (p in a ==> a[p] == b[p])
      {
        assert Untouched([], p);
      }
    }
  }

  ghost predicate CacheTrue(layout: Layout, cache: Cache)
    requires layout.Valid()
  {
    forall p :: p in cache ==> layout.IsPiece(p) && cache[p].buffer == layout.PieceBytes(p)
  }

  /** Bytes of the listed pieces that are not owned, a piece counted once for each mention. */
  ghost function Missing(layout: Layout, pieces: seq<int>, owned: set<int>): (n: int)
    requires layout.Valid() && forall p :: p in pieces ==> layout.IsPiece(p)
    ensures 0 <= n
  {
    if pieces == [] then 0
    else (if pieces[0] in owned then 0 else layout.PieceSize(pieces[0])) + Missing(layout, pieces[1..], owned)
  }

  /** Bytes received of the listed pieces according to a download queue. */
  function Received(pieces: seq<int>, queue: seq<QueueEntry>): int {
    if queue == [] then 0
    else (if queue[0].piece in pieces then Sum(queue[0].blocks) else 0) + Received(pieces, queue[1..])
  }

  class Torrent {
    const layout: Layout

    // State behind the handle.
    var owned: set<int>
    var priorities: map<int, int>
    var deadlines: map<int, int>
    var queue: seq<QueueEntry>
    var requested: seq<int>

    // State of the torrent itself.
    var mPieces: Cache
    var mPaused: bool
    var mClosed: bool

    // The clock, the polling sleeps taken so far, and what other threads are going to do.
    var now: int
    var sleeps: nat
    var schedule: seq<seq<Event>>

    ghost predicate CacheValid()
      reads this`mPieces
      requires layout.Valid()
    {
      CacheTrue(layout, mPieces)
    }

    ghost predicate QueueAndOwnershipValid()
      reads this`owned, this`queue
      requires layout.Valid()
    {
      && (forall p :: p in owned ==> layout.IsPiece(p))
      && QueueValid(layout, owned, queue)
    }

    ghost predicate PrioritiesValid()
      reads this`priorities
      requires layout.Valid()
    {
      && (forall p :: p in priorities <==> layout.IsPiece(p))
      && (forall p :: p in priorities ==> 0 <= priorities[p] <= TOP_PRIORITY)
    }

    ghost predicate ScheduleValid()
      reads this`schedule
      requires layout.Valid()
    {
      AllTruthful(layout, schedule)
    }

    ghost predicate Valid()
      reads this
    {
      layout.Valid() && CacheValid() && QueueAndOwnershipValid() && PrioritiesValid() && ScheduleValid()
    }

    ghost function Said(): Handle
      reads this`owned, this`queue
    {
      Handle(owned, queue)
    }

    /** The pieces that are owned and cached. */
    ghost function Ready(): set<int>
      reads this`owned, this`mPieces
    {
      owned * mPieces.Keys
    }

    /** Time does not go back, ownership is never lost and a closed torrent stays closed. */
    twostate predicate Moved()
      reads this
    {
      && Valid()
      && old(owned) <= owned
      && old(now) <= now
      && (old(mClosed) ==> mClosed)
      && priorities.Keys == old(priorities).Keys
    }

    /** Other threads have gone on with their schedule, and done nothing it does not hold. */
    twostate predicate Advanced()
      reads this
    {
      && Moved()
      && |schedule| <= |old(schedule)|
      && Remains(old(schedule), schedule)
      && (NoCleanups(old(schedule)) ==> NoCleanups(schedule) && old(mPieces).Keys <= mPieces.Keys)
      && (NoPauses(old(schedule)) ==> NoPauses(schedule) && mPaused == old(mPaused))
      && (old(schedule) == [] ==> schedule == [] && owned == old(owned) && mPieces.Keys == old(mPieces).Keys)
    }

    /** Priorities and deadlines changed at most as other threads' schedule says. */
    twostate predicate PrioritiesKept()
      reads this
    {
      Agree(priorities, old(priorities), old(schedule)) && Agree(deadlines, old(deadlines), old(schedule))
    }

    twostate lemma NothingDone()
      requires Valid() && unchanged(this)
      ensures Advanced() && PrioritiesKept()
    {
      SameTables(schedule, priorities, deadlines);
    }

    constructor (layout: Layout, owned: set<int>, now: int, schedule: seq<seq<Event>>, priorities: map<int, int>)
      requires layout.Valid()
      requires forall p :: p in owned ==> layout.IsPiece(p)
      requires forall p :: p in priorities <==> layout.IsPiece(p)
      requires forall p :: p in priorities ==> 0 <= priorities[p] <= TOP_PRIORITY
      requires AllTruthful(layout, schedule)
      ensures Valid() && this.layout == layout && this.owned == owned && this.schedule == schedule
      ensures this.priorities == priorities && mPieces == map[] && !mPaused && !mClosed
    {
      this.layout, this.owned, this.now, this.schedule := layout, owned, now, schedule;
      this.priorities, deadlines, queue, requested := priorities, map[], [], [];
      mPieces, mPaused, mClosed, sleeps := map[], false, false, 0;
    }

    /** One step of another thread. */
    method Step(e: Event)
      requires Valid() && Truthful(layout, e)
      modifies `mPieces, `owned, `queue, `mPaused, `mClosed, `now, `priorities, `deadlines
      ensures Moved()
      ensures mPieces == ApplyToCache(old(mPieces), old(now), e)
      ensures !e.Cleanup? ==> old(mPieces).Keys <= mPieces.Keys
      ensures now == if e.Tick? then old(now) + e.elapsed else old(now)
      ensures Said() == Applied(layout, old(Said()), e)
      ensures mClosed == (old(mClosed) || e.Close?)
      ensures mPaused == (e.Pause? || (old(mPaused) && !e.Resume?))
      ensures priorities == if e.Prioritise? then old(priorities)[e.piece := e.priority] else old(priorities)
      ensures deadlines == if e.Prioritise? && e.deadline.Some? then old(deadlines)[e.piece := e.deadline.value]
                           else old(deadlines)
    {
      hide CacheValid, QueueAndOwnershipValid, PrioritiesValid, ScheduleValid;
      match e
      case Tick(elapsed) => now := now + elapsed;
      case Store(p, buffer) => StorePiece(p, buffer);
      case Touch(p) => if p in mPieces { var _ := UsePiece(p); }
      case Cleanup(age, expiration) => CleanupPieces(now - age, expiration);
      case Finish(p) => FinishPiece(p);
      case Download(q) => ChangeQueue(q);
      case Prioritise(p, priority, deadline) =>
        SetPriority(p, priority);
        deadlines := if deadline.Some? then deadlines[p := deadline.value] else deadlines;
      case Pause => mPaused := true;
      case Resume => mPaused := false;
      case Close => mClosed := true;
    }

    /** The download queue is whatever the handle says, as long as it keeps its promises. */
    method ChangeQueue(q: seq<QueueEntry>)
      requires Valid()
      modifies `queue
      ensures Valid() && Said() == Applied(layout, old(Said()), Download(q))
    {
      if QueueValid(layout, owned, q) {
        queue := q;
      }
    }

    method SetPriority(p: int, priority: int)
      requires Valid() && layout.IsPiece(p) && 0 <= priority <= TOP_PRIORITY
      modifies `priorities
      ensures Valid() && priorities == old(priorities)[p := priority] && priorities.Keys == old(priorities).Keys
    {
      priorities := priorities[p := priority];
    }

    method FinishPiece(p: int)
      requires Valid() && layout.IsPiece(p)
      modifies `owned, `queue
      ensures Valid() && Said() == Applied(layout, old(Said()), Finish(p))
    {
      hide CacheValid, PrioritiesValid, ScheduleValid;
      owned, queue := owned + {p}, Completed(queue, p);
    }

    method StorePiece(p: int, buffer: seq<byte>)
      requires Valid() && layout.IsPiece(p) && buffer == layout.PieceBytes(p)
      modifies `mPieces
      ensures Valid() && mPieces == old(mPieces)[p := PieceData(buffer, now)]
    {
      mPieces := mPieces[p := PieceData(buffer, now)];
    }

    /** Erases while iterating: exactly the expired entries go. */
    method CleanupPieces(seen: int, expiration: int)
      requires Valid()
      modifies `mPieces
      ensures Valid() && mPieces == Cleaned(old(mPieces), seen, expiration)
    {
      var todo := mPieces.Keys;
      while todo != {}
        invariant todo <= mPieces.Keys
        invariant mPieces == map p | p in old(mPieces) && (p in todo || !Expired(old(mPieces)[p], seen, expiration))
                                   :: old(mPieces)[p]
        decreases |todo|
      {
        NonEmptySet(todo);
        var p :| p in todo;
        if Expired(mPieces[p], seen, expiration) {
          mPieces := mPieces - {p};
        }
        todo := todo - {p};
      }
    }

    /** Lets other threads take their next batch of steps. */
    method Yield()
      requires Valid()
      modifies `mPieces, `owned, `queue, `mPaused, `mClosed, `now, `schedule, `priorities, `deadlines
      ensures Advanced() && PrioritiesKept()
      ensures old(schedule) == [] ==> unchanged(this)
      ensures old(schedule) != [] ==>
                schedule == old(schedule)[1..] && Said() == AfterBatch(layout, old(Said()), old(schedule)[0])
    {
      if schedule == [] {
        return;
      }
      var batch := schedule[0];
      schedule := schedule[1..];
      FirstBatch(old(schedule));
      assert forall i :: 0 <= i < |batch| ==> Truthful(layout, batch[i]);
      assert Valid();
      SameTables(old(schedule), priorities, deadlines);
      hide CacheValid, QueueAndOwnershipValid, PrioritiesValid, ScheduleValid, Truthful, Applied, ApplyToCache, Agree;
      for i := 0 to |batch|
        invariant Advanced() && PrioritiesKept() && schedule == old(schedule)[1..]
        invariant Said() == AfterBatch(layout, old(Said()), batch[..i])
      {
        assert batch[i] == old(schedule)[0][i];
        assert batch[..i + 1][..i] == batch[..i];
        AgreeTouched(priorities, old(priorities), old(schedule), 0, i,
                     if batch[i].Prioritise? then batch[i].priority else 0);
        AgreeTouched(deadlines, old(deadlines), old(schedule), 0, i,
                     if batch[i].Prioritise? && batch[i].deadline.Some? then batch[i].deadline.value else 0);
        Step(batch[i]);
      }
      assert batch[..|batch|] == batch;
    }

    /** `Yield` after other steps: what held of the steps so far goes on holding. */
    method YieldAgain(ghost start: seq<seq<Event>>, ghost first: map<int, int>, ghost due: map<int, int>)
      requires Valid() && Remains(start, schedule) && Agree(priorities, first, start) && Agree(deadlines, due, start)
      modifies `mPieces, `owned, `queue, `mPaused, `mClosed, `now, `schedule, `priorities, `deadlines
      ensures Advanced() && Remains(start, schedule)
      ensures Agree(priorities, first, start) && Agree(deadlines, due, start)
      ensures old(schedule) == [] ==> unchanged(this)
      ensures old(schedule) != [] ==> schedule == old(schedule)[1..]
    {
      ghost var before, priorities', deadlines' := schedule, priorities, deadlines;
      Yield();
      AgreeLater(priorities', first, priorities, start, before);
      AgreeLater(deadlines', due, deadlines, start, before);
    }

    /** `Yield` in the course of an operation that began with what the handle said `first`. */
    method YieldOn(ghost first: Handle, ghost whole: seq<seq<Event>>)
      requires Valid() && Followed(layout, first, whole, Said(), schedule)
      modifies `mPieces, `owned, `queue, `mPaused, `mClosed, `now, `schedule, `priorities, `deadlines
      ensures Advanced() && Followed(layout, first, whole, Said(), schedule) && Remains(whole, schedule)
    {
      hide Followed, Untouched, NoCleanups, NoPauses, Agree;
      hide CacheValid, QueueAndOwnershipValid, PrioritiesValid, ScheduleValid;
      if schedule != [] {
        FollowedStep(layout, first, whole, Said(), schedule);
      }
      Yield();
      FollowedMeans(layout, first, whole, Said(), schedule);
    }

    method WaitForPiece(p: int, until: Option<int>) returns (o: Outcome<()>)
      requires Valid() && layout.IsPiece(p)
      modifies `mPieces, `owned, `queue, `mPaused, `mClosed, `now, `schedule, `priorities, `deadlines, `sleeps
      ensures Advanced() && PrioritiesKept() && sleeps >= old(sleeps)
      ensures p in old(owned) ==> o.Ok?
      ensures p in old(owned) || old(schedule) == [] ==> unchanged(this)
      ensures o.Ok? ==> p in owned
      ensures !o.Ok? ==> p !in owned
      ensures o.Threw? ==> match o.error
                           case TorrentClosed => mClosed
                           case TorrentPaused => mPaused && !mClosed
                           case TimeoutReached => !mPaused && !mClosed && until.Some? && now >= until.value
                           case _ => false
      ensures o.Blocked? ==> schedule == [] && !mPaused && !mClosed && (until.Some? ==> now < until.value)
    {
      hide Agree, Remains, NoCleanups, NoPauses;
      SameTables(schedule, priorities, deadlines);
      while p !in owned
        invariant Advanced() && PrioritiesKept() && sleeps >= old(sleeps)
        invariant p in old(owned) || old(schedule) == [] ==> unchanged(this)
        decreases |schedule|
      {
        if mClosed {
          return Threw(TorrentClosed);
        }
        if mPaused {
          return Threw(TorrentPaused);
        }
        if until.Some? && now >= until.value {
          return Threw(TimeoutReached);
        }
        if schedule == [] {
          return Blocked;
        }
        sleeps := sleeps + 1;
        YieldAgain(old(schedule), old(priorities), old(deadlines));
      }
      return Ok(());
    }

    /** A piece found in the cache is stamped with the time. */
    method UsePiece(p: int) returns (data: PieceData)
      requires Valid() && p in mPieces
      modifies `mPieces
      ensures Valid() && data == old(mPieces)[p].(readAt := now)
      ensures mPieces == old(mPieces)[p := data] && mPieces.Keys == old(mPieces).Keys
      ensures layout.IsPiece(p) && data.buffer == layout.PieceBytes(p)
    {
      mPieces := mPieces[p := mPieces[p].(readAt := now)];
      return mPieces[p];
    }

    method ReadScheduledPiece(p: int, until: Option<int>) returns (o: Outcome<PieceData>)
      requires Valid() && layout.IsPiece(p)
      modifies `mPieces, `owned, `queue, `mPaused, `mClosed, `now, `schedule, `priorities, `deadlines
      ensures Advanced() && PrioritiesKept()
      ensures o.Ok? ==> p in mPieces && mPieces[p] == o.value && o.value.readAt == now
      ensures o.Ok? ==> o.value.buffer == layout.PieceBytes(p)
      ensures !o.Ok? ==> p !in mPieces
      ensures o.Threw? ==> o.error == TimedOutWaiting && until.Some? && now >= until.value
      ensures o.Blocked? ==> schedule == [] && (until.Some? ==> now < until.value)
    {
      hide Agree, Remains, NoCleanups, NoPauses;
      hide CacheValid, QueueAndOwnershipValid, PrioritiesValid, ScheduleValid;
      Yield();
      while p !in mPieces
        invariant Advanced() && PrioritiesKept()
        decreases |schedule|
      {
        if until.Some? && now >= until.value {
          return Threw(TimedOutWaiting);
        }
        if schedule == [] {
          return Blocked;
        }
        YieldAgain(old(schedule), old(priorities), old(deadlines));
      }
      var data := UsePiece(p);
      return Ok(data);
    }

    /** A cached piece is returned at once; another is asked of the handle, then waited for. */
    method ReadPiece(p: int, until: Option<int>) returns (o: Outcome<PieceData>)
      requires Valid() && layout.IsPiece(p)
      modifies `mPieces, `owned, `queue, `mPaused, `mClosed, `now, `schedule, `priorities, `deadlines, `requested
      ensures Advanced() && PrioritiesKept()
      ensures o.Ok? ==> p in mPieces && mPieces[p] == o.value && o.value.readAt == now
      ensures o.Ok? ==> o.value.buffer == layout.PieceBytes(p)
      ensures requested == old(requested) || (requested == old(requested) + [p])
      ensures !o.Ok? ==> p !in mPieces && requested == old(requested) + [p]
      ensures o.Threw? ==> o.error == TimedOutWaiting && until.Some? && now >= until.value
      ensures o.Blocked? ==> schedule == [] && (until.Some? ==> now < until.value)
    {
      hide Agree, Untouched, NoCleanups, NoPauses;
      hide CacheValid, QueueAndOwnershipValid, PrioritiesValid, ScheduleValid;
      Yield();
      if p in mPieces {
        var data := UsePiece(p);
        return Ok(data);
      }
      requested := requested + [p];
      ghost var before, priorities', deadlines' := schedule, priorities, deadlines;
      o := ReadScheduledPiece(p, until);
      AgreeLater(priorities', old(priorities), priorities, old(schedule), before);
      AgreeLater(deadlines', old(deadlines), deadlines, old(schedule), before);
    }

    /** One round of the loop below: what is counted lies between what is missing now and at the beginning. */
    method AddIfMissing(pieces: seq<int>, i: nat, missing: int, ghost first: Handle, ghost whole: seq<seq<Event>>)
      returns (more: int)
      requires Valid() && i < |pieces| && forall p :: p in pieces ==> layout.IsPiece(p)
      requires Followed(layout, first, whole, Said(), schedule) && first.owned <= owned
      requires Missing(layout, pieces[..i], owned) <= missing <= Missing(layout, pieces[..i], first.owned)
      modifies `mPieces, `owned, `queue, `mPaused, `mClosed, `now, `schedule, `priorities, `deadlines
      ensures Advanced() && Followed(layout, first, whole, Said(), schedule) && Remains(whole, schedule)
      ensures Missing(layout, pieces[..i + 1], owned) <= more <= Missing(layout, pieces[..i + 1], first.owned)
    {
      hide Agree, Remains, Followed, NoCleanups, NoPauses, Missing;
      hide CacheValid, QueueAndOwnershipValid, PrioritiesValid, ScheduleValid;
      ghost var before := owned;
      YieldOn(first, whole);
      more := missing;
      if pieces[i] !in owned {
        more := more + layout.PieceSize(pieces[i]);
      }
      assert pieces[..i + 1] == pieces[..i] + [pieces[i]];
      MissingAppend(layout, pieces[..i], pieces[i], owned);
      MissingAppend(layout, pieces[..i], pieces[i], first.owned);
      MissingAntitone(layout, pieces[..i], before, owned);
    }

    method GetBytesMissing(pieces: seq<int>) returns (missing: int)
      requires Valid() && forall p :: p in pieces ==> layout.IsPiece(p)
      modifies `mPieces, `owned, `queue, `mPaused, `mClosed, `now, `schedule, `priorities, `deadlines
      ensures Advanced() && Followed(layout, old(Said()), old(schedule), Said(), schedule)
      ensures 0 <= missing <= Missing(layout, pieces, old(owned))
      ensures Missing(layout, pieces, owned) - Received(pieces, queue) <= missing
      ensures owned == old(owned) ==> missing == Missing(layout, pieces, owned) - Received(pieces, queue)
      ensures missing == 0 ==> forall p :: p in pieces ==> p in owned || FullyReceived(layout, p, queue)
    {
      hide Agree, Remains, Followed, NoCleanups, NoPauses, Received, FullyReceived;
      hide CacheValid, PrioritiesValid, ScheduleValid;
      ghost var first, whole := Said(), schedule;
      missing := 0;
      NothingDone();
      FollowedFirst(layout, first, whole);
      for i := 0 to |pieces|
        invariant Advanced() && Followed(layout, first, whole, Said(), schedule)
        invariant Missing(layout, pieces[..i], owned) <= missing <= Missing(layout, pieces[..i], first.owned)
      {
        missing := AddIfMissing(pieces, i, missing, first, whole);
      }
      assert pieces[..|pieces|] == pieces;
      if missing > 0 {
        ghost var before := owned;
        YieldOn(first, whole);
        MissingAntitone(layout, pieces, before, owned);
        var received := GetBytesReceived(pieces);
        missing := missing - received;
      }
      ReceivedAtMostMissing(layout, pieces, owned, queue);
      if missing == 0 {
        NothingMissing(layout, pieces, owned, queue);
      }
    }

    method GetBytesReceived(pieces: seq<int>) returns (received: int)
      ensures received == Received(pieces, queue)
    {
      received := 0;
      for i := 0 to |queue|
        invariant received == Received(pieces, queue[..i])
      {
        assert queue[..i + 1] == queue[..i] + [queue[i]];
        ReceivedAppend(pieces, queue[..i], queue[i]);
        if queue[i].piece in pieces {
          var blocks := queue[i].blocks;
          for k := 0 to |blocks|
            invariant received == Received(pieces, queue[..i]) + Sum(blocks[..k])
          {
            assert blocks[..k + 1] == blocks[..k] + [blocks[k]];
            SumAppend(blocks[..k], [blocks[k]]);
            received := received + blocks[k];
          }
          assert blocks[..|blocks|] == blocks;
        }
      }
      assert queue[..|queue|] == queue;
    }
  }

  ghost predicate FullyReceived(layout: Layout, p: int, queue: seq<QueueEntry>)
    requires layout.Valid() && layout.IsPiece(p)
  {
    exists q :: q in queue && q.piece == p && Sum(q.blocks) == layout.PieceSize(p)
  }

  lemma {:induction false} MissingAppend(layout: Layout, pieces: seq<int>, p: int, owned: set<int>)
    requires layout.Valid() && layout.IsPiece(p) && forall p :: p in pieces ==> layout.IsPiece(p)
    ensures Missing(layout, pieces + [p], owned)
         == Missing(layout, pieces, owned) + if p in owned then 0 else layout.PieceSize(p)
  {
    if pieces != [] {
      MissingAppend(layout, pieces[1..], p, owned);
      assert (pieces + [p])[1..] == pieces[1..] + [p];
    }
  }

  lemma {:induction false} MissingAntitone(layout: Layout, pieces: seq<int>, owned: set<int>, more: set<int>)
    requires layout.Valid() && owned <= more && forall p :: p in pieces ==> layout.IsPiece(p)
    ensures Missing(layout, pieces, more) <= Missing(layout, pieces, owned)
  {
    if pieces != [] {
      MissingAntitone(layout, pieces[1..], owned, more);
    }
  }

  /** Owning one more listed piece takes at least its size off what is missing. */
  lemma {:induction false} MissingDrops(layout: Layout, pieces: seq<int>, owned: set<int>, p: int)
    requires layout.Valid() && p in pieces && p !in owned && forall p :: p in pieces ==> layout.IsPiece(p)
    ensures Missing(layout, pieces, owned) >= layout.PieceSize(p) + Missing(layout, pieces, owned + {p})
  {
    if pieces[0] == p {
      MissingAntitone(layout, pieces[1..], owned, owned + {p});
    } else {
      MissingDrops(layout, pieces[1..], owned, p);
    }
  }

  lemma {:induction false} ReceivedAppend(pieces: seq<int>, queue: seq<QueueEntry>, q: QueueEntry)
    ensures Received(pieces, queue + [q])
         == Received(pieces, queue) + if q.piece in pieces then Sum(q.blocks) else 0
  {
    if queue != [] {
      ReceivedAppend(pieces, queue[1..], q);
      assert (queue + [q])[1..] == queue[1..] + [q];
    }
  }

  /** Received bytes never exceed the missing ones, even when a piece is listed twice. */
  lemma {:induction false} ReceivedAtMostMissing(layout: Layout, pieces: seq<int>, owned: set<int>,
                                                 queue: seq<QueueEntry>)
    requires layout.Valid() && forall p :: p in pieces ==> layout.IsPiece(p)
    requires QueueValid(layout, owned, queue)
    ensures 0 <= Received(pieces, queue) <= Missing(layout, pieces, owned)
    decreases |queue|
  {
    if queue != [] {
      var p := queue[0].piece;
      SumNonNegative(queue[0].blocks);
      if p in pieces {
        MissingDrops(layout, pieces, owned, p);
        ReceivedAtMostMissing(layout, pieces, owned + {p}, queue[1..]);
      } else {
        ReceivedAtMostMissing(layout, pieces, owned, queue[1..]);
      }
    }
  }

  lemma {:induction false} SumNonNegative(s: seq<int>)
    requires forall i :: 0 <= i < |s| ==> 0 <= s[i]
    ensures 0 <= Sum(s)
  {
    if s != [] {
      SumNonNegative(s[1..]);
    }
  }

  lemma {:induction false} ReceivedSplit(pieces: seq<int>, queue: seq<QueueEntry>, k: nat)
    requires Distinct(queue) && k < |queue| && queue[k].piece in pieces
    ensures Received(pieces, queue) == Sum(queue[k].blocks) + Received(pieces, Completed(queue, queue[k].piece))
  {
    if k == 0 {
      CompletedWithout(queue[1..], queue[0].piece);
    } else {
      ReceivedSplit(pieces, queue[1..], k - 1);
    }
  }

  lemma {:induction false} CompletedWithout(queue: seq<QueueEntry>, p: int)
    requires Without(queue, p)
    ensures Completed(queue, p) == queue
  {
    if queue != [] {
      CompletedWithout(queue[1..], p);
    }
  }

  /** Nothing missing after the received bytes are taken off means every piece is owned or fully received. */
  lemma NothingMissing(layout: Layout, pieces: seq<int>, owned: set<int>, queue: seq<QueueEntry>)
    requires layout.Valid() && forall p :: p in pieces ==> layout.IsPiece(p)
    requires QueueValid(layout, owned, queue)
    requires Missing(layout, pieces, owned) <= Received(pieces, queue)
    ensures forall p :: p in pieces ==> p in owned || FullyReceived(layout, p, queue)
  {
    forall p | p in pieces && p !in owned
      ensures FullyReceived(layout, p, queue)
    {
      MissingDrops(layout, pieces, owned, p);
      if Without(queue, p) {
        ReceivedAtMostMissing(layout, pieces, owned + {p}, queue);
      } else {
        var k :| 0 <= k < |queue| && queue[k].piece == p;
        ReceivedSplit(pieces, queue, k);
        ReceivedAtMostMissing(layout, pieces, owned + {p}, Completed(queue, p));
        assert queue[k] in queue;
      }
    }
  }

  // ------------------------------------------------------------------------------------------
  // What these numbers count.

  /** Each byte of a listed piece's blocks counts once, and no byte of another piece does. */
  lemma {:induction false} EachByteCounts(pieces: seq<int>, queue: seq<QueueEntry>, k: nat, i: nat, bytes: int)
    requires k < |queue| && i < |queue[k].blocks|
    ensures var entry := queue[k].(blocks := queue[k].blocks[i := bytes]);
            Received(pieces, queue[k := entry])
            == Received(pieces, queue) + if queue[k].piece in pieces then bytes - queue[k].blocks[i] else 0
    ensures Received(pieces, []) == 0
  {
    var entry := queue[k].(blocks := queue[k].blocks[i := bytes]);
    if k == 0 {
      SumUpdate(queue[0].blocks, i, bytes);
      assert queue[0 := entry][1..] == queue[1..];
    } else {
      EachByteCounts(pieces, queue[1..], k - 1, i, bytes);
      assert queue[k := entry][1..] == queue[1..][k - 1 := entry];
    }
  }

  lemma {:induction false} SumUpdate(s: seq<int>, i: nat, value: int)
    requires i < |s|
    ensures Sum(s[i := value]) == Sum(s) - s[i] + value
  {
    if i > 0 {
      SumUpdate(s[1..], i - 1, value);
      assert s[i := value][1..] == s[1..][i - 1 := value];
    }
  }

  ghost predicate NoRepeats(pieces: seq<int>) {
    forall i, j :: 0 <= i < j < |pieces| ==> pieces[i] != pieces[j]
  }

  /** The offsets of the torrent whose piece is listed and not owned. */
  ghost function BytesOf(layout: Layout, pieces: seq<int>, owned: set<int>): set<int>
    requires layout.Valid()
  {
    set x | 0 <= x < |layout.data| && PieceAt(x, layout.pieceLength) in pieces
            && PieceAt(x, layout.pieceLength) !in owned
  }

  /** What counts as missing is the number of bytes of the torrent in listed pieces that are not owned. */
  lemma {:induction false} MissingIsBytes(layout: Layout, pieces: seq<int>, owned: set<int>)
    requires layout.Valid() && NoRepeats(pieces) && forall p :: p in pieces ==> layout.IsPiece(p)
    ensures Missing(layout, pieces, owned) == |BytesOf(layout, pieces, owned)|
  {
    if pieces == [] {
      assert BytesOf(layout, pieces, owned) == {};
    } else {
      var p, rest := pieces[0], pieces[1..];
      MissingIsBytes(layout, rest, owned);
      PieceHasBytes(layout, p, owned);
      BytesOfFirst(layout, pieces, owned);
      hide BytesOf, PieceAt, NoRepeats, layout.PieceSize, layout.IsPiece;
    }
  }

  lemma BytesOfFirst(layout: Layout, pieces: seq<int>, owned: set<int>)
    requires layout.Valid() && NoRepeats(pieces) && pieces != []
    ensures var own, others := BytesOf(layout, [pieces[0]], owned), BytesOf(layout, pieces[1..], owned);
            own !! others && BytesOf(layout, pieces, owned) == own + others
  {
    hide PieceAt;
    assert pieces == [pieces[0]] + pieces[1..];
    assert pieces[0] !in pieces[1..];
    hide NoRepeats;
  }

  lemma PieceHasBytes(layout: Layout, p: int, owned: set<int>)
    requires layout.Valid() && layout.IsPiece(p)
    ensures |BytesOf(layout, [p], owned)| == if p in owned then 0 else layout.PieceSize(p)
  {
    hide PieceAt;
    var d, size := layout.pieceLength, layout.PieceSize(p);
    if p in owned {
      assert BytesOf(layout, [p], owned) == {};
    } else {
      PieceIsSlice(layout, p);
      var start := Start(p, d);
      forall x | 0 <= x < |layout.data|
        ensures PieceAt(x, d) == p <==> start <= x < start + size
      {
        ByteInPiece(layout, x);
        if start <= x < start + size {
          StartUnique(x, p, PieceAt(x, d), d);
        }
      }
      assert BytesOf(layout, [p], owned) == Interval(start, size);
    }
  }

  ghost function Interval(start: int, n: nat): (s: set<int>)
    ensures |s| == n && forall x :: x in s <==> start <= x < start + n
  {
    if n == 0 then {} else Interval(start, n - 1) + {start + n - 1}
  }

  /** Owning one more piece takes its size off what is missing, once for each time it is listed. */
  lemma {:induction false} MissingTimes(layout: Layout, pieces: seq<int>, owned: set<int>, p: int)
    requires layout.Valid() && p !in owned && layout.IsPiece(p) && forall p :: p in pieces ==> layout.IsPiece(p)
    ensures Missing(layout, pieces, owned)
         == multiset(pieces)[p] * layout.PieceSize(p) + Missing(layout, pieces, owned + {p})
  {
    hide layout.PieceSize, layout.IsPiece;
    if pieces != [] {
      MissingTimes(layout, pieces[1..], owned, p);
      TimesFirst(pieces, p);
      OnceMore(multiset(pieces[1..])[p], layout.PieceSize(p));
    }
  }

  lemma TimesFirst(pieces: seq<int>, p: int)
    requires pieces != []
    ensures multiset(pieces)[p] == multiset(pieces[1..])[p] + if pieces[0] == p then 1 else 0
  {
    assert pieces == [pieces[0]] + pieces[1..];
  }

  lemma OnceMore(m: nat, size: int)
    ensures (m + 1) * size == m * size + size
  {
  }

  lemma {:induction false} NothingMissingOwned(layout: Layout, pieces: seq<int>, owned: set<int>)
    requires layout.Valid() && forall p :: p in pieces ==> layout.IsPiece(p) && p in owned
    ensures Missing(layout, pieces, owned) == 0
  {
    if pieces != [] {
      NothingMissingOwned(layout, pieces[1..], owned);
    }
  }

  lemma {:induction false} CompletedKeeps(queue: seq<QueueEntry>, p: int, q: QueueEntry)
    requires q in queue && q.piece != p
    ensures q in Completed(queue, p)
  {
    if queue[0] != q {
      CompletedKeeps(queue[1..], p, q);
    }
  }

  /** Owned, or listed once and all there in the download queue. */
  ghost predicate Settled(layout: Layout, pieces: seq<int>, owned: set<int>, queue: seq<QueueEntry>) {
    && layout.Valid()
    && forall p :: p in pieces ==>
         layout.IsPiece(p) && (p in owned || (multiset(pieces)[p] == 1 && FullyReceived(layout, p, queue)))
  }

  lemma {:induction false} SettledMeansNothingMissing(layout: Layout, pieces: seq<int>, owned: set<int>,
                                                      queue: seq<QueueEntry>)
    requires layout.Valid() && QueueValid(layout, owned, queue) && Settled(layout, pieces, owned, queue)
    ensures Missing(layout, pieces, owned) == Received(pieces, queue)
    decreases |queue|
  {
    if forall p :: p in pieces ==> p in owned {
      NothingMissingOwned(layout, pieces, owned);
      ReceivedAtMostMissing(layout, pieces, owned, queue);
    } else {
      var p :| p in pieces && p !in owned;
      var k :| 0 <= k < |queue| && queue[k].piece == p && Sum(queue[k].blocks) == layout.PieceSize(p);
      var rest := Completed(queue, p);
      ReceivedSplit(pieces, queue, k);
      MissingTimes(layout, pieces, owned, p);
      SettledWithout(layout, pieces, owned, queue, p);
      CompletedShorter(queue, p, k);
      SettledMeansNothingMissing(layout, pieces, owned + {p}, rest);
    }
  }

  lemma {:induction false} CompletedShorter(queue: seq<QueueEntry>, p: int, k: nat)
    requires k < |queue| && queue[k].piece == p
    ensures |Completed(queue, p)| < |queue|
  {
    NoLonger(queue[1..], p);
    if k > 0 {
      CompletedShorter(queue[1..], p, k - 1);
    }
  }

  lemma {:induction false} NoLonger(queue: seq<QueueEntry>, p: int)
    ensures |Completed(queue, p)| <= |queue|
  {
    if queue != [] {
      NoLonger(queue[1..], p);
    }
  }

  lemma SettledWithout(layout: Layout, pieces: seq<int>, owned: set<int>, queue: seq<QueueEntry>, p: int)
    requires layout.Valid() && QueueValid(layout, owned, queue) && Settled(layout, pieces, owned, queue)
    ensures QueueValid(layout, owned + {p}, Completed(queue, p))
    ensures Settled(layout, pieces, owned + {p}, Completed(queue, p))
  {
    forall other | other in pieces && other !in owned && other != p
      ensures FullyReceived(layout, other, Completed(queue, p))
    {
      var q :| q in queue && q.piece == other && Sum(q.blocks) == layout.PieceSize(other);
      CompletedKeeps(queue, p, q);
    }
  }

  /**
   * Nothing is missing iff every listed piece is owned, or is listed once and fully received: a piece listed
   * twice counts twice as missing but once as received, so it must be owned.
   */
  lemma NothingMissingIff(layout: Layout, pieces: seq<int>, owned: set<int>, queue: seq<QueueEntry>)
    requires layout.Valid() && QueueValid(layout, owned, queue) && forall p :: p in pieces ==> layout.IsPiece(p)
    ensures Missing(layout, pieces, owned) == Received(pieces, queue) <==> Settled(layout, pieces, owned, queue)
  {
    if Settled(layout, pieces, owned, queue) {
      SettledMeansNothingMissing(layout, pieces, owned, queue);
    } else if Missing(layout, pieces, owned) == Received(pieces, queue) {
      NothingMissing(layout, pieces, owned, queue);
      var p :| p in pieces && p !in owned && multiset(pieces)[p] != 1;
      RepeatedIsMissing(layout, pieces, owned, queue, p);
    }
  }

  /** A piece that is listed more than once and not owned is missing, whatever has been received of it. */
  lemma RepeatedIsMissing(layout: Layout, pieces: seq<int>, owned: set<int>, queue: seq<QueueEntry>, p: int)
    requires layout.Valid() && QueueValid(layout, owned, queue) && forall p :: p in pieces ==> layout.IsPiece(p)
    requires p in pieces && p !in owned && multiset(pieces)[p] > 1
    ensures Missing(layout, pieces, owned) > Received(pieces, queue)
  {
    var m, size := multiset(pieces)[p], layout.PieceSize(p);
    MissingTimes(layout, pieces, owned, p);
    OnceMore(m - 1, size);
    OnceMore(m - 2, size);
    assert m * size >= 2 * size by { TimesAtLeast(m - 2, size); }
    ReceivedOfOne(layout, pieces, owned, queue, p);
  }

  lemma TimesAtLeast(m: nat, size: nat)
    ensures 0 <= m * size
  {
  }

  /** All received bytes but those of one piece are missing bytes of other pieces. */
  lemma ReceivedOfOne(layout: Layout, pieces: seq<int>, owned: set<int>, queue: seq<QueueEntry>, p: int)
    requires layout.Valid() && QueueValid(layout, owned, queue) && forall p :: p in pieces ==> layout.IsPiece(p)
    requires p in pieces
    ensures Received(pieces, queue) <= layout.PieceSize(p) + Missing(layout, pieces, owned + {p})
  {
    if Without(queue, p) {
      ReceivedAtMostMissing(layout, pieces, owned + {p}, queue);
    } else {
      var k :| 0 <= k < |queue| && queue[k].piece == p;
      ReceivedSplit(pieces, queue, k);
      assert queue[k] in queue;
      ReceivedAtMostMissing(layout, pieces, owned + {p}, Completed(queue, p));
    }
  }
}

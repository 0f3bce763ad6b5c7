/**
 * The monitor of a torrent's pieces: readers that sleep until their piece arrives, threads that store
 * pieces and notify, and threads that expire them. Steps are as fine as the mutex and its condition
 * variable make them, and any number of threads may interleave.
 */
module Wakeups {
  import opened Common

  /** A reader has asked for its piece, looks for it under the mutex, or sleeps; `timed` ones may give up. */
  datatype Place = Scheduled | Looking | Asleep | Woken | Served | GaveUp

  datatype Stage = Idle | Holding | Stored | Notified | Done

  datatype Thread =
    | Reader(piece: int, timed: bool, place: Place)
    | Storer(piece: int, stage: Stage)
    | Cleaner(stage: Stage)
  {
    predicate Holds() {
      if Reader? then place == Looking else stage in {Holding, Stored, Notified}
    }

    predicate Sleeps(p: int) {
      Reader? && piece == p && place == Asleep
    }
  }

  datatype State = State(threads: seq<Thread>, cached: set<int>)

  datatype Step =
    | Lock(i: nat)
      // A reader that does not find its piece sleeps, giving up the mutex in the same step, or throws.
    | Look(i: nat, late: bool)
    | Store(i: nat)
    | NotifyAll(i: nat)
    | Unlock(i: nat)
    | Clean(i: nat, kept: set<int>)
      // Sleep ends without a notification: at the deadline, or for no reason.
    | Wake(i: nat)

  predicate Free(s: State) {
    forall i :: 0 <= i < |s.threads| ==> !s.threads[i].Holds()
  }

  predicate Possible(s: State, step: Step) {
    && step.i < |s.threads|
    && var t := s.threads[step.i];
       match step
       case Lock(_) => Free(s) && if t.Reader? then t.place in {Scheduled, Woken} else t.stage == Idle
       case Look(_, late) => t.Reader? && t.place == Looking && (late ==> t.timed)
       case Store(_) => t.Storer? && t.stage == Holding
       case NotifyAll(_) => t.Storer? && t.stage == Stored
       case Unlock(_) => t.Storer? && t.stage == Notified
       case Clean(_, _) => t.Cleaner? && t.stage == Holding
       case Wake(_) => t.Reader? && t.place == Asleep
  }

  function Notify(t: Thread): Thread {
    if t.Reader? && t.place == Asleep then t.(place := Woken) else t
  }

  function NotifyEach(threads: seq<Thread>): (woken: seq<Thread>)
    ensures |woken| == |threads|
    ensures forall i :: 0 <= i < |threads| ==> woken[i] == Notify(threads[i])
  {
    seq(|threads|, i requires 0 <= i < |threads| => Notify(threads[i]))
  }

  function Next(s: State, step: Step): State
    requires Possible(s, step)
  {
    var i, t := step.i, s.threads[step.i];
    match step
    case Lock(_) => s.(threads := s.threads[i := if t.Reader? then t.(place := Looking) else t.(stage := Holding)])
    case Look(_, late) =>
      s.(threads := s.threads[i := t.(place := if t.piece in s.cached then Served
                                               else if late then GaveUp else Asleep)])
    case Store(_) => State(s.threads[i := t.(stage := Stored)], s.cached + {t.piece})
    case NotifyAll(_) => s.(threads := NotifyEach(s.threads)[i := t.(stage := Notified)])
    case Unlock(_) => s.(threads := s.threads[i := t.(stage := Done)])
    case Clean(_, kept) => State(s.threads[i := t.(stage := Done)], s.cached * kept)
    case Wake(_) => s.(threads := s.threads[i := t.(place := Woken)])
  }

  /** Runs, step by step. */
  predicate Run(s: State, steps: seq<Step>, end: State)
    decreases |steps|
  {
    if steps == [] then s == end
    else Possible(s, steps[0]) && Run(Next(s, steps[0]), steps[1..], end)
  }

  /** Threads that have not begun, whatever is cached. */
  predicate Start(s: State) {
    forall i :: 0 <= i < |s.threads| ==>
      if s.threads[i].Reader? then s.threads[i].place == Scheduled else s.threads[i].stage == Idle
  }

  /**
   * At most one thread holds the mutex, and a reader that sleeps while its piece is cached is about to be
   * notified: a thread has stored a piece, still holds the mutex and has not notified yet.
   */
  ghost predicate Inv(s: State) {
    && (forall i, j :: 0 <= i < j < |s.threads| ==> !(s.threads[i].Holds() && s.threads[j].Holds()))
    && ((exists i :: 0 <= i < |s.threads| && Forgotten(s, i)) ==> NotificationPending(s))
  }

  /** The reader sleeps although its piece is cached. */
  predicate Forgotten(s: State, i: nat)
    requires i < |s.threads|
  {
    var t := s.threads[i];
    t.Reader? && t.place == Asleep && t.piece in s.cached
  }

  predicate NotificationPending(s: State) {
    exists j :: 0 <= j < |s.threads| && s.threads[j].Storer? && s.threads[j].stage == Stored
  }

  /** While a reader is about to be notified, only the notification and wake-ups are possible. */
  lemma NotifiedFirst(s: State, step: Step, i: nat)
    requires Inv(s) && Possible(s, step) && i < |s.threads| && Forgotten(s, i)
    ensures step.NotifyAll? || step.Wake?
  {
    var j :| 0 <= j < |s.threads| && s.threads[j].Storer? && s.threads[j].stage == Stored;
    assert s.threads[j].Holds();
  }

  lemma StepKeepsInv(s: State, step: Step)
    requires Inv(s) && Possible(s, step)
    ensures Inv(Next(s, step))
  {
    var s' := Next(s, step);
    if i :| 0 <= i < |s'.threads| && Forgotten(s', i) {
      if step.Store? {
        assert s'.threads[step.i].stage == Stored;
      } else {
        assert Forgotten(s, i);
        NotifiedFirst(s, step, i);
        var j :| 0 <= j < |s.threads| && s.threads[j].Storer? && s.threads[j].stage == Stored;
        assert s'.threads[j].Storer? && s'.threads[j].stage == Stored;
      }
    }
  }

  lemma {:induction false} RunKeepsInv(s: State, steps: seq<Step>, end: State)
    requires Inv(s) && Run(s, steps, end)
    ensures Inv(end)
    decreases |steps|
  {
    if steps != [] {
      StepKeepsInv(s, steps[0]);
      RunKeepsInv(Next(s, steps[0]), steps[1..], end);
    }
  }

  /** No lost wake-up: in every reachable state with the mutex free, no reader sleeps while its piece is cached. */
  lemma NoLostWakeup(s: State, steps: seq<Step>, end: State, i: nat)
    requires Start(s) && Run(s, steps, end) && Free(end) && i < |end.threads|
    ensures !Forgotten(end, i)
  {
    RunKeepsInv(s, steps, end);
  }

  /** So a reader whose piece is cached when the mutex is free needs only to lock and look to be served. */
  lemma ServedNext(s: State, steps: seq<Step>, end: State, i: nat)
    requires Start(s) && Run(s, steps, end) && Free(end)
    requires i < |end.threads| && end.threads[i].Reader? && end.threads[i].piece in end.cached
    requires end.threads[i].place !in {Served, GaveUp}
    ensures Possible(end, Lock(i)) && Possible(Next(end, Lock(i)), Look(i, false))
    ensures Next(Next(end, Lock(i)), Look(i, false)).threads[i].place == Served
    // Also one that looks when its time is over.
    ensures end.threads[i].timed ==>
              && Possible(Next(end, Lock(i)), Look(i, true))
              && Next(Next(end, Lock(i)), Look(i, true)).threads[i].place == Served
  {
    NoLostWakeup(s, steps, end, i);
    assert !end.threads[i].Holds();
  }

  /** The reader's piece is not cached and it has not been served. */
  predicate Waiting(s: State, i: nat) {
    && i < |s.threads| && s.threads[i].Reader? && s.threads[i].piece !in s.cached
    && s.threads[i].place != Served && (s.threads[i].place == GaveUp ==> s.threads[i].timed)
  }

  /** No thread is left that could store the piece: the read of a piece that failed hands nothing over. */
  predicate NoStorer(s: State, piece: int) {
    forall j :: 0 <= j < |s.threads| && s.threads[j].Storer? && s.threads[j].piece == piece ==>
      s.threads[j].stage == Done
  }

  lemma WaitsOn(s: State, step: Step, i: nat)
    requires Waiting(s, i) && NoStorer(s, s.threads[i].piece) && Possible(s, step)
    ensures var s' := Next(s, step);
            Waiting(s', i) && s'.threads[i].piece == s.threads[i].piece && NoStorer(s', s.threads[i].piece)
  {
  }

  /** A reader whose read failed is never served: in every run it goes on waiting, and gives up only if it is timed. */
  lemma {:induction false} FailedReadWaitsOn(s: State, steps: seq<Step>, end: State, i: nat)
    requires Waiting(s, i) && NoStorer(s, s.threads[i].piece) && Run(s, steps, end)
    ensures Waiting(end, i)
    decreases |steps|
  {
    if steps != [] {
      WaitsOn(s, steps[0], i);
      FailedReadWaitsOn(Next(s, steps[0]), steps[1..], end, i);
    }
  }

  predicate IsServed(s: State, i: nat) {
    i < |s.threads| && s.threads[i].Reader? && s.threads[i].place == Served
  }

  /** Some run from here serves the reader. */
  ghost predicate CanBeServed(s: State, i: nat) {
    exists steps, end :: Run(s, steps, end) && IsServed(end, i)
  }

  lemma ServedByRun(s: State, steps: seq<Step>, end: State, i: nat)
    requires Run(s, steps, end) && IsServed(end, i)
    ensures CanBeServed(s, i)
  {
  }

  /**
   * With the mutex free and no thread left to store its piece, a reader still waiting is served in some
   * run iff its piece is cached.
   */
  lemma ServedIffCached(s: State, steps: seq<Step>, end: State, i: nat)
    requires Start(s) && Run(s, steps, end) && Free(end)
    requires i < |end.threads| && end.threads[i].Reader? && end.threads[i].place !in {Served, GaveUp}
    requires NoStorer(end, end.threads[i].piece)
    ensures CanBeServed(end, i) <==> end.threads[i].piece in end.cached
  {
    if end.threads[i].piece in end.cached {
      ServedNext(s, steps, end, i);
      var locked := Next(end, Lock(i));
      var last := Next(locked, Look(i, false));
      hide Next, Possible;
      assert [Look(i, false)][1..] == [] && Run(locked, [Look(i, false)], last);
      assert [Lock(i), Look(i, false)][1..] == [Look(i, false)];
      ServedByRun(end, [Lock(i), Look(i, false)], last, i);
    } else {
      forall more, last | Run(end, more, last)
        ensures !IsServed(last, i)
      {
        FailedReadWaitsOn(end, more, last, i);
      }
    }
  }

  /** A reader of a piece, a thread that stores it, and one that expires pieces. */
  function Three(piece: int, place: Place, storing: Stage, cleaning: Stage, cached: set<int>): State {
    State([Reader(piece, false, place), Storer(piece, storing), Cleaner(cleaning)], cached)
  }

  /** A reader that does not find its piece falls asleep. */
  lemma FallsAsleep(piece: int, place: Place, storing: Stage, cleaning: Stage)
    requires place in {Scheduled, Woken} && storing in {Idle, Done} && cleaning in {Idle, Done}
    ensures Run(Three(piece, place, storing, cleaning, {}), [Lock(0), Look(0, false)],
                Three(piece, Asleep, storing, cleaning, {}))
  {
    var s := Three(piece, Looking, storing, cleaning, {});
    assert Next(Three(piece, place, storing, cleaning, {}), Lock(0)) == s;
    assert Next(s, Look(0, false)) == Three(piece, Asleep, storing, cleaning, {});
    hide Next;
    assert [Lock(0), Look(0, false)][1..] == [Look(0, false)] && [Look(0, false)][1..] == [];
  }

  /** The thread that stores the piece wakes it. */
  lemma IsWoken(piece: int)
    ensures Run(Three(piece, Asleep, Idle, Idle, {}), [Lock(1), Store(1)] + [NotifyAll(1), Unlock(1)],
                Three(piece, Woken, Done, Idle, {piece}))
  {
    var s, t := Three(piece, Asleep, Holding, Idle, {}), Three(piece, Asleep, Stored, Idle, {piece});
    assert Next(Three(piece, Asleep, Idle, Idle, {}), Lock(1)) == s && Next(s, Store(1)) == t;
    var u := Three(piece, Woken, Notified, Idle, {piece});
    assert Next(t, NotifyAll(1)) == u && Next(u, Unlock(1)) == Three(piece, Woken, Done, Idle, {piece});
    hide Next;
    assert [Lock(1), Store(1)][1..] == [Store(1)] && [Store(1)][1..] == [];
    assert [NotifyAll(1), Unlock(1)][1..] == [Unlock(1)] && [Unlock(1)][1..] == [];
    RunThen(Three(piece, Asleep, Idle, Idle, {}), [Lock(1), Store(1)], t, [NotifyAll(1), Unlock(1)],
            Three(piece, Woken, Done, Idle, {piece}));
  }

  lemma Expires(piece: int)
    ensures Run(Three(piece, Woken, Done, Idle, {piece}), [Lock(2), Clean(2, {})], Three(piece, Woken, Done, Done, {}))
  {
    var s := Three(piece, Woken, Done, Holding, {piece});
    assert Next(Three(piece, Woken, Done, Idle, {piece}), Lock(2)) == s;
    assert Next(s, Clean(2, {})) == Three(piece, Woken, Done, Done, {});
    hide Next;
    assert [Lock(2), Clean(2, {})][1..] == [Clean(2, {})] && [Clean(2, {})][1..] == [];
  }

  lemma {:induction false} RunThen(s: State, first: seq<Step>, middle: State, more: seq<Step>, end: State)
    requires Run(s, first, middle) && Run(middle, more, end)
    ensures Run(s, first + more, end)
    decreases |first|
  {
    if first == [] {
      assert first + more == more;
    } else {
      RunThen(Next(s, first[0]), first[1..], middle, more, end);
      assert (first + more)[1..] == first[1..] + more;
    }
  }

  /**
   * A notification can come too late: a piece that expires before the reader it woke has the mutex back
   * leaves that reader asleep again, for good, as the piece is asked for once only.
   */
  lemma ExpiredBeforeLook(piece: int) returns (steps: seq<Step>, end: State)
    ensures var start := State([Reader(piece, false, Scheduled), Storer(piece, Idle), Cleaner(Idle)], {});
            Start(start) && Run(start, steps, end)
    ensures end.threads == [Reader(piece, false, Asleep), Storer(piece, Done), Cleaner(Done)]
    ensures Waiting(end, 0) && NoStorer(end, piece) && forall step :: Possible(end, step) ==> step == Wake(0)
  {
    end := Three(piece, Asleep, Done, Done, {});
    var asleep, woken := Three(piece, Asleep, Idle, Idle, {}), Three(piece, Woken, Done, Idle, {piece});
    var expired := Three(piece, Woken, Done, Done, {});
    hide Run;
    FallsAsleep(piece, Scheduled, Idle, Idle);
    IsWoken(piece);
    Expires(piece);
    FallsAsleep(piece, Woken, Done, Done);
    RunThen(woken, [Lock(2), Clean(2, {})], expired, [Lock(0), Look(0, false)], end);
    RunThen(asleep, [Lock(1), Store(1)] + [NotifyAll(1), Unlock(1)], woken,
            [Lock(2), Clean(2, {})] + [Lock(0), Look(0, false)], end);
    steps := [Lock(1), Store(1)] + [NotifyAll(1), Unlock(1)] + ([Lock(2), Clean(2, {})] + [Lock(0), Look(0, false)]);
    RunThen(Three(piece, Scheduled, Idle, Idle, {}), [Lock(0), Look(0, false)], asleep, steps, end);
    steps := [Lock(0), Look(0, false)] + steps;
  }
}

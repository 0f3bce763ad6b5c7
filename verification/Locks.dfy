/**
 * The mutexes of the service, threads that take them, and why they never wait in a circle.
 * A thread is what is left of its program; any number of threads may interleave.
 */
module Locks {
  import opened Common

  /** One mutex: of the process, of the service, or of one torrent, file or reader. */
  datatype Mutex =
    | Abort
    | Instance
    | Configuration
    | Service
    | Torrents
    | Torrent(id: nat)
    | Files(id: nat)
    | File(id: nat)
    | Reader(id: nat)
    | Pieces(id: nat)
    | Settings

  /** The order in which mutexes are taken; mutexes of one class share a rank. */
  function Rank(m: Mutex): nat {
    match m
    case Abort => 0
    case Instance => 1
    case Configuration => 2
    case Service => 3
    case Torrents => 4
    case Torrent(_) => 5
    case Files(_) => 6
    case File(_) => 7
    case Reader(_) => 8
    case Pieces(_) => 9
    case Settings => 10
  }

  const TOP_RANK := 10

  /** `Wait` releases the mutex, sleeps on its condition variable, and takes the mutex again. */
  datatype Action = Acquire(m: Mutex) | Release(m: Mutex) | Wait(m: Mutex)

  predicate Above(held: set<Mutex>, m: Mutex) {
    forall h :: h in held ==> Rank(h) < Rank(m)
  }

  /** Every mutex is taken above those held, and only the last taken is waited on: the pieces, or abort. */
  predicate Allowed(held: set<Mutex>, a: Action) {
    match a
    case Acquire(m) => Above(held, m)
    case Release(m) => m in held
    case Wait(m) => m in held && Above(held - {m}, m) && (m.Pieces? || m == Abort)
  }

  function HeldAfter(held: set<Mutex>, a: Action): set<Mutex> {
    match a
    case Acquire(m) => held + {m}
    case Release(m) => held - {m}
    case Wait(m) => held
  }

  /** A program that, with some mutexes held, follows the order and ends with none. */
  predicate Ordered(held: set<Mutex>, program: seq<Action>)
    decreases |program|
  {
    if program == [] then held == {}
    else Allowed(held, program[0]) && Ordered(HeldAfter(held, program[0]), program[1..])
  }

  /** `asleep` is the mutex on whose condition variable the thread sleeps. */
  datatype Thread = Thread(held: set<Mutex>, asleep: Option<Mutex>, rest: seq<Action>) {
    predicate Finished() {
      asleep.None? && rest == []
    }

    /** The mutex the thread needs for its next step. */
    function Wants(): Option<Mutex> {
      if asleep.None? && rest != [] && rest[0].Acquire? then Some(rest[0].m) else None
    }

    ghost predicate Valid() {
      && match asleep
         case None => Ordered(held, rest)
         case Some(m) => Ordered(held, [Acquire(m)] + rest) && (m.Pieces? || (m == Abort && held == {}))
    }
  }

  type System = seq<Thread>

  predicate Free(s: System, m: Mutex) {
    forall i :: 0 <= i < |s| ==> m !in s[i].held
  }

  /** Thread `i` can take a step of its own; waking up is not one. */
  predicate CanStep(s: System, i: nat)
    requires i < |s|
  {
    && s[i].asleep.None? && s[i].rest != []
    && (s[i].rest[0].Acquire? ==> Free(s, s[i].rest[0].m))
  }

  /** The next step of a thread: an action of its own, or waking up (notified, timed out, or for no reason). */
  function Stepped(t: Thread): Thread
    requires t.asleep.Some? || t.rest != []
  {
    match t.asleep
    case Some(m) => Thread(t.held, None, [Acquire(m)] + t.rest)
    case None =>
      var a := t.rest[0];
      if a.Wait? then Thread(t.held - {a.m}, Some(a.m), t.rest[1..])
      else Thread(HeldAfter(t.held, a), None, t.rest[1..])
  }

  predicate Possible(s: System, i: nat) {
    i < |s| && (s[i].asleep.Some? || CanStep(s, i))
  }

  /** Runs: a schedule names the thread that takes each step. */
  predicate Run(s: System, schedule: seq<nat>, end: System)
    decreases |schedule|
  {
    if schedule == [] then s == end
    else Possible(s, schedule[0]) && Run(s[schedule[0] := Stepped(s[schedule[0]])], schedule[1..], end)
  }

  /** Threads follow the order, and no mutex is held by two of them. */
  ghost predicate Inv(s: System) {
    && (forall i :: 0 <= i < |s| ==> s[i].Valid())
    && (forall i, j, m :: 0 <= i < |s| && 0 <= j < |s| && m in s[i].held && m in s[j].held ==> i == j)
  }

  lemma StepKeepsInv(s: System, i: nat)
    requires Inv(s) && Possible(s, i)
    ensures Inv(s[i := Stepped(s[i])])
  {
    var t := s[i];
    var s' := s[i := Stepped(t)];
    if t.asleep.None? && t.rest[0].Wait? {
      var m := t.rest[0].m;
      assert ([Acquire(m)] + t.rest[1..])[1..] == t.rest[1..];
      assert t.held - {m} + {m} == t.held;
    }
    assert s'[i].Valid();
  }

  lemma {:induction false} RunKeepsInv(s: System, schedule: seq<nat>, end: System)
    requires Inv(s) && Run(s, schedule, end)
    ensures Inv(end)
    decreases |schedule|
  {
    if schedule != [] {
      StepKeepsInv(s, schedule[0]);
      RunKeepsInv(s[schedule[0] := Stepped(s[schedule[0]])], schedule[1..], end);
    }
  }

  /** Thread `i` waits for a mutex that thread `j` holds. */
  predicate WaitsFor(s: System, i: nat, j: nat) {
    i < |s| && j < |s| && s[i].Wants().Some? && s[i].Wants().value in s[j].held
  }

  predicate Chain(s: System, path: seq<nat>) {
    forall k :: 0 <= k < |path| - 1 ==> WaitsFor(s, path[k], path[k + 1])
  }

  lemma {:induction false} ChainRises(s: System, path: seq<nat>)
    requires Inv(s) && Chain(s, path) && |path| >= 2 && WaitsFor(s, path[0], path[1])
    requires path[|path| - 1] < |s| && s[path[|path| - 1]].Wants().Some?
    ensures Rank(s[path[0]].Wants().value) < Rank(s[path[|path| - 1]].Wants().value)
    decreases |path|
  {
    assert WaitsFor(s, path[0], path[1]);
    assert s[path[1]].Valid();
    if |path| > 2 {
      assert WaitsFor(s, path[1], path[2]);
      forall k | 0 <= k < |path| - 2
        ensures WaitsFor(s, path[1..][k], path[1..][k + 1])
      {
        assert WaitsFor(s, path[k + 1], path[k + 2]);
      }
      ChainRises(s, path[1..]);
    }
  }

  /** No threads wait for each other in a circle. */
  lemma NoCircularWait(s: System, path: seq<nat>)
    requires Inv(s) && Chain(s, path) && |path| >= 2
    ensures path[0] != path[|path| - 1]
  {
    assert WaitsFor(s, path[0], path[1]);
    if path[0] == path[|path| - 1] {
      ChainRises(s, path);
    }
  }

  /**
   * When no thread can step, each unfinished thread waits, directly or through others, for one that
   * sleeps: it sleeps itself, or the chain ends at a reader that sleeps until a piece arrives.
   */
  lemma {:induction false} StuckWaitsForSleeper(s: System, i: nat) returns (path: seq<nat>)
    requires Inv(s) && i < |s| && !s[i].Finished()
    requires forall k: nat :: k < |s| ==> !CanStep(s, k)
    ensures path != [] && path[0] == i && Chain(s, path) && path[|path| - 1] < |s|
    ensures var last := s[path[|path| - 1]].asleep;
            last.Some? && (|path| == 1 || last.value.Pieces?)
    decreases TOP_RANK + 1 - (if s[i].Wants().Some? then Rank(s[i].Wants().value) else TOP_RANK + 1)
  {
    if s[i].asleep.Some? {
      path := [i];
    } else {
      assert !CanStep(s, i);
      var m := s[i].rest[0].m;
      var j :| 0 <= j < |s| && m in s[j].held;
      assert WaitsFor(s, i, j);
      assert s[j].Valid();
      var more := StuckWaitsForSleeper(s, j);
      path := [i] + more;
      forall k | 0 <= k < |path| - 1
        ensures WaitsFor(s, path[k], path[k + 1])
      {
        if k > 0 {
          assert WaitsFor(s, more[k - 1], more[k]);
        }
      }
      assert path[|path| - 1] == more[|more| - 1];
    }
  }

  /** Deadlock freedom: while some thread is unfinished, a thread can step or a thread sleeps. */
  lemma NoDeadlock(s: System, schedule: seq<nat>, end: System, i: nat)
    requires Inv(s) && Run(s, schedule, end)
    requires i < |end| && !end[i].Finished()
    ensures exists k: nat :: k < |end| && (CanStep(end, k) || end[k].asleep.Some?)
  {
    RunKeepsInv(s, schedule, end);
    if forall k: nat :: k < |end| ==> !CanStep(end, k) {
      var path := StuckWaitsForSleeper(end, i);
      assert end[path[|path| - 1]].asleep.Some?;
    }
  }
}

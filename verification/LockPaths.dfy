/**
 * The lock paths of the service's operations, written as nested scopes, with free choice of the
 * torrents, files and pieces they visit; and the theorem that no threads running them deadlock.
 */
module LockPaths {
  import opened Common
  import opened Locks

  /** A scope holding a mutex around a body, or a wait on the condition variable of the mutex held innermost. */
  datatype Code = Locked(m: Mutex, body: seq<Code>) | Sleep(m: Mutex)

  function Compile(code: seq<Code>): seq<Action> {
    if code == [] then []
    else
      (match code[0]
       case Locked(m, body) => [Acquire(m)] + Compile(body) + [Release(m)]
       case Sleep(m) => [Wait(m)])
      + Compile(code[1..])
  }

  /** Scopes nest in rank order below the innermost mutex `top`, and only that one is waited on. */
  predicate WellNested(top: Option<Mutex>, code: seq<Code>)
    decreases code
  {
    forall i :: 0 <= i < |code| ==> Nested(top, code[i])
  }

  predicate Nested(top: Option<Mutex>, c: Code)
    decreases c
  {
    match c
    case Locked(m, body) => (top.Some? ==> Rank(top.value) < Rank(m)) && WellNested(Some(m), body)
    case Sleep(m) => top == Some(m) && (m.Pieces? || m == Abort)
  }

  /** Nested scopes compile to a program that takes its mutexes in rank order and gives them all back. */
  lemma {:induction false} CompileOrdered(top: Option<Mutex>, held: set<Mutex>, code: seq<Code>, rest: seq<Action>)
    requires WellNested(top, code) && Ordered(held, rest)
    requires if top.Some? then top.value in held && Above(held - {top.value}, top.value) else held == {}
    ensures Ordered(held, Compile(code) + rest)
    decreases code
  {
    if code == [] {
      assert Compile(code) + rest == rest;
    } else {
      var tail := Compile(code[1..]) + rest;
      assert WellNested(top, code[1..]) && Nested(top, code[0]);
      CompileOrdered(top, held, code[1..], rest);
      hide Ordered, Compile;
      match code[0] {
        case Locked(m, body) =>
          AboveInnermost(top, held, m);
          OrderedRelease(held, m, tail);
          CompileOrdered(Some(m), held + {m}, body, [Release(m)] + tail);
          OrderedAcquire(held, m, Compile(body) + ([Release(m)] + tail));
          CompileLocked(code, m, body, rest);
        case Sleep(m) =>
          OrderedWait(held, m, tail);
          CompileSleep(code, m, rest);
      }
    }
  }

  /** A mutex ranked above the innermost one is above all that are held. */
  lemma AboveInnermost(top: Option<Mutex>, held: set<Mutex>, m: Mutex)
    requires if top.Some? then top.value in held && Above(held - {top.value}, top.value) else held == {}
    requires top.Some? ==> Rank(top.value) < Rank(m)
    ensures Above(held, m) && m !in held && Above(held + {m} - {m}, m)
  {
    hide Rank;
  }

  lemma CompileLocked(code: seq<Code>, m: Mutex, body: seq<Code>, rest: seq<Action>)
    requires code != [] && code[0] == Locked(m, body)
    ensures Compile(code) + rest
         == [Acquire(m)] + (Compile(body) + ([Release(m)] + (Compile(code[1..]) + rest)))
  {
  }

  lemma CompileSleep(code: seq<Code>, m: Mutex, rest: seq<Action>)
    requires code != [] && code[0] == Sleep(m)
    ensures Compile(code) + rest == [Wait(m)] + (Compile(code[1..]) + rest)
  {
  }

  lemma OrderedWait(held: set<Mutex>, m: Mutex, tail: seq<Action>)
    requires Allowed(held, Wait(m)) && Ordered(held, tail)
    ensures Ordered(held, [Wait(m)] + tail)
  {
    assert ([Wait(m)] + tail)[1..] == tail;
  }

  lemma OrderedRelease(held: set<Mutex>, m: Mutex, tail: seq<Action>)
    requires m !in held && Ordered(held, tail)
    ensures Ordered(held + {m}, [Release(m)] + tail)
  {
    assert ([Release(m)] + tail)[1..] == tail;
    assert held + {m} - {m} == held;
  }

  lemma OrderedAcquire(held: set<Mutex>, m: Mutex, tail: seq<Action>)
    requires Above(held, m) && Ordered(held + {m}, tail)
    ensures Ordered(held, [Acquire(m)] + tail)
  {
    assert ([Acquire(m)] + tail)[1..] == tail;
  }

  // ------------------------------------------------------------------------------------------
  // What an operation visits. The settings are read under a leaf mutex.

  const ReadSetting: Code := Locked(Settings, [])

  function ReadSettings(n: nat): seq<Code> {
    seq(n, i => ReadSetting)
  }

  /** A torrent whose metadata arrives: its files are created, those not wanted get their priority set. */
  datatype Load = Load(torrent: nat, settings: nat, metadata: bool, unwanted: seq<nat>)

  /** A torrent met by a progress tick: its buffering files, the limits read, and whether it is paused. */
  datatype Tick = Tick(torrent: nat, eligible: bool, buffering: seq<nat>, limits: nat, pauses: bool)

  /** A piece read: found in the cache, or scheduled and waited for a number of times. */
  datatype PieceRead = PieceRead(cached: bool, waits: nat)

  datatype Operation =
    | StartUp(loads: seq<Load>)
    | UpdateSettings(reset: bool, loads: seq<Load>)
    | DumpSettings
    | Shutdown
    | UpdateProgress(ticks: seq<Tick>, limitsRead: nat)
    | GetServiceStatus
    | GetTorrent
    | AddTorrent(load: Load)
    | RemoveTorrent
    | CheckSaveResumeData
    | SaveResumeData
    | MetadataReceived(load: Load)
    | StateChanged(torrent: nat, pauses: bool)
    | StorePiece(torrent: nat)
    | CleanupPieces(torrents: seq<nat>)
    | WaitForAbort(waits: nat)
    | PauseOrResume(torrent: nat)
    | SetTorrentPriority(torrent: nat, files: seq<nat>)
    | GetTorrentStatus(torrent: nat)
    | GetFiles(torrent: nat)
    | UseFile(file: nat)
    | ReadFile(reader: nat, torrent: nat, pieces: seq<PieceRead>)
    | SeekFile(reader: nat)

  function LockFiles(files: seq<nat>): seq<Code> {
    seq(|files|, i requires 0 <= i < |files| => Locked(File(files[i]), []))
  }

  function LoadCode(load: Load): seq<Code> {
    ReadSettings(load.settings) + if load.metadata then [Locked(Files(load.torrent), LockFiles(load.unwanted))] else []
  }

  function LoadsCode(loads: seq<Load>): seq<Code> {
    if loads == [] then [] else LoadCode(loads[0]) + LoadsCode(loads[1..])
  }

  function TickCode(tick: Tick): seq<Code> {
    if !tick.eligible then []
    else [Locked(Files(tick.torrent), LockFiles(tick.buffering))] + ReadSettings(tick.limits)
         + if tick.pauses then [Locked(Torrent(tick.torrent), [])] else []
  }

  function TicksCode(ticks: seq<Tick>): seq<Code> {
    if ticks == [] then [] else TickCode(ticks[0]) + TicksCode(ticks[1..])
  }

  function CleanupCode(torrents: seq<nat>): seq<Code> {
    if torrents == [] then []
    else [ReadSetting, Locked(Pieces(torrents[0]), [])] + CleanupCode(torrents[1..])
  }

  function Sleeps(m: Mutex, n: nat): seq<Code> {
    seq(n, i => Sleep(m))
  }

  function PiecesCode(torrent: nat, pieces: seq<PieceRead>): seq<Code> {
    if pieces == [] then []
    else
      [Locked(Pieces(torrent), [])]
      + (if pieces[0].cached then [] else [Locked(Pieces(torrent), Sleeps(Pieces(torrent), pieces[0].waits))])
      + PiecesCode(torrent, pieces[1..])
  }

  /** The lock path of an operation. */
  function Path(op: Operation): seq<Code> {
    match op
    // Only start-up loads torrents without holding their mutex.
    case StartUp(loads) => [Locked(Instance, LoadsCode(loads))]
    case UpdateSettings(reset, loads) =>
      [Locked(Configuration,
              [Locked(Service, [ReadSetting] + if reset then [Locked(Torrents, LoadsCode(loads))] else [])])]
    case DumpSettings => [Locked(Configuration, [])]
    case Shutdown => [Locked(Instance, [])]
    // The torrents are released before the service is taken.
    case UpdateProgress(ticks, limitsRead) =>
      [Locked(Torrents, TicksCode(ticks)), Locked(Service, ReadSettings(limitsRead))]
    case GetServiceStatus => [Locked(Service, [])]
    case GetTorrent => [Locked(Torrents, [])]
    case AddTorrent(load) => [Locked(Torrents, LoadCode(load) + [ReadSetting])]
    case RemoveTorrent => [Locked(Torrents, ReadSettings(4))]
    case CheckSaveResumeData => [ReadSetting, Locked(Torrents, [])]
    case SaveResumeData => [ReadSetting]
    case MetadataReceived(load) => [Locked(Torrents, [])] + LoadCode(load) + ReadSettings(2)
    case StateChanged(torrent, pauses) =>
      [ReadSetting, Locked(Torrents, []), ReadSetting] + if pauses then [Locked(Torrent(torrent), [])] else []
    case StorePiece(torrent) => [Locked(Torrents, []), Locked(Pieces(torrent), [])]
    case CleanupPieces(torrents) => [Locked(Torrents, CleanupCode(torrents))]
    case WaitForAbort(waits) => [Locked(Abort, Sleeps(Abort, waits))]
    case PauseOrResume(torrent) => [Locked(Torrent(torrent), [])]
    case SetTorrentPriority(torrent, files) => [Locked(Files(torrent), LockFiles(files))]
    case GetTorrentStatus(torrent) => [Locked(Torrent(torrent), [Locked(Files(torrent), [])])]
    case GetFiles(torrent) => [Locked(Files(torrent), [])]
    case UseFile(file) => [Locked(File(file), [])]
    case ReadFile(reader, torrent, pieces) => [ReadSetting, Locked(Reader(reader), PiecesCode(torrent, pieces))]
    case SeekFile(reader) => [Locked(Reader(reader), [])]
  }

  predicate Below(top: Option<Mutex>, m: Mutex) {
    top.Some? ==> Rank(top.value) < Rank(m)
  }

  lemma FilesNested(top: Option<Mutex>, torrent: nat, files: seq<nat>)
    requires Below(top, Files(torrent))
    ensures Nested(top, Locked(Files(torrent), LockFiles(files)))
  {
    assert WellNested(Some(Files(torrent)), LockFiles(files));
  }

  lemma SleepsNested(top: Option<Mutex>, m: Mutex, n: nat)
    requires Below(top, m) && (m.Pieces? || m == Abort)
    ensures Nested(top, Locked(m, Sleeps(m, n)))
  {
    assert WellNested(Some(m), Sleeps(m, n));
  }

  lemma SettingsNested(top: Option<Mutex>, n: nat)
    requires Below(top, Settings)
    ensures WellNested(top, ReadSettings(n))
  {
  }

  lemma LoadNested(top: Option<Mutex>, load: Load)
    requires Below(top, Files(load.torrent))
    ensures WellNested(top, LoadCode(load))
  {
    SettingsNested(top, load.settings);
    FilesNested(top, load.torrent, load.unwanted);
  }

  lemma {:induction false} LoadsNested(top: Option<Mutex>, loads: seq<Load>)
    requires top == Some(Instance) || top == Some(Torrents)
    ensures WellNested(top, LoadsCode(loads))
  {
    if loads != [] {
      LoadNested(top, loads[0]);
      LoadsNested(top, loads[1..]);
    }
  }

  lemma {:induction false} TicksNested(ticks: seq<Tick>)
    ensures WellNested(Some(Torrents), TicksCode(ticks))
  {
    if ticks != [] {
      FilesNested(Some(Torrents), ticks[0].torrent, ticks[0].buffering);
      SettingsNested(Some(Torrents), ticks[0].limits);
      TicksNested(ticks[1..]);
    }
  }

  lemma {:induction false} CleanupNested(torrents: seq<nat>)
    ensures WellNested(Some(Torrents), CleanupCode(torrents))
  {
    if torrents != [] {
      CleanupNested(torrents[1..]);
    }
  }

  lemma {:induction false} PiecesNested(reader: nat, torrent: nat, pieces: seq<PieceRead>)
    ensures WellNested(Some(Reader(reader)), PiecesCode(torrent, pieces))
  {
    if pieces != [] {
      SleepsNested(Some(Reader(reader)), Pieces(torrent), pieces[0].waits);
      PiecesNested(reader, torrent, pieces[1..]);
    }
  }

  lemma UpdateNested(reset: bool, loads: seq<Load>)
    ensures WellNested(None, Path(UpdateSettings(reset, loads)))
  {
    var reload := if reset then [Locked(Torrents, LoadsCode(loads))] else [];
    LoadsNested(Some(Torrents), loads);
    assert WellNested(Some(Service), [ReadSetting] + reload);
    assert WellNested(Some(Configuration), [Locked(Service, [ReadSetting] + reload)]);
  }

  lemma TorrentsNested(op: Operation)
    requires op.UpdateProgress? || op.AddTorrent? || op.RemoveTorrent? || op.MetadataReceived? || op.CleanupPieces?
    ensures WellNested(None, Path(op))
  {
    match op {
      case UpdateProgress(ticks, limitsRead) =>
        TicksNested(ticks);
        SettingsNested(Some(Service), limitsRead);
      case AddTorrent(load) =>
        LoadNested(Some(Torrents), load);
        assert WellNested(Some(Torrents), LoadCode(load) + [ReadSetting]);
      case RemoveTorrent => SettingsNested(Some(Torrents), 4);
      case MetadataReceived(load) =>
        LoadNested(None, load);
        SettingsNested(None, 2);
      case CleanupPieces(torrents) => CleanupNested(torrents);
    }
  }

  lemma TorrentNested(op: Operation)
    requires op.SetTorrentPriority? || op.GetTorrentStatus? || op.ReadFile? || op.WaitForAbort? || op.StateChanged?
             || op.StorePiece?
    ensures WellNested(None, Path(op))
  {
    match op {
      case SetTorrentPriority(torrent, files) => FilesNested(None, torrent, files);
      case GetTorrentStatus(torrent) => assert WellNested(Some(Torrent(torrent)), [Locked(Files(torrent), [])]);
      case ReadFile(reader, torrent, pieces) => PiecesNested(reader, torrent, pieces);
      case WaitForAbort(waits) => SleepsNested(None, Abort, waits);
      case _ =>
    }
  }

  /** Every operation of the service takes its mutexes in rank order. */
  lemma PathNested(op: Operation)
    ensures WellNested(None, Path(op))
  {
    match op {
      case StartUp(loads) => LoadsNested(Some(Instance), loads);
      case UpdateSettings(reset, loads) => UpdateNested(reset, loads);
      case UpdateProgress(_, _) => TorrentsNested(op);
      case AddTorrent(_) => TorrentsNested(op);
      case RemoveTorrent => TorrentsNested(op);
      case MetadataReceived(_) => TorrentsNested(op);
      case CleanupPieces(_) => TorrentsNested(op);
      case SetTorrentPriority(_, _) => TorrentNested(op);
      case GetTorrentStatus(_) => TorrentNested(op);
      case ReadFile(_, _, _) => TorrentNested(op);
      case WaitForAbort(_) => TorrentNested(op);
      case StateChanged(_, _) => TorrentNested(op);
      case StorePiece(_) => TorrentNested(op);
      case _ =>
    }
  }

  /** What a thread executes: any operations, one after the other. */
  function Program(ops: seq<Operation>): seq<Code> {
    if ops == [] then [] else Path(ops[0]) + Program(ops[1..])
  }

  lemma {:induction false} ProgramNested(ops: seq<Operation>)
    ensures WellNested(None, Program(ops))
  {
    if ops != [] {
      PathNested(ops[0]);
      ProgramNested(ops[1..]);
    }
  }

  /** Threads that are about to execute their operations, with nothing held. */
  function Start(threads: seq<seq<Operation>>): System {
    seq(|threads|, i requires 0 <= i < |threads| => Thread({}, None, Compile(Program(threads[i]))))
  }

  lemma StartInv(threads: seq<seq<Operation>>)
    ensures Inv(Start(threads))
  {
    forall i | 0 <= i < |threads|
      ensures Start(threads)[i].Valid()
    {
      ProgramNested(threads[i]);
      CompileOrdered(None, {}, Program(threads[i]), []);
      assert Compile(Program(threads[i])) + [] == Compile(Program(threads[i]));
    }
  }

  /**
   * Deadlock freedom: in every run of any threads executing any operations there is no circular
   * wait, and a state in which no thread can step has only threads that are finished, sleep, or wait
   * through a chain of mutexes for a reader that sleeps until a piece arrives.
   */
  lemma ServiceNeverDeadlocks(threads: seq<seq<Operation>>, schedule: seq<nat>, end: System)
    requires Run(Start(threads), schedule, end)
    ensures forall path: seq<nat> :: |path| >= 2 && Chain(end, path) ==> path[0] != path[|path| - 1]
    ensures (forall k: nat :: k < |end| ==> !CanStep(end, k)) ==>
              forall i: nat :: i < |end| && !end[i].Finished() ==> exists path :: EndsAsleep(end, i, path)
  {
    StartInv(threads);
    RunKeepsInv(Start(threads), schedule, end);
    forall path: seq<nat> | |path| >= 2 && Chain(end, path)
      ensures path[0] != path[|path| - 1]
    {
      NoCircularWait(end, path);
    }
    if forall k: nat :: k < |end| ==> !CanStep(end, k) {
      forall i: nat | i < |end| && !end[i].Finished()
        ensures exists path :: EndsAsleep(end, i, path)
      {
        var path := StuckWaitsForSleeper(end, i);
        assert EndsAsleep(end, i, path);
      }
    }
  }

  /** A chain of waiting threads from `i` to a sleeping one; beyond `i` itself, a reader waiting for a piece. */
  predicate EndsAsleep(s: System, i: nat, path: seq<nat>) {
    && path != [] && path[0] == i && Chain(s, path) && path[|path| - 1] < |s|
    && var last := s[path[|path| - 1]].asleep;
       last.Some? && (|path| == 1 || last.value.Pieces?)
  }

  lemma CompileOne(m: Mutex, body: seq<Code>)
    ensures Compile([Locked(m, body)]) == [Acquire(m)] + Compile(body) + [Release(m)]
  {
    assert Compile([Locked(m, body)][1..]) == [];
  }

  lemma CompileTwo(m: Mutex, body: seq<Code>, c: Code)
    ensures Compile([Locked(m, body), c]) == [Acquire(m)] + Compile(body) + [Release(m)] + Compile([c])
  {
    assert [Locked(m, body), c][1..] == [c];
  }

  /** The program of a settings update that resets a service without torrents. */
  function ResetProgram(): seq<Action> {
    [Acquire(Configuration), Acquire(Service), Acquire(Settings), Release(Settings), Acquire(Torrents),
     Release(Torrents), Release(Service), Release(Configuration)]
  }

  lemma ResetCompiles()
    ensures Compile(Path(UpdateSettings(true, []))) == ResetProgram()
  {
    hide Compile;
    var reload := Locked(Torrents, []);
    assert [ReadSetting] + [Locked(Torrents, LoadsCode([]))] == [ReadSetting, reload];
    assert Compile([]) == [] by {
      CompileNone();
    }
    CompileOne(Torrents, []);
    CompileTwo(Settings, [], reload);
    CompileOne(Service, [ReadSetting, reload]);
    CompileOne(Configuration, [Locked(Service, [ReadSetting, reload])]);
  }

  lemma CompileNone()
    ensures Compile([]) == []
  {
  }

  /** A run that starts with a given step. */
  lemma FirstStep(a: Thread, b: Thread, i: nat, t: Thread, schedule: seq<nat>, end: System)
    requires i < 2 && CanStep([a, b], i) && t == Stepped([a, b][i])
    requires Run(if i == 0 then [t, b] else [a, t], schedule, end)
    ensures Run([a, b], [i] + schedule, end)
  {
    assert ([i] + schedule)[1..] == schedule;
    assert [a, b][i := t] == if i == 0 then [t, b] else [a, t];
  }

  /** A settings update gets to where it needs the torrents, whatever a thread that holds only them does. */
  lemma UpdateAdvances(a: Thread) returns (b: Thread)
    requires a.held == {Torrents}
    ensures Run([a, Thread({}, None, ResetProgram())], [1] + ([1] + ([1] + ([1] + []))), [a, b])
    ensures b.held == {Configuration, Service} && b.Wants() == Some(Torrents)
  {
    hide Run;
    var q := ResetProgram();
    var b0 := Thread({}, None, q);
    var b1 := Thread({Configuration}, None, q[1..]);
    var b2 := Thread({Configuration, Service}, None, q[2..]);
    var b3 := Thread({Configuration, Service, Settings}, None, q[3..]);
    b := Thread({Configuration, Service}, None, q[4..]);
    RunNone([a, b]);
    assert Stepped(b0) == b1 && Stepped(b1) == b2 && Stepped(b2) == b3 && Stepped(b3) == b;
    FirstStep(a, b3, 1, b, [], [a, b]);
    FirstStep(a, b2, 1, b3, [1] + [], [a, b]);
    FirstStep(a, b1, 1, b2, [1] + ([1] + []), [a, b]);
    FirstStep(a, b0, 1, b1, [1] + ([1] + ([1] + [])), [a, b]);
  }

  /**
   * Why the torrents are released first: a tick that kept them while taking the service could wait
   * in a circle with a settings update that resets the torrents.
   */
  lemma HeldTorrentsDeadlock() returns (schedule: seq<nat>, end: System)
    ensures var keeping := Thread({}, None, Compile([Locked(Torrents, [Locked(Service, [])])]));
            var update := Thread({}, None, Compile(Path(UpdateSettings(true, []))));
            Run([keeping, update], schedule, end) && WaitsFor(end, 0, 1) && WaitsFor(end, 1, 0)
  {
    hide Run, Compile, Path;
    CompileNone();
    CompileOne(Service, []);
    CompileOne(Torrents, [Locked(Service, [])]);
    ResetCompiles();
    var p := [Acquire(Torrents), Acquire(Service), Release(Service), Release(Torrents)];
    assert Compile([Locked(Torrents, [Locked(Service, [])])]) == p;
    hide ResetProgram;
    var a0, a1 := Thread({}, None, p), Thread({Torrents}, None, p[1..]);
    var b := UpdateAdvances(a1);
    assert Stepped(a0) == a1;
    schedule, end := [0] + ([1] + ([1] + ([1] + ([1] + [])))), [a1, b];
    FirstStep(a0, Thread({}, None, ResetProgram()), 0, a1, [1] + ([1] + ([1] + ([1] + []))), end);
  }

  lemma RunNone(s: System)
    ensures Run(s, [], s)
  {
  }
}

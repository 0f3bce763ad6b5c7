/**
 * The per-torrent cache of piece data: what one operation does to it, and what holds
 * after any run of operations by any number of threads. Each event is one critical
 * section on the pieces mutex, or one change of the torrent seen from outside.
 */
module PieceCache {
  import opened Common

  datatype PieceData = PieceData(buffer: seq<byte>, readAt: int)

  type Cache = map<int, PieceData>

  /** One piece being downloaded, with the bytes received of each of its blocks. */
  datatype QueueEntry = QueueEntry(piece: int, blocks: seq<int>)

  datatype Event =
    | Tick(elapsed: nat)
    | Store(piece: int, buffer: seq<byte>)
    | Touch(piece: int)
      // The clock is read `age` before the mutex is taken.
    | Cleanup(age: nat, expiration: int)
    | Finish(piece: int)
    | Download(queue: seq<QueueEntry>)
    | Prioritise(piece: int, priority: int, deadline: Option<int>)
    | Pause
    | Resume
    | Close

  datatype Snapshot = Snapshot(cache: Cache, now: int)

  predicate Expired(entry: PieceData, seen: int, expiration: int) {
    seen - entry.readAt >= expiration
  }

  function Cleaned(cache: Cache, seen: int, expiration: int): Cache {
    map p | p in cache && !Expired(cache[p], seen, expiration) :: cache[p]
  }

  function ApplyToCache(cache: Cache, now: int, e: Event): Cache {
    match e
    case Store(p, buffer) => cache[p := PieceData(buffer, now)]
    case Touch(p) => if p in cache then cache[p := cache[p].(readAt := now)] else cache
    case Cleanup(age, expiration) => Cleaned(cache, now - age, expiration)
    case _ => cache
  }

  function Apply(s: Snapshot, e: Event): Snapshot {
    Snapshot(ApplyToCache(s.cache, s.now, e), if e.Tick? then s.now + e.elapsed else s.now)
  }

  function Run(start: int, events: seq<Event>): Snapshot {
    if events == [] then Snapshot(map[], start)
    else Apply(Run(start, events[..|events| - 1]), events[|events| - 1])
  }

  /** The data most recently handed over for a piece. */
  function LastStored(events: seq<Event>, p: int): Option<seq<byte>> {
    if events == [] then None
    else
      var e := events[|events| - 1];
      if e.Store? && e.piece == p then Some(e.buffer) else LastStored(events[..|events| - 1], p)
  }

  /** The time at which a piece was last stored or looked up. */
  function LastUse(start: int, events: seq<Event>, p: int): Option<int> {
    if events == [] then None
    else
      var before := events[..|events| - 1];
      var e := events[|events| - 1];
      if (e.Store? || e.Touch?) && e.piece == p then Some(Run(start, before).now) else LastUse(start, before, p)
  }

  /** A cleanup at position `j` finds the last use of `p` younger than the expiration. */
  predicate Spares(start: int, events: seq<Event>, j: nat, p: int)
    requires j < |events|
  {
    var e := events[j];
    var use := LastUse(start, events[..j], p);
    e.Cleanup? && use.Some? ==> Run(start, events[..j]).now - e.age - use.value < e.expiration
  }

  /** Piece `p` was stored at position `i` and every later cleanup spared it. */
  ghost predicate Retained(start: int, events: seq<Event>, i: nat, p: int) {
    && i < |events|
    && events[i].Store? && events[i].piece == p
    && forall j :: i < j < |events| ==> Spares(start, events, j, p)
  }

  /** In every run, a cached entry holds the data last stored for its index and remembers its last use. */
  lemma {:induction false} CacheCoherent(start: int, events: seq<Event>, p: int)
    requires p in Run(start, events).cache
    ensures LastStored(events, p) == Some(Run(start, events).cache[p].buffer)
    ensures LastUse(start, events, p) == Some(Run(start, events).cache[p].readAt)
    ensures Run(start, events).cache[p].readAt <= Run(start, events).now
  {
    var before := events[..|events| - 1];
    var e := events[|events| - 1];
    if !(e.Store? && e.piece == p) {
      CacheCoherent(start, before, p);
    }
  }

  lemma RetainedPrefix(start: int, events: seq<Event>, i: nat, p: int)
    requires events != [] && i < |events| - 1
    ensures var before := events[..|events| - 1];
            Retained(start, events, i, p) <==>
              Retained(start, before, i, p) && Spares(start, events, |before|, p)
  {
    var before := events[..|events| - 1];
    forall j: nat | j < |before|
      ensures Spares(start, before, j, p) == Spares(start, events, j, p)
    {
      assert before[..j] == events[..j];
    }
  }

  /** Retention, exactly: a piece is cached iff it was stored and no later cleanup found it expired. */
  lemma {:induction false} CachedIffRetained(start: int, events: seq<Event>, p: int)
    ensures p in Run(start, events).cache <==> exists i: nat :: Retained(start, events, i, p)
  {
    if events != [] {
      var last := |events| - 1;
      var before := events[..last];
      var e := events[last];
      CachedIffRetained(start, before, p);
      if p in Run(start, before).cache {
        CacheCoherent(start, before, p);
      }
      if e.Store? && e.piece == p {
        assert Retained(start, events, last, p);
      } else {
        forall i: nat | i < last {
          RetainedPrefix(start, events, i, p);
        }
        if p in Run(start, events).cache {
          var i: nat :| Retained(start, before, i, p);
          assert Retained(start, events, i, p);
        }
      }
    }
  }

  /**
   * An entry used at the end of one run is still there after any continuation whose
   * cleanups all read the clock before the use time plus their expiration.
   */
  lemma {:induction false} UsedEntrySurvives(start: int, first: seq<Event>, more: seq<Event>, p: int)
    requires p in Run(start, first).cache
    requires forall j :: |first| <= j < |first + more| && (first + more)[j].Cleanup? ==>
                           Run(start, (first + more)[..j]).now - (first + more)[j].age
                           < Run(start, first).cache[p].readAt + (first + more)[j].expiration
    ensures p in Run(start, first + more).cache
    ensures Run(start, first + more).cache[p].readAt >= Run(start, first).cache[p].readAt
  {
    if more == [] {
      assert first + more == first;
    } else {
      var all := first + more;
      var shorter := more[..|more| - 1];
      assert all[..|all| - 1] == first + shorter;
      forall j | |first| <= j < |first + shorter|
        ensures (first + shorter)[j] == all[j] && (first + shorter)[..j] == all[..j]
      {
        assert (first + shorter)[..j] == all[..j];
      }
      UsedEntrySurvives(start, first, shorter, p);
      CacheCoherent(start, first + shorter, p);
      CacheCoherent(start, first, p);
    }
  }

  /**
   * The time a piece stays: after its last use, a cleanup that reads the clock `elapsed` later, less the `age` of
   * that reading, keeps it iff that is less than the expiration.
   */
  lemma ExpiresAfter(start: int, first: seq<Event>, use: Event, elapsed: nat, age: nat, expiration: int)
    requires use.Store? || (use.Touch? && use.piece in Run(start, first).cache)
    ensures var after := Run(start, first + [use, Tick(elapsed), Cleanup(age, expiration)]);
            use.piece in after.cache <==> elapsed - age < expiration
    ensures Run(start, first + [use, Tick(elapsed)]).now == Run(start, first).now + elapsed
  {
    var used, waited := first + [use], first + [use, Tick(elapsed)];
    var cleaned := first + [use, Tick(elapsed), Cleanup(age, expiration)];
    assert used[..|used| - 1] == first && waited[..|waited| - 1] == used && cleaned[..|cleaned| - 1] == waited;
    assert Run(start, used).cache[use.piece].readAt == Run(start, first).now;
    assert Run(start, waited) == Apply(Run(start, used), Tick(elapsed));
  }
}

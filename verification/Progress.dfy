/** The progress tick: totals over the active torrents, seeding limits, and the rate limits. */
module Progress {
  import opened Common
  import opened Torrents
  import R = RateLimits
  import B = Buffering

  datatype Status = Status(
    downloadRate: int, uploadRate: int, progress: real, totalWanted: int, totalWantedDone: int,
    seedingDuration: int, finishedDuration: int, activeDuration: int, allTimeDownload: int, allTimeUpload: int)

  datatype SeedLimits = SeedLimits(time: int, timeRatio: int, shareRatio: int)

  predicate SeedTimeReached(limit: int, seedingTime: int) {
    limit > 0 && seedingTime >= limit
  }

  predicate SeedTimeRatioReached(limit: int, downloadTime: int, seedingTime: int) {
    limit > 0 && downloadTime > 0 && TruncDiv(seedingTime * 100, downloadTime) >= limit
  }

  predicate ShareRatioReached(limit: int, allTimeDownload: int, allTimeUpload: int) {
    limit > 0 && allTimeDownload > 0 && TruncDiv(allTimeUpload * 100, allTimeDownload) >= limit
  }

  /** A truncated percentage reaches a positive limit iff the exact one does. */
  lemma PercentReached(part: int, whole: int, limit: int)
    requires whole > 0 && limit > 0
    ensures TruncDiv(part * 100, whole) >= limit <==> 100 * part >= limit * whole
  {
    var q := part * 100 / whole;
    if part < 0 {
      assert limit * whole > 0;
      assert TruncDiv(part * 100, whole) <= 0;
    } else if q >= limit {
      Product(q - limit, whole);
    } else {
      Product(limit - q - 1, whole);
    }
  }

  lemma Product(a: int, b: int)
    requires 0 <= a && 0 <= b
    ensures 0 <= a * b
  {
  }

  function SeedingTime(s: Status): int {
    if s.progress == 1.0 && s.seedingDuration == 0 then s.finishedDuration else s.seedingDuration
  }

  function DownloadTime(s: Status): int {
    s.activeDuration - SeedingTime(s)
  }

  /** Some enabled limit is reached, in exact arithmetic. */
  predicate LimitReached(limits: SeedLimits, s: Status) {
    || TimeOrShareReached(limits, s)
    || (limits.timeRatio > 0 && DownloadTime(s) > 0 && 100 * SeedingTime(s) >= limits.timeRatio * DownloadTime(s))
  }

  predicate TimeOrShareReached(limits: SeedLimits, s: Status) {
    || (limits.time > 0 && SeedingTime(s) >= limits.time)
    || (limits.shareRatio > 0 && s.allTimeDownload > 0
        && 100 * s.allTimeUpload >= limits.shareRatio * s.allTimeDownload)
  }

  /**
   * The limits in seconds and ratios: at least `time` seconds of seeding, at least `timeRatio` per cent of the time
   * not spent seeding, or at least `shareRatio` per cent of what was downloaded uploaded. Until some seeding is
   * reported, the time since a torrent was complete counts as such.
   */
  lemma LimitInRatios(limits: SeedLimits, s: Status)
    ensures var noneYet := s.progress == 1.0 && s.seedingDuration == 0;
            var seeding := if noneYet then s.finishedDuration else s.seedingDuration;
            var other := s.activeDuration - seeding;
            LimitReached(limits, s) <==>
              || (limits.time > 0 && seeding >= limits.time)
              || (limits.timeRatio > 0 && other > 0
                  && seeding as real / other as real >= limits.timeRatio as real / 100.0)
              || (limits.shareRatio > 0 && s.allTimeDownload > 0
                  && s.allTimeUpload as real / s.allTimeDownload as real >= limits.shareRatio as real / 100.0)
  {
    if DownloadTime(s) > 0 {
      RatioIs(SeedingTime(s), DownloadTime(s), limits.timeRatio);
    }
    if s.allTimeDownload > 0 {
      RatioIs(s.allTimeUpload, s.allTimeDownload, limits.shareRatio);
    }
  }

  lemma RatioIs(part: int, whole: int, limit: int)
    requires whole > 0
    ensures part as real / whole as real >= limit as real / 100.0 <==> 100 * part >= limit * whole
  {
    var ratio, w := part as real / whole as real, whole as real;
    assert ratio * w == part as real;
    assert 100.0 * (part as real) == (100 * part) as real && limit as real * w == (limit * whole) as real;
    if ratio >= limit as real / 100.0 {
      RealProduct(ratio - limit as real / 100.0, w);
    } else {
      RealProduct(limit as real / 100.0 - ratio, w);
      assert (limit as real / 100.0 - ratio) * w > 0.0;
    }
  }

  lemma RealProduct(a: real, b: real)
    requires 0.0 <= a && 0.0 < b
    ensures 0.0 <= a * b && (0.0 < a ==> 0.0 < a * b)
  {
  }

  /** `t` is a later status than `s` of a torrent that is complete all the while. */
  predicate Later(s: Status, t: Status) {
    var elapsed := t.activeDuration - s.activeDuration;
    && s.progress == t.progress == 1.0 && 0 <= elapsed
    && t.finishedDuration == s.finishedDuration + elapsed
    && t.allTimeDownload == s.allTimeDownload && s.allTimeUpload <= t.allTimeUpload
    && if s.seedingDuration > 0 then t.seedingDuration == s.seedingDuration + elapsed
       else s.seedingDuration == 0 <= t.seedingDuration <= elapsed
  }

  /** The time finished counts as seeding time until the handle reports some of its own. */
  predicate ClockStarts(s: Status, t: Status) {
    s.seedingDuration == 0 < t.seedingDuration
  }

  /** A reached limit stays reached as time goes by, unless the seeding clock starts in between. */
  lemma LimitStaysReached(limits: SeedLimits, s: Status, t: Status)
    requires Later(s, t) && LimitReached(limits, s) && !ClockStarts(s, t)
    ensures LimitReached(limits, t)
  {
    assert DownloadTime(t) == DownloadTime(s) && SeedingTime(s) <= SeedingTime(t);
    if limits.shareRatio > 0 && s.allTimeDownload > 0 {
      assert 100 * s.allTimeUpload <= 100 * t.allTimeUpload;
    }
  }

  /** Some torrent reaches a limit, goes on seeding, and then does not reach any. */
  ghost predicate Forgets(limits: SeedLimits) {
    exists s, t :: Later(s, t) && LimitReached(limits, s) && !LimitReached(limits, t)
  }

  /**
   * The exception is real: once the seeding clock starts, a reached limit may be forgotten, whatever the
   * time limit beyond a second, or the time ratio when there is no time limit. A share ratio is not.
   */
  lemma ForgetsIff(limits: SeedLimits)
    ensures Forgets(limits) <==> limits.time > 1 || (limits.time <= 0 && limits.timeRatio > 0)
  {
    if limits.time > 1 {
      var s := Complete(limits.time, 0, limits.time + 100);
      var t := Complete(limits.time + 1, 1, limits.time + 101);
      RatioMissed(limits.timeRatio, limits.time + 100);
      assert Later(s, t) && LimitReached(limits, s) && !LimitReached(limits, t);
    } else if limits.time <= 0 && limits.timeRatio > 0 {
      var finished := limits.timeRatio * 101;
      var s := Complete(finished, 0, finished + 101);
      var t := Complete(finished + 1, 1, finished + 102);
      RatioMissed(limits.timeRatio, finished + 101);
      assert Later(s, t) && LimitReached(limits, s) && !LimitReached(limits, t);
    } else {
      forall s, t | Later(s, t) && LimitReached(limits, s)
        ensures LimitReached(limits, t)
      {
        if !ClockStarts(s, t) {
          LimitStaysReached(limits, s, t);
        }
      }
    }
  }

  /** The status of a complete torrent that has transferred nothing. */
  function Complete(finished: int, seeding: int, active: int): Status {
    Status(0, 0, 1.0, 0, 0, seeding, finished, active, 0, 0)
  }

  lemma RatioMissed(ratio: int, downloadTime: int)
    requires downloadTime > 100
    ensures ratio > 0 ==> 100 * 1 < ratio * downloadTime
  {
    if ratio > 0 {
      Product(ratio - 1, downloadTime);
    }
  }

  // ------------------------------------------------------------------------------------------
  // One torrent over many ticks.

  /** A tick finds the torrent usable when it has its metadata and a valid handle. */
  datatype Happening = Tick(limits: SeedLimits, report: Status, usable: bool) | Pause | Resume

  /** A happening after which a torrent is paused. */
  predicate Pauses(h: Happening) {
    h.Pause? || (h.Tick? && h.usable && h.report.progress >= 1.0 && LimitReached(h.limits, h.report))
  }

  predicate PausedAfter(paused: bool, happenings: seq<Happening>) {
    if happenings == [] then paused
    else
      var last := happenings[|happenings| - 1];
      Pauses(last) || (PausedAfter(paused, happenings[..|happenings| - 1]) && !last.Resume?)
  }

  /** What the ticks of a run add to the totals: nothing while the torrent is paused. */
  function Added(paused: bool, happenings: seq<Happening>): Totals {
    if happenings == [] then NOTHING
    else
      var last, before := happenings[|happenings| - 1], happenings[..|happenings| - 1];
      Plus(Added(paused, before),
           if last.Tick? && last.usable && !PausedAfter(paused, before) then Share(last.report) else NOTHING)
  }

  predicate NoResume(happenings: seq<Happening>, from: nat) {
    forall i :: from <= i < |happenings| ==> !happenings[i].Resume?
  }

  /** A torrent is paused iff something paused it, or it was, and nothing has resumed it since. */
  lemma {:induction false} PausedIff(paused: bool, happenings: seq<Happening>)
    ensures PausedAfter(paused, happenings) <==>
              || (paused && NoResume(happenings, 0))
              || exists k :: 0 <= k < |happenings| && Pauses(happenings[k]) && NoResume(happenings, k + 1)
  {
    if happenings != [] {
      var last := |happenings| - 1;
      var before := happenings[..last];
      hide LimitReached;
      PausedIff(paused, before);
      if Pauses(happenings[last]) {
        assert NoResume(happenings, last + 1);
      } else {
        forall k: nat | k <= last
          ensures NoResume(happenings, k) <==> NoResume(before, k) && !happenings[last].Resume?
        {
          assert NoResume(happenings, k) ==> forall i :: k <= i < last ==> before[i] == happenings[i];
        }
        if k :| 0 <= k < last && Pauses(before[k]) && NoResume(before, k + 1) {
          assert happenings[k] == before[k];
        }
      }
    }
  }

  /** From when a torrent is paused until it is resumed, ticks pass over it: it adds nothing to any total. */
  lemma {:induction false} PausedIsSkipped(paused: bool, before: seq<Happening>, more: seq<Happening>)
    requires PausedAfter(paused, before) && NoResume(more, 0)
    ensures PausedAfter(paused, before + more)
    ensures Added(paused, before + more) == Added(paused, before)
  {
    if more == [] {
      assert before + more == before;
    } else {
      var all, shorter := before + more, more[..|more| - 1];
      assert all[..|all| - 1] == before + shorter;
      hide LimitReached;
      PausedIsSkipped(paused, before, shorter);
    }
  }

  // ------------------------------------------------------------------------------------------

  /** What torrents add to the totals. */
  datatype Totals = Totals(downloadRate: int, uploadRate: int, wanted: int, wantedDone: int)

  const NOTHING := Totals(0, 0, 0, 0)

  function Plus(a: Totals, b: Totals): Totals {
    Totals(a.downloadRate + b.downloadRate, a.uploadRate + b.uploadRate, a.wanted + b.wanted,
           a.wantedDone + b.wantedDone)
  }

  /** What a torrent that takes part adds: a finished one has nothing wanted. */
  function Share(report: Status): Totals {
    if report.progress < 1.0
    then Totals(report.downloadRate, report.uploadRate, report.totalWanted, report.totalWantedDone)
    else Totals(report.downloadRate, report.uploadRate, 0, 0)
  }

  /** Sum over the torrents that take part. */
  function TotalOf(eligible: seq<bool>, reports: seq<Status>): Totals
    requires |eligible| == |reports|
  {
    if reports == [] then NOTHING
    else
      var last := |reports| - 1;
      Plus(TotalOf(eligible[..last], reports[..last]), if eligible[last] then Share(reports[last]) else NOTHING)
  }

  function Percentage(part: int, whole: int): real {
    if whole > 0 then 100.0 * part as real / whole as real else 100.0
  }

  function DownloadRate(s: Status): int {
    s.downloadRate
  }

  function UploadRate(s: Status): int {
    s.uploadRate
  }

  /** A finished torrent wants nothing more. */
  function StillWanted(s: Status): int {
    if s.progress < 1.0 then s.totalWanted else 0
  }

  function StillWantedDone(s: Status): int {
    if s.progress < 1.0 then s.totalWantedDone else 0
  }

  /** What each torrent adds to one of the totals, and nothing for those that do not take part. */
  function Each(eligible: seq<bool>, reports: seq<Status>, of: Status -> int): (values: seq<int>)
    requires |eligible| == |reports|
    ensures |values| == |reports|
  {
    seq(|reports|, i requires 0 <= i < |reports| => if eligible[i] then of(reports[i]) else 0)
  }

  lemma EachLast(eligible: seq<bool>, reports: seq<Status>, of: Status -> int)
    requires |eligible| == |reports| && reports != []
    ensures var last := |reports| - 1;
            Sum(Each(eligible, reports, of))
            == Sum(Each(eligible[..last], reports[..last], of)) + if eligible[last] then of(reports[last]) else 0
  {
    var last := |reports| - 1;
    var before := Each(eligible[..last], reports[..last], of);
    var value := if eligible[last] then of(reports[last]) else 0;
    assert Each(eligible, reports, of) == before + [value];
    SumAppend(before, [value]);
    assert Sum([value]) == value + Sum([]) by {
      assert [value][1..] == [];
    }
  }

  /**
   * The totals are four sums over the torrents that take part: of download rates, of upload rates, and of what is
   * wanted and what of it is done, the last two over those that are not finished.
   */
  lemma {:induction false} TotalsAreSums(eligible: seq<bool>, reports: seq<Status>)
    requires |eligible| == |reports|
    ensures var total := TotalOf(eligible, reports);
            && total.downloadRate == Sum(Each(eligible, reports, DownloadRate))
            && total.uploadRate == Sum(Each(eligible, reports, UploadRate))
            && total.wanted == Sum(Each(eligible, reports, StillWanted))
            && total.wantedDone == Sum(Each(eligible, reports, StillWantedDone))
  {
    if reports != [] {
      var last := |reports| - 1;
      TotalsAreSums(eligible[..last], reports[..last]);
      EachLast(eligible, reports, DownloadRate);
      EachLast(eligible, reports, UploadRate);
      EachLast(eligible, reports, StillWanted);
      EachLast(eligible, reports, StillWantedDone);
      hide Each, Sum;
    }
  }

  /** Progress is a percentage when no torrent has done more than it wants. */
  lemma {:induction false} ProgressInRange(eligible: seq<bool>, reports: seq<Status>)
    requires |eligible| == |reports|
    requires forall i :: 0 <= i < |reports| ==> 0 <= reports[i].totalWantedDone <= reports[i].totalWanted
    ensures var total := TotalOf(eligible, reports);
            && 0 <= total.wantedDone <= total.wanted
            && 0.0 <= Percentage(total.wantedDone, total.wanted) <= 100.0
            && (Percentage(total.wantedDone, total.wanted) == 100.0 <==> total.wantedDone == total.wanted)
  {
    if reports != [] {
      ProgressInRange(eligible[..|reports| - 1], reports[..|reports| - 1]);
    }
    var part, whole := TotalOf(eligible, reports).wantedDone, TotalOf(eligible, reports).wanted;
    if whole > 0 {
      PercentageInRange(part, whole);
    }
  }

  /** It is the exact percentage, whatever the numbers, and 100 when nothing is wanted. */
  lemma PercentageIs(part: int, whole: int)
    ensures whole > 0 ==> Percentage(part, whole) * whole as real == 100.0 * part as real
    ensures whole <= 0 ==> Percentage(part, whole) == 100.0
  {
  }

  /** A registered torrent as a tick meets it. */
  class Tracked {
    const torrent: Torrent
    const files: seq<B.File>
    const hasMetadata: bool
    const handleValid: bool

    constructor (torrent: Torrent, files: seq<B.File>, hasMetadata: bool, handleValid: bool)
      ensures this.torrent == torrent && this.files == files
      ensures this.hasMetadata == hasMetadata && this.handleValid == handleValid
    {
      this.torrent, this.files, this.hasMetadata, this.handleValid := torrent, files, hasMetadata, handleValid;
    }

    function FileSet(): set<B.File> {
      set f | f in files
    }

    ghost predicate Valid()
      reads torrent, files
    {
      torrent.Valid() && B.FilesOf(torrent, files)
    }

    predicate Usable() {
      hasMetadata && handleValid
    }

    ghost function Seen(): View
      reads torrent, files
    {
      View(torrent.mPaused, B.OutsetOf(torrent), B.Memories(files))
    }

    method Pause()
      requires torrent.Valid()
      modifies torrent`mPaused
      ensures torrent.Valid() && torrent.mPaused
    {
      torrent.mPaused := true;
    }
  }

  /** What a tick can tell of a torrent: whether it is paused, its handle and schedule, its files' buffering. */
  datatype View = View(paused: bool, outset: B.Outset, files: seq<B.State>) {
    /** A torrent that is passed over keeps its state, but for what other threads ask of its files. */
    ghost predicate Skipped(now: View, files: seq<B.File>, others: seq<seq<B.FileStep>>) {
      && now == this.(files := now.files) && |now.files| == |this.files| == |files|
      && forall i :: 0 <= i < |files| ==>
           files[i].Placed() && now.files[i] == B.ServedAll(files[i], i, this.files[i], others)
    }

    /** Another has its files checked, and is paused if it is finished and a limit is reached. */
    ghost predicate Checked(now: View, files: seq<B.File>, tick: Happening, others: seq<seq<B.FileStep>>,
                            course: B.Course)
    {
      && course.start == outset && course.files == files && course.others == others && course.was == this.files
      && course.Whole() && |now.outset.schedule| <= |outset.schedule|
      && course.Fits(now.files, |outset.schedule| - |now.outset.schedule|)
      && (Pauses(tick) ==> now.paused)
      && (NoPauses(outset.schedule) ==> now.paused == PausedAfter(paused, [tick]))
    }

    /** What a tick made of it; `others` is what other threads ask of its files meanwhile. */
    ghost predicate Ticked(now: View, files: seq<B.File>, tick: Happening, others: seq<seq<B.FileStep>>,
                           course: B.Course)
      requires tick.Tick?
    {
      if paused || !tick.usable then Skipped(now, files, others) else Checked(now, files, tick, others, course)
    }
  }

  /** The limits of a finished torrent: it is paused if one is reached, else left as it is. */
  method CheckSeeding(t: Tracked, limits: SeedLimits, report: Status)
    requires t.torrent.Valid() && report.progress >= 1.0
    modifies t.torrent`mPaused
    ensures t.torrent.Valid() && t.torrent.mPaused == (old(t.torrent.mPaused) || LimitReached(limits, report))
  {
    var seedingTime := if report.progress == 1.0 && report.seedingDuration == 0
                       then report.finishedDuration else report.seedingDuration;
    var downloadTime := report.activeDuration - seedingTime;
    if downloadTime > 0 && limits.timeRatio > 0 {
      PercentReached(seedingTime, downloadTime, limits.timeRatio);
    }
    if report.allTimeDownload > 0 && limits.shareRatio > 0 {
      PercentReached(report.allTimeUpload, report.allTimeDownload, limits.shareRatio);
    }
    hide TruncDiv;
    if SeedTimeReached(limits.time, seedingTime) {
      t.Pause();
    } else if SeedTimeRatioReached(limits.timeRatio, downloadTime, seedingTime) {
      t.Pause();
    } else if ShareRatioReached(limits.shareRatio, report.allTimeDownload, report.allTimeUpload) {
      t.Pause();
    }
  }

  /**
   * The tick of one torrent: what it adds to the totals, and whether the check of its files found one
   * buffering. `others`, what other threads ask of its files during the tick, comes around the visits.
   */
  method TickTorrent(t: Tracked, limits: SeedLimits, report: Status, others: seq<seq<B.FileStep>>)
    returns (buffering: bool, added: Totals, ghost course: B.Course)
    requires t.Valid() && |others| == |t.files| + 1
    modifies t.torrent, t.files
    ensures t.Valid()
    ensures old(t.Seen()).Ticked(t.Seen(), t.files, Tick(limits, report, t.Usable()), others, course)
    ensures var eligible := !old(t.torrent.mPaused) && t.Usable();
            && buffering == (eligible && B.SomeBuffers(course.left))
            && added == if eligible then Share(report) else NOTHING
  {
    hide LimitReached, NoCleanups, NoPauses, Untouched, View.Checked, View.Skipped, PausedAfter, Pauses, B.SomeBuffers;
    hide B.FilesOf, B.Memories, B.Course.Fits, B.Course.Whole;
    hide t.torrent.CacheValid, t.torrent.QueueAndOwnershipValid, t.torrent.PrioritiesValid, t.torrent.ScheduleValid;
    ghost var was, tick := t.Seen(), Tick(limits, report, t.Usable());
    buffering, added := false, NOTHING;
    if t.torrent.mPaused || !t.hasMetadata || !t.handleValid {
      PassOver(t, others);
      course := B.Course(was.outset, t.files, others, was.files, [], [], 0);
      return;
    }
    var verified, found := B.VerifyFiles(t.torrent, t.files, others);
    buffering, course := verified, found;
    ghost var still := t.torrent.mPaused;
    added := added.(downloadRate := report.downloadRate, uploadRate := report.uploadRate);
    if report.progress < 1.0 {
      added := added.(wanted := report.totalWanted, wantedDone := report.totalWantedDone);
    } else {
      CheckSeeding(t, limits, report);
    }
    CheckedIs(was, t.Seen(), t.files, tick, others, course, still);
  }

  /** Only other threads act on a torrent that is passed over. */
  method PassOver(t: Tracked, others: seq<seq<B.FileStep>>)
    requires t.Valid()
    modifies t.torrent`priorities, t.torrent`deadlines, t.files
    ensures t.Valid() && old(t.Seen()).Skipped(t.Seen(), t.files, others)
  {
    hide t.torrent.CacheValid, t.torrent.QueueAndOwnershipValid, t.torrent.PrioritiesValid, t.torrent.ScheduleValid;
    hide NoCleanups, NoPauses, Untouched, B.Memories, B.Served, B.FilesOf;
    ghost var was := B.Memories(t.files);
    AllArePlaced(t);
    for k := 0 to |others|
      invariant t.Valid()
      invariant forall i :: 0 <= i < |t.files| ==>
                  B.Memories(t.files)[i] == B.ServedAll(t.files[i], i, was[i], others[..k])
    {
      assert others[..k + 1][..k] == others[..k];
      B.OtherSteps(t.torrent, t.files, others[k]);
    }
    assert others[..|others|] == others;
  }

  lemma AllArePlaced(t: Tracked)
    requires t.Valid()
    ensures forall i :: 0 <= i < |t.files| ==> t.files[i].Placed()
  {
  }

  /** `still`: whether the torrent was paused, by another thread, when its files had been checked. */
  lemma CheckedIs(was: View, now: View, files: seq<B.File>, tick: Happening, others: seq<seq<B.FileStep>>,
                  course: B.Course, still: bool)
    requires tick.Tick? && !was.paused && tick.usable
    requires course.start == was.outset && course.files == files && course.others == others
    requires course.was == was.files && course.Whole() && |now.outset.schedule| <= |was.outset.schedule|
    requires course.Fits(now.files, |was.outset.schedule| - |now.outset.schedule|)
    requires NoPauses(was.outset.schedule) ==> !still
    requires now.paused == (still || (tick.report.progress >= 1.0 && LimitReached(tick.limits, tick.report)))
    ensures was.Checked(now, files, tick, others, course)
  {
    hide LimitReached, NoPauses, B.Course.Fits, B.Course.Whole;
    assert [tick][..|[tick]| - 1] == [] && [tick][|[tick]| - 1] == tick;
    assert PausedAfter(was.paused, [tick]) == Pauses(tick);
  }

  function HandlesOf(mTorrents: seq<Tracked>): (torrents: set<Torrent>)
    ensures forall i :: 0 <= i < |mTorrents| ==> mTorrents[i].torrent in torrents
  {
    if mTorrents == [] then {}
    else HandlesOf(mTorrents[..|mTorrents| - 1]) + {mTorrents[|mTorrents| - 1].torrent}
  }

  function FilesOf(mTorrents: seq<Tracked>): (files: set<B.File>)
    ensures forall i, f :: 0 <= i < |mTorrents| && f in mTorrents[i].files ==> f in files
  {
    if mTorrents == [] then {}
    else FilesOf(mTorrents[..|mTorrents| - 1]) + mTorrents[|mTorrents| - 1].FileSet()
  }

  /** The torrents of the service: each its own, with its own files. */
  ghost predicate Tracks(mTorrents: seq<Tracked>)
    reads HandlesOf(mTorrents), FilesOf(mTorrents)
  {
    && (forall i :: 0 <= i < |mTorrents| ==> mTorrents[i].Valid())
    && (forall i, j :: 0 <= i < j < |mTorrents| ==> mTorrents[i].torrent != mTorrents[j].torrent)
  }

  ghost function Views(mTorrents: seq<Tracked>): (views: seq<View>)
    reads HandlesOf(mTorrents), FilesOf(mTorrents)
    ensures |views| == |mTorrents|
    ensures forall i :: 0 <= i < |mTorrents| ==> views[i] == mTorrents[i].Seen()
  {
    if mTorrents == [] then []
    else Views(mTorrents[..|mTorrents| - 1]) + [mTorrents[|mTorrents| - 1].Seen()]
  }

  lemma OwnFiles(t: Tracked, u: Tracked)
    requires t.Valid() && u.Valid() && t.torrent != u.torrent
    ensures forall f :: f in t.files ==> f !in u.files
  {
    assert forall f :: f in t.files ==> f.torrent == t.torrent;
    assert forall f :: f in u.files ==> f.torrent == u.torrent;
  }

  /** The tick of one torrent leaves the others alone. */
  method TickNth(mTorrents: seq<Tracked>, n: nat, t: Tracked, limits: SeedLimits, report: Status,
                 others: seq<seq<B.FileStep>>)
    returns (buffering: bool, added: Totals, ghost course: B.Course)
    requires Tracks(mTorrents) && n < |mTorrents| && t == mTorrents[n] && |others| == |t.files| + 1
    modifies t.torrent, t.files
    ensures Tracks(mTorrents) && Views(mTorrents) == old(Views(mTorrents))[n := t.Seen()]
    ensures old(t.Seen()).Ticked(t.Seen(), t.files, Tick(limits, report, t.Usable()), others, course)
    ensures var eligible := !old(t.torrent.mPaused) && t.Usable();
            && buffering == (eligible && B.SomeBuffers(course.left))
            && added == if eligible then Share(report) else NOTHING
  {
    hide Views, HandlesOf, FilesOf, View.Ticked, B.SomeBuffers, Share;
    hide t.torrent.CacheValid, t.torrent.QueueAndOwnershipValid, t.torrent.PrioritiesValid, t.torrent.ScheduleValid;
    forall i | 0 <= i < |mTorrents| && i != n
      ensures mTorrents[i].torrent != t.torrent && forall f :: f in mTorrents[i].files ==> f !in t.files
    {
      OwnFiles(mTorrents[i], t);
    }
    hide t.Seen, t.Valid;
    var verified, sum, found := TickTorrent(t, limits, report, others);
    buffering, added, course := verified, sum, found;
    forall i | 0 <= i < |mTorrents| && i != n
      ensures mTorrents[i].Seen() == old(mTorrents[i].Seen()) && mTorrents[i].Valid()
    {
    }
  }

  /** Which torrents take part in a tick. */
  ghost function Eligible(mTorrents: seq<Tracked>, views: seq<View>): (eligible: seq<bool>)
    requires |views| == |mTorrents|
    ensures |eligible| == |views|
    ensures forall i :: 0 <= i < |views| ==>
              eligible[i] == (!views[i].paused && mTorrents[i].hasMetadata && mTorrents[i].handleValid)
  {
    seq(|views|, i requires 0 <= i < |views| => !views[i].paused && mTorrents[i].Usable())
  }

  /** Some torrent that took part was found to have a file buffering: a visit left one so. */
  predicate AnyLeft(eligible: seq<bool>, courses: seq<B.Course>)
    requires |eligible| == |courses|
  {
    exists i :: 0 <= i < |courses| && eligible[i] && B.SomeBuffers(courses[i].left)
  }

  /** Some torrent that took part has a file that buffers. */
  predicate AnyBuffers(eligible: seq<bool>, views: seq<View>)
    requires |eligible| == |views|
  {
    exists i :: 0 <= i < |views| && eligible[i] && B.SomeBuffers(views[i].files)
  }

  /** What other threads ask of the files of each torrent, in batches around the visits. */
  predicate Around(mTorrents: seq<Tracked>, others: seq<seq<seq<B.FileStep>>>) {
    && |others| == |mTorrents|
    && forall i :: 0 <= i < |mTorrents| ==> |others[i]| == |mTorrents[i].files| + 1
  }

  /** A tick: its limits, what each handle reports, and what other threads ask of files meanwhile. */
  datatype Round = Round(limits: SeedLimits, reports: seq<Status>, others: seq<seq<seq<B.FileStep>>>) {
    predicate For(mTorrents: seq<Tracked>) {
      |reports| == |mTorrents| && Around(mTorrents, others)
    }

    /** The torrents ticked so far, and the others. */
    ghost predicate TickedUpTo(n: nat, mTorrents: seq<Tracked>, was: seq<View>, now: seq<View>, courses: seq<B.Course>)
      requires For(mTorrents)
    {
      && |now| == |was| == |mTorrents| && n == |courses| <= |was|
      && (forall i :: 0 <= i < n ==>
            was[i].Ticked(now[i], mTorrents[i].files, Tick(limits, reports[i], mTorrents[i].Usable()), others[i],
                          courses[i]))
      && (forall i :: n <= i < |was| ==> now[i] == was[i])
    }
  }

  lemma TickedStep(r: Round, n: nat, mTorrents: seq<Tracked>, was: seq<View>, now: seq<View>, courses: seq<B.Course>,
                   t: View, c: B.Course)
    requires r.For(mTorrents) && r.TickedUpTo(n, mTorrents, was, now, courses) && n < |was|
    ensures now[n] == was[n]
    ensures now[n].Ticked(t, mTorrents[n].files, Tick(r.limits, r.reports[n], mTorrents[n].Usable()), r.others[n], c)
            ==> r.TickedUpTo(n + 1, mTorrents, was, now[n := t], courses + [c])
  {
    hide View.Ticked;
  }

  lemma AnyLeftStep(n: nat, eligible: seq<bool>, courses: seq<B.Course>, c: B.Course)
    requires n == |courses| < |eligible|
    ensures AnyLeft(eligible[..n + 1], courses + [c]) <==>
              AnyLeft(eligible[..n], courses) || (eligible[n] && B.SomeBuffers(c.left))
  {
    hide B.SomeBuffers;
    var more := courses + [c];
    if AnyLeft(eligible[..n], courses) {
      var i :| 0 <= i < n && eligible[..n][i] && B.SomeBuffers(courses[i].left);
      assert eligible[..n + 1][i] && more[i] == courses[i];
    }
    assert eligible[..n + 1][n] == eligible[n] && more[n] == c;
    if AnyLeft(eligible[..n + 1], more) {
      var i :| 0 <= i < |more| && eligible[..n + 1][i] && B.SomeBuffers(more[i].left);
      assert i < n ==> eligible[..n][i] && courses[i] == more[i];
    }
  }

  /** The loop of a tick over the torrents. */
  method TickAll(mTorrents: seq<Tracked>, r: Round)
    returns (total: Totals, hasFilesBuffering: bool, ghost courses: seq<B.Course>)
    requires Tracks(mTorrents) && r.For(mTorrents)
    modifies HandlesOf(mTorrents), FilesOf(mTorrents)
    ensures Tracks(mTorrents)
    ensures total == TotalOf(Eligible(mTorrents, old(Views(mTorrents))), r.reports)
    ensures r.TickedUpTo(|mTorrents|, mTorrents, old(Views(mTorrents)), Views(mTorrents), courses)
    ensures |courses| == |mTorrents|
    ensures hasFilesBuffering == AnyLeft(Eligible(mTorrents, old(Views(mTorrents))), courses)
  {
    hide Tracks, Views, HandlesOf, FilesOf, AnyLeft, View.Ticked, r.TickedUpTo, Share, B.SomeBuffers, TotalOf, Plus;
    ghost var was := Views(mTorrents);
    ghost var eligible := Eligible(mTorrents, was);
    total, hasFilesBuffering, courses := NOTHING, false, [];
    NothingYet(r, mTorrents, was, eligible);
    for n := 0 to |mTorrents|
      invariant Tracks(mTorrents) && |courses| == n
      invariant total == TotalOf(eligible[..n], r.reports[..n])
      invariant r.TickedUpTo(n, mTorrents, was, Views(mTorrents), courses)
      invariant hasFilesBuffering == AnyLeft(eligible[..n], courses)
    {
      ghost var now, t := Views(mTorrents), mTorrents[n];
      var buffering, added, c := TickNth(mTorrents, n, mTorrents[n], r.limits, r.reports[n], r.others[n]);
      if buffering {
        hasFilesBuffering := true;
      }
      TickedStep(r, n, mTorrents, was, now, courses, t.Seen(), c);
      AnyLeftStep(n, eligible, courses, c);
      TotalStep(n, eligible, r.reports);
      total := Plus(total, added);
      courses := courses + [c];
    }
    assert eligible[..|mTorrents|] == eligible && r.reports[..|mTorrents|] == r.reports;
  }

  lemma NothingYet(r: Round, mTorrents: seq<Tracked>, was: seq<View>, eligible: seq<bool>)
    requires r.For(mTorrents) && |was| == |mTorrents| == |eligible|
    ensures r.TickedUpTo(0, mTorrents, was, was, []) && !AnyLeft(eligible[..0], [])
    ensures TotalOf(eligible[..0], r.reports[..0]) == NOTHING
  {
  }

  lemma TotalStep(n: nat, eligible: seq<bool>, reports: seq<Status>)
    requires n < |eligible| == |reports|
    ensures TotalOf(eligible[..n + 1], reports[..n + 1])
         == Plus(TotalOf(eligible[..n], reports[..n]), if eligible[n] then Share(reports[n]) else NOTHING)
  {
    assert eligible[..n + 1][..n] == eligible[..n] && reports[..n + 1][..n] == reports[..n];
  }

  method SetRateLimits(mTorrents: seq<Tracked>, rates: R.RateControl, enable: bool)
    requires Tracks(mTorrents)
    modifies rates
    ensures Tracks(mTorrents) && Views(mTorrents) == old(Views(mTorrents))
    ensures rates.Model() == R.Next(old(rates.Model()), R.Tick(enable))
  {
    hide Views;
    rates.SetBufferingRateLimits(enable);
  }

  /**
   * A tick: totals over the torrents that take part, each of whose files is checked and each of which is
   * paused if it reached a seeding limit; and rate limits that apply iff no visit of a file left it
   * buffering. What other threads ask of a torrent's files at any time of the tick comes before, between
   * or after the visits of that torrent's files: against those of other torrents its order does not matter.
   */
  method UpdateProgress(mTorrents: seq<Tracked>, r: Round, rates: R.RateControl)
    returns (downloadRate: int, uploadRate: int, progress: real, ghost courses: seq<B.Course>)
    requires Tracks(mTorrents) && r.For(mTorrents)
    modifies HandlesOf(mTorrents), FilesOf(mTorrents), rates
    ensures Tracks(mTorrents)
    ensures var total := TotalOf(Eligible(mTorrents, old(Views(mTorrents))), r.reports);
            && downloadRate == total.downloadRate && uploadRate == total.uploadRate
            && progress == Percentage(total.wantedDone, total.wanted)
    ensures r.TickedUpTo(|mTorrents|, mTorrents, old(Views(mTorrents)), Views(mTorrents), courses)
    ensures |courses| == |mTorrents|
    ensures var buffering := AnyLeft(Eligible(mTorrents, old(Views(mTorrents))), courses);
            && rates.Model() == R.Next(old(rates.Model()), R.Tick(!buffering))
            && (old(rates.mSettings).limitAfterBuffering ==> rates.mRateLimited == !buffering)
  {
    hide Views, Tracks, HandlesOf, FilesOf, AnyLeft, r.TickedUpTo, TotalOf, Eligible;
    var total, hasFilesBuffering, found := TickAll(mTorrents, r);
    courses := found;
    SetRateLimits(mTorrents, rates, !hasFilesBuffering);
    downloadRate := total.downloadRate;
    uploadRate := total.uploadRate;
    progress := if total.wanted > 0 then 100.0 * total.wantedDone as real / total.wanted as real else 100.0;
  }

  /** Some torrent that took part has a file left buffering and not stopped since, or made to buffer since. */
  ghost predicate AnyStillBuffers(eligible: seq<bool>, courses: seq<B.Course>)
    requires |eligible| == |courses|
  {
    exists i :: 0 <= i < |courses| && eligible[i] && courses[i].Whole() && B.SomeStillBuffers(courses[i])
  }

  /** No file of a torrent that took part has been made to buffer since its visit. */
  ghost predicate NoneBegun(eligible: seq<bool>, courses: seq<B.Course>)
    requires |eligible| == |courses|
  {
    forall i :: 0 <= i < |courses| && eligible[i] && courses[i].Whole() ==> B.NoneBegun(courses[i])
  }

  /**
   * What a tick decides against the files when it ends. Limits brought back because no file buffers are right
   * then iff none was made to buffer since its visit; limits lifted because one does, iff some file was left
   * buffering and not stopped since, or was made to buffer since.
   */
  lemma LimitsMatchFilesIff(r: Round, mTorrents: seq<Tracked>, was: seq<View>, now: seq<View>, courses: seq<B.Course>)
    requires r.For(mTorrents) && |was| == |mTorrents| && r.TickedUpTo(|mTorrents|, mTorrents, was, now, courses)
    ensures var eligible := Eligible(mTorrents, was);
            AnyBuffers(eligible, now) == AnyLeft(eligible, courses) <==>
              if AnyLeft(eligible, courses) then AnyStillBuffers(eligible, courses) else NoneBegun(eligible, courses)
  {
    var eligible := Eligible(mTorrents, was);
    forall i | 0 <= i < |courses| && eligible[i]
      ensures courses[i].Whole() && (B.SomeBuffers(now[i].files) <==> B.SomeStillBuffers(courses[i]))
      ensures !B.SomeBuffers(courses[i].left) ==> (B.SomeBuffers(now[i].files) <==> !B.NoneBegun(courses[i]))
    {
      B.EndAnswer(courses[i], now[i].files, |was[i].outset.schedule| - |now[i].outset.schedule|);
    }
    hide B.SomeBuffers, B.SomeStillBuffers, B.NoneBegun, B.Course.Whole, r.TickedUpTo, Eligible;
  }
}

/**
 * Rate limits that apply only once nothing buffers: the session's limits over every sequence of
 * start, reconfiguration and progress tick. Each event holds the service mutex.
 */
module RateLimits {
  import opened Common

  datatype Limits = Limits(download: int, upload: int)

  const UNLIMITED := Limits(0, 0)

  datatype RateSettings = RateSettings(limitAfterBuffering: bool, maximum: Limits)

  datatype State = State(rateLimited: bool, settings: RateSettings, session: Limits)

  datatype Event = Reconfigure(settings: RateSettings) | Tick(nothingBuffers: bool)

  function Started(settings: RateSettings): State {
    State(true, settings, settings.maximum)
  }

  /** The settings pack overrides the session's limits only when they apply now. */
  function Next(s: State, e: Event): State {
    match e
    case Reconfigure(p) =>
      State(s.rateLimited || !p.limitAfterBuffering, p,
            if !p.limitAfterBuffering || s.rateLimited then p.maximum else s.session)
    case Tick(enable) =>
      if s.settings.limitAfterBuffering && s.rateLimited != enable
      then s.(rateLimited := enable, session := if enable then s.settings.maximum else UNLIMITED)
      else s
  }

  function After(start: RateSettings, events: seq<Event>): State {
    if events == [] then Started(start) else Next(After(start, events[..|events| - 1]), events[|events| - 1])
  }

  /** Limited means the session has the configured limits; not limited, that it has none and the option is on. */
  predicate Inv(s: State) {
    if s.rateLimited then s.session == s.settings.maximum
    else s.session == UNLIMITED && s.settings.limitAfterBuffering
  }

  /** The settings last given: at the start, or by the last reconfiguration. */
  function LastGiven(start: RateSettings, events: seq<Event>): RateSettings {
    if events == [] then start
    else if events[|events| - 1].Reconfigure? then events[|events| - 1].settings
    else LastGiven(start, events[..|events| - 1])
  }

  /**
   * In every run the session has the limits last configured, or none at all, which is how it has none: a limit of
   * 0 for downloads and uploads. It has none only while the option last configured is on.
   */
  lemma {:induction false} LimitsAreThoseGiven(start: RateSettings, events: seq<Event>)
    ensures var s, given := After(start, events), LastGiven(start, events);
            && s.settings == given
            && s.session == (if s.rateLimited then given.maximum else Limits(0, 0))
            && (!given.limitAfterBuffering ==> s.session == given.maximum)
  {
    RateLimitInvariant(start, events);
    if events != [] {
      LimitsAreThoseGiven(start, events[..|events| - 1]);
    }
  }

  lemma {:induction false} RateLimitInvariant(start: RateSettings, events: seq<Event>)
    ensures Inv(After(start, events))
  {
    if events != [] {
      RateLimitInvariant(start, events[..|events| - 1]);
    }
  }

  /** After a tick with the option on, the limits apply iff nothing buffers; with it off they always do. */
  lemma TickDecides(start: RateSettings, events: seq<Event>, nothingBuffers: bool)
    ensures var s := After(start, events + [Tick(nothingBuffers)]);
            && s.rateLimited == (nothingBuffers || !s.settings.limitAfterBuffering)
            && s.session == if nothingBuffers || !s.settings.limitAfterBuffering then s.settings.maximum else UNLIMITED
  {
    var all := events + [Tick(nothingBuffers)];
    assert all[..|all| - 1] == events;
    RateLimitInvariant(start, events);
  }

  /** Tick `i` lifted the limits, and nothing has brought them back since. */
  ghost predicate LiftedAt(start: RateSettings, events: seq<Event>, i: nat) {
    && i < |events| && events[i] == Tick(false) && After(start, events[..i]).settings.limitAfterBuffering
    && forall j :: i < j < |events| ==>
         events[j] != Tick(true) && !(events[j].Reconfigure? && !events[j].settings.limitAfterBuffering)
  }

  /**
   * The session is unlimited exactly when some tick found a file buffering with the option on, and
   * since then no tick found none and no reconfiguration turned the option off.
   */
  lemma {:induction false} LiftedIff(start: RateSettings, events: seq<Event>)
    ensures !After(start, events).rateLimited <==> exists i: nat :: LiftedAt(start, events, i)
  {
    if events != [] {
      var last := |events| - 1;
      var before := events[..last];
      LiftedIff(start, before);
      RateLimitInvariant(start, before);
      forall i: nat | i < last
        ensures LiftedAt(start, events, i) <==>
                  LiftedAt(start, before, i) && events[last] != Tick(true)
                  && !(events[last].Reconfigure? && !events[last].settings.limitAfterBuffering)
      {
        assert before[..i] == events[..i];
      }
      if !After(start, events).rateLimited {
        if events[last] == Tick(false) && After(start, before).settings.limitAfterBuffering {
          assert LiftedAt(start, events, last);
        } else {
          var i: nat :| LiftedAt(start, before, i);
          assert LiftedAt(start, events, i);
        }
      } else if i: nat :| LiftedAt(start, events, i) {
        assert i < last ==> LiftedAt(start, before, i);
      }
    }
  }

  /** The part of the service that holds the limits. */
  class RateControl {
    var mRateLimited: bool
    var mSettings: RateSettings
    var session: Limits

    ghost function Model(): State
      reads this
    {
      State(mRateLimited, mSettings, session)
    }

    constructor (settings: RateSettings)
      ensures Model() == Started(settings)
    {
      mRateLimited := true;
      mSettings := settings;
      new;
      // The session is created with whatever the pack sets.
      session := UNLIMITED;
      var pack := Configure(settings);
      if pack.Some? {
        session := pack.value;
      }
    }

    /** The rate limits a settings pack carries, if any. */
    method Configure(settings: RateSettings) returns (pack: Option<Limits>)
      ensures pack == if !settings.limitAfterBuffering || mRateLimited then Some(settings.maximum) else None
    {
      pack := None;
      if !settings.limitAfterBuffering || mRateLimited {
        pack := Some(settings.maximum);
      }
    }

    method Reconfigure(settings: RateSettings)
      modifies this
      ensures Model() == Next(old(Model()), Event.Reconfigure(settings))
      ensures mSettings == settings
    {
      var pack := Configure(settings);
      if pack.Some? {
        session := pack.value;
      }
      mSettings := settings;
      mRateLimited := mRateLimited || !settings.limitAfterBuffering;
    }

    method SetBufferingRateLimits(enable: bool)
      modifies this
      ensures Model() == Next(old(Model()), Tick(enable))
    {
      if mSettings.limitAfterBuffering && mRateLimited != enable {
        session := Limits(if enable then mSettings.maximum.download else 0,
                          if enable then mSettings.maximum.upload else 0);
        mRateLimited := enable;
      }
    }
  }
}

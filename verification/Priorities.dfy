/** What a reader does to the priorities and deadlines of the pieces ahead of its position. */
module Priorities {
  import opened Common

  const AHEAD_PRIORITY := 6

  /** The pieces a reader looks at: `window` pieces past `first`, then `ahead` more, none past `last`. */
  datatype Span = Span(first: int, window: int, ahead: int, last: int) {
    predicate Has(p: int) {
      first <= p <= first + window + ahead && p <= last
    }

    function Wanted(p: int): int {
      if p - first <= window then TOP_PRIORITY else AHEAD_PRIORITY
    }

    function Deadline(p: int): int {
      if p - first <= window then 0 else (p - first - window) * 10
    }

    predicate Raises(p: int, priorities: map<int, int>, owned: set<int>) {
      p in priorities && Has(p) && p !in owned && priorities[p] < Wanted(p)
    }

    /** The priorities after the reader has looked at the pieces of the span below `bound`. */
    function RaisedBelow(priorities: map<int, int>, owned: set<int>, bound: int): map<int, int> {
      map p | p in priorities :: if p < bound && Raises(p, priorities, owned) then Wanted(p) else priorities[p]
    }

    /** The deadlines at that moment: set together with a priority, left alone otherwise. */
    function ScheduledBelow(deadlines: map<int, int>, priorities: map<int, int>, owned: set<int>, bound: int)
      : map<int, int>
    {
      map p | p in deadlines.Keys + (set q | q in priorities && q < bound && Raises(q, priorities, owned))
        :: if p < bound && Raises(p, priorities, owned) then Deadline(p) else deadlines[p]
    }

    /** The priorities and deadlines after the whole pass. */
    function Raised(priorities: map<int, int>, owned: set<int>): map<int, int> {
      map p | p in priorities :: if Raises(p, priorities, owned) then Wanted(p) else priorities[p]
    }

    function Scheduled(deadlines: map<int, int>, priorities: map<int, int>, owned: set<int>): map<int, int> {
      map p | p in deadlines.Keys + (set q | q in priorities && Raises(q, priorities, owned))
        :: if Raises(p, priorities, owned) then Deadline(p) else deadlines[p]
    }
  }

  /** What one more piece of the pass changes. */
  lemma RaisedStep(s: Span, priorities: map<int, int>, owned: set<int>, p: int)
    requires p in priorities
    ensures var before := s.RaisedBelow(priorities, owned, p);
            && p in before && before[p] == priorities[p]
            && s.RaisedBelow(priorities, owned, p + 1)
               == if s.Raises(p, priorities, owned) then before[p := s.Wanted(p)] else before
  {
  }

  lemma ScheduledStep(s: Span, deadlines: map<int, int>, priorities: map<int, int>, owned: set<int>, p: int)
    requires p in priorities
    ensures var before := s.ScheduledBelow(deadlines, priorities, owned, p);
            s.ScheduledBelow(deadlines, priorities, owned, p + 1)
            == if s.Raises(p, priorities, owned) then before[p := s.Deadline(p)] else before
  {
  }

  /** Whether a piece is owned when it is looked at decides what the pass does to it, and to no piece before it. */
  lemma OwnedLater(s: Span, deadlines: map<int, int>, priorities: map<int, int>, owned: set<int>, p: int)
    ensures s.RaisedBelow(priorities, owned + {p}, p) == s.RaisedBelow(priorities, owned, p)
    ensures s.ScheduledBelow(deadlines, priorities, owned + {p}, p) == s.ScheduledBelow(deadlines, priorities, owned, p)
  {
  }

  lemma OwnedNotRaised(s: Span, priorities: map<int, int>, owned: set<int>, p: int)
    requires p in owned
    ensures !s.Raises(p, priorities, owned)
  {
  }

  lemma MissingRaised(s: Span, priorities: map<int, int>, owned: set<int>, p: int)
    requires p in priorities && s.Has(p) && p !in owned
    ensures s.Raises(p, priorities, owned) <==> priorities[p] < s.Wanted(p)
  {
  }

  /** A pass starts with nothing changed. */
  lemma PassStarts(s: Span, deadlines: map<int, int>, priorities: map<int, int>, owned: set<int>)
    ensures s.RaisedBelow(priorities, owned, s.first) == priorities
    ensures s.ScheduledBelow(deadlines, priorities, owned, s.first) == deadlines
  {
  }

  /** A pass that has left the span has done all it will do. */
  lemma PassEnds(s: Span, deadlines: map<int, int>, priorities: map<int, int>, owned: set<int>, end: int)
    requires forall p :: end <= p ==> !s.Has(p)
    ensures s.RaisedBelow(priorities, owned, end) == s.Raised(priorities, owned)
    ensures s.ScheduledBelow(deadlines, priorities, owned, end) == s.Scheduled(deadlines, priorities, owned)
  {
  }

  /**
   * Read-ahead: no priority falls, missing pieces of the window end at the top, missing
   * pieces ahead at 6 or more, and pieces that are owned or outside the span are untouched.
   */
  lemma RaisedIsMonotone(s: Span, priorities: map<int, int>, owned: set<int>, p: int)
    requires p in priorities && priorities[p] <= TOP_PRIORITY
    ensures var after := s.Raised(priorities, owned);
            && after.Keys == priorities.Keys
            && priorities[p] <= after[p] <= TOP_PRIORITY
            && (s.Has(p) && p !in owned && p <= s.first + s.window ==> after[p] == TOP_PRIORITY)
            && (s.Has(p) && p !in owned ==> after[p] >= AHEAD_PRIORITY)
            && (!s.Has(p) || p in owned ==> after[p] == priorities[p])
  {
    assert s.Raised(priorities, owned).Keys == priorities.Keys;
  }

  /**
   * What becomes of the piece `i` past the first: in the window it ends at priority 7, to come at once if it
   * was below; further ahead at 6 or more, to come in 10 milliseconds for each piece past the window if it was
   * below. Other pieces, and those owned, keep their deadline too.
   */
  lemma PassInNumbers(s: Span, deadlines: map<int, int>, priorities: map<int, int>, owned: set<int>, i: int)
    requires s.first + i in priorities && priorities[s.first + i] <= 7
    ensures var p, after, due := s.first + i, s.Raised(priorities, owned), s.Scheduled(deadlines, priorities, owned);
            if 0 <= i <= s.window + s.ahead && p <= s.last && p !in owned then
              if i <= s.window then after[p] == 7 && (priorities[p] < 7 ==> p in due && due[p] == 0)
              else
                && after[p] == Max(priorities[p], 6)
                && (priorities[p] < 6 ==> p in due && due[p] == 10 * (i - s.window))
            else
              after[p] == priorities[p] && (p in due <==> p in deadlines) && (p in due ==> due[p] == deadlines[p])
    // One that has the priority already keeps its deadline.
    ensures var p, due := s.first + i, s.Scheduled(deadlines, priorities, owned);
            priorities[p] >= (if i <= s.window then 7 else 6) ==>
              (p in due <==> p in deadlines) && (p in due ==> due[p] == deadlines[p])
  {
    var p, due := s.first + i, s.Scheduled(deadlines, priorities, owned);
    assert due.Keys == deadlines.Keys + set q | q in priorities && s.Raises(q, priorities, owned);
    assert p in due <==> p in deadlines || s.Raises(p, priorities, owned);
  }

  /** Deadlines given in one pass do not decrease from one piece to a later one. */
  lemma DeadlinesOrdered(s: Span, deadlines: map<int, int>, priorities: map<int, int>, owned: set<int>, p: int, q: int)
    requires p <= q && s.Raises(p, priorities, owned) && s.Raises(q, priorities, owned)
    ensures var after := s.Scheduled(deadlines, priorities, owned);
            p in after && q in after && 0 <= after[p] <= after[q]
  {
    var after := s.Scheduled(deadlines, priorities, owned);
    assert p in after.Keys && q in after.Keys;
  }

  /** Looking twice changes nothing the second time while the same pieces are missing. */
  lemma RaisedTwice(s: Span, priorities: map<int, int>, owned: set<int>)
    ensures var after := s.Raised(priorities, owned);
            s.Raised(after, owned) == after
  {
  }
}

/** The event list of components/HomeView.jsx: the name search, the status
    filter and the per-event attendance figures. */
module HomeView {
  import opened Common
  import opened Text
  import opened Roster
  import opened Helpers
  import opened UseEvents

  /** The status filter key that admits every event. */
  const StatusAll: string := "all"

  /** The name contains the search term, ignoring case, and the status
      matches the filter unless the filter is "all". */
  predicate EventShown(e: Event, term: string, statusFilter: string) {
    Contains(Lower(e.name), Lower(term)) && (statusFilter == StatusAll || e.status == statusFilter)
  }

  /** `filteredEvents`. */
  function FilteredEvents(events: seq<Event>, term: string, statusFilter: string): (r: seq<Event>)
    ensures forall e :: e in r <==> e in events && EventShown(e, term, statusFilter)
    ensures IsSubseq(r, events)
    ensures forall e :: multiset(r)[e] == if EventShown(e, term, statusFilter) then multiset(events)[e] else 0
  {
    FilterIsSubseq(events, (e: Event) => EventShown(e, term, statusFilter));
    FilterMultiset(events, (e: Event) => EventShown(e, term, statusFilter));
    Filter(events, (e: Event) => EventShown(e, term, statusFilter))
  }

  /** With an empty search, "all" lists every event, and on a list whose
      statuses are current a status key lists exactly the events whose
      date gives that status today. */
  lemma FilteredEventsByStatus(events: seq<Event>, statusFilter: string, today: int)
    ensures FilteredEvents(events, "", StatusAll) == events
    ensures forall e :: e in FilteredEvents(events, "", statusFilter) <==>
              e in events && (statusFilter == StatusAll || e.status == statusFilter)
    ensures StatusesCurrent(events, today) ==>
              forall e :: e in FilteredEvents(events, "", statusFilter) <==>
                e in events && (statusFilter == StatusAll || GetEventStatus(e.date, today) == statusFilter)
  {
    forall e | e in events ensures Contains(Lower(e.name), Lower("")) {
      ContainsEmpty(Lower(e.name));
    }
    FilterAll(events, (e: Event) => EventShown(e, "", StatusAll));
  }

  /** Multiplying by a natural number keeps an order. */
  lemma MulLe(a: nat, b: int, c: int)
    requires b <= c
    ensures a * b <= a * c
  {
  }

  /** The bounds of the rounded percentage. */
  lemma PercentBounds(present: nat, total: nat, q: int)
    requires 0 < total && present <= total
    requires q == (200 * present + total) / (2 * total)
    ensures 0 <= q <= 100
    ensures 2 * total * q <= 200 * present + total < 2 * total * (q + 1)
    ensures present == total ==> q == 100
    ensures present == 0 ==> q == 0
  {
    var d := 2 * total;
    var x := 200 * present + total;
    assert x == d * q + x % d && 0 <= x % d < d;
    assert d * q <= x < d * (q + 1);
    if q > 100 {
      MulLe(d, 101, q);
    }
    if present == total && q < 100 {
      MulLe(d, q + 1, 100);
    }
    if present == 0 && q > 0 {
      MulLe(d, 1, q);
    }
  }

  /** `Math.round(present / total * 100)` in exact arithmetic, where
      half-way values round up. */
  function RoundPercent(present: nat, total: nat): (rate: nat)
    requires 0 < total && present <= total
    ensures rate <= 100
    ensures 2 * total * rate <= 200 * present + total < 2 * total * (rate + 1)
    ensures present == total ==> rate == 100
    ensures present == 0 ==> rate == 0
  {
    PercentBounds(present, total, (200 * present + total) / (2 * total));
    (200 * present + total) / (2 * total)
  }

  /** The name search ignores the case of the term. */
  lemma EventSearchIgnoresCase(e: Event, term: string, statusFilter: string)
    ensures EventShown(e, term, statusFilter) == EventShown(e, Lower(term), statusFilter)
  {
    LowerIdempotent(term);
  }

  /** The figures on an event's card. */
  datatype Stats = Stats(present: nat, total: nat, rate: nat)

  /** Present count, roster size and attendance rate, 0 for an empty
      roster. */
  function EventStats(e: Event): (s: Stats)
    ensures s.total == |e.participants| && s.present <= s.total
    ensures s.rate <= 100
    ensures s.total == 0 ==> s.rate == 0
    ensures s.total > 0 ==> s.rate == RoundPercent(s.present, s.total)
  {
    var present := |Filter(e.participants, IsPresent)|;
    var total := |e.participants|;
    Stats(present, total, if total > 0 then RoundPercent(present, total) else 0)
  }

  /** A full room shows 100 and an empty one 0. */
  lemma RateExtremes(e: Event)
    ensures |e.participants| > 0 && (forall p :: p in e.participants ==> p.isPresent) ==> EventStats(e).rate == 100
    ensures (forall p :: p in e.participants ==> !p.isPresent) ==> EventStats(e).rate == 0
  {
    if forall p :: p in e.participants ==> p.isPresent {
      FilterAll(e.participants, IsPresent);
    }
    if forall p :: p in e.participants ==> !p.isPresent {
      FilterNone(e.participants, IsPresent);
    }
  }
}

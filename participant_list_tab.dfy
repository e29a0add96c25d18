/** The roster view of components/ParticipantListTab.jsx: the search and
    the status filter over the selected event's participants, the counters,
    the manual-addition form and the presence toggle, which reach the
    parent as call values. */
module ParticipantListTab {
  import opened Common
  import opened Text
  import opened Roster
  import opened UseEvents
  import opened ScannerTab

  /** The filter keys the buttons set. */
  const KeyAll: string := "all"
  const KeyPresent: string := "present"
  const KeyAbsent: string := "absent"
  const KeyManual: string := "manual"

  /** The text a search runs over: name, first name, email and id, joined
      by spaces and lower-cased. */
  function SearchText(p: Participant): string {
    Lower(p.nom + " " + p.prenom + " " + p.email + " " + p.id)
  }

  /** The search term, lower-cased, occurs in the search text. */
  predicate MatchesSearch(p: Participant, term: string) {
    Contains(SearchText(p), Lower(term))
  }

  /** The status filter; a key other than the four lets everyone through. */
  predicate MatchesFilter(p: Participant, filter: string) {
    if filter == KeyAll then true
    else if filter == KeyPresent then p.isPresent
    else if filter == KeyAbsent then !p.isPresent
    else if filter == KeyManual then p.source == SourceManual
    else true
  }

  predicate Shown(p: Participant, term: string, filter: string) {
    MatchesSearch(p, term) && MatchesFilter(p, filter)
  }

  /** `filteredParticipants`: the participants the search and the filter
      both admit, in roster order. */
  function FilteredParticipants(ps: seq<Participant>, term: string, filter: string): (r: seq<Participant>)
    ensures forall p :: p in r <==> p in ps && Shown(p, term, filter)
    ensures IsSubseq(r, ps)
    ensures forall p :: multiset(r)[p] == if Shown(p, term, filter) then multiset(ps)[p] else 0
  {
    FilterIsSubseq(ps, (p: Participant) => Shown(p, term, filter));
    FilterMultiset(ps, (p: Participant) => Shown(p, term, filter));
    Filter(ps, (p: Participant) => Shown(p, term, filter))
  }

  /** With an empty search each filter key shows exactly the participants
      its counter counts, and "all" or an unknown key shows the whole
      roster. */
  lemma FilterKinds(ps: seq<Participant>, filter: string)
    ensures filter == KeyPresent ==> FilteredParticipants(ps, "", filter) == Filter(ps, IsPresent)
    ensures filter == KeyAbsent ==> FilteredParticipants(ps, "", filter) == Filter(ps, IsAbsent)
    ensures filter == KeyManual ==> FilteredParticipants(ps, "", filter) == Filter(ps, IsManual)
    ensures filter !in {KeyPresent, KeyAbsent, KeyManual} ==> FilteredParticipants(ps, "", filter) == ps
  {
    var shown := (p: Participant) => Shown(p, "", filter);
    forall p | p in ps ensures MatchesSearch(p, "") {
      ContainsEmpty(SearchText(p));
    }
    if filter == KeyPresent {
      FilterSame(ps, shown, IsPresent);
    } else if filter == KeyAbsent {
      FilterSame(ps, shown, IsAbsent);
    } else if filter == KeyManual {
      FilterSame(ps, shown, IsManual);
    } else {
      FilterAll(ps, shown);
    }
  }

  /** A participant passing the filter is shown whenever the search term
      occurs, up to case, in their name, first name, email or id. */
  lemma SearchFindsEachField(p: Participant, term: string, filter: string)
    requires MatchesFilter(p, filter)
    requires || Contains(Lower(p.nom), Lower(term)) || Contains(Lower(p.prenom), Lower(term))
             || Contains(Lower(p.email), Lower(term)) || Contains(Lower(p.id), Lower(term))
    ensures Shown(p, term, filter)
  {
    var whole := p.nom + " " + p.prenom + " " + p.email + " " + p.id;
    var needle := Lower(term);
    if Contains(Lower(p.nom), needle) {
      assert [] + p.nom + (" " + p.prenom + " " + p.email + " " + p.id) == whole;
      ContainsLowerWithin([], p.nom, " " + p.prenom + " " + p.email + " " + p.id, needle);
    } else if Contains(Lower(p.prenom), needle) {
      assert (p.nom + " ") + p.prenom + (" " + p.email + " " + p.id) == whole;
      ContainsLowerWithin(p.nom + " ", p.prenom, " " + p.email + " " + p.id, needle);
    } else if Contains(Lower(p.email), needle) {
      assert (p.nom + " " + p.prenom + " ") + p.email + (" " + p.id) == whole;
      ContainsLowerWithin(p.nom + " " + p.prenom + " ", p.email, " " + p.id, needle);
    } else {
      assert (p.nom + " " + p.prenom + " " + p.email + " ") + p.id + [] == whole;
      ContainsLowerWithin(p.nom + " " + p.prenom + " " + p.email + " ", p.id, [], needle);
    }
  }

  /** The search ignores the case of the term. */
  lemma SearchIgnoresCase(p: Participant, term: string, filter: string)
    ensures Shown(p, term, filter) == Shown(p, Lower(term), filter)
  {
    LowerIdempotent(term);
  }

  /** The counters: present and absent participants add up to the roster,
      and the list never shows more than the roster holds. */
  lemma Counters(ps: seq<Participant>, term: string, filter: string)
    ensures |Filter(ps, IsPresent)| + |Filter(ps, IsAbsent)| == |ps|
    ensures |FilteredParticipants(ps, term, filter)| <= |ps|
  {
    PresentAbsentPartition(ps);
  }

  /** The presence button: cancel a present participant, mark an absent
      one, always in manual mode. */
  function ToggleCall(p: Participant): PresenceCall {
    PresenceCall(p.id, !p.isPresent, ModeManual)
  }

  /** Marking an absent participant and then cancelling gives them back as
      they were: absent, with no time and no mode. */
  lemma ToggleTwiceRestores(p: Participant, now: string, now2: string)
    requires !p.isPresent && p.presenceDate.None? && p.validationMode.None?
    ensures var c1 := ToggleCall(p);
            var q := SetPresence(p, c1.isPresent, c1.mode, now);
            var c2 := ToggleCall(q);
            && q.isPresent && q.validationMode == Some(ModeManual)
            && SetPresence(q, c2.isPresent, c2.mode, now2) == p
  {
  }

  /** The tab's state: the search, the filter key and the addition form. */
  class ListState {
    var searchTerm: string
    var filter: string
    var showAddForm: bool
    var newParticipant: Draft

    constructor()
      ensures searchTerm == "" && filter == KeyAll && !showAddForm
      ensures newParticipant == Draft("", "", "", "")
    {
      searchTerm := "";
      filter := KeyAll;
      showAddForm := false;
      newParticipant := Draft("", "", "", "");
    }

    /** What the list shows. */
    function Visible(ps: seq<Participant>): (r: seq<Participant>)
      reads this
      ensures forall p :: p in r <==> p in ps && Shown(p, searchTerm, filter)
      ensures IsSubseq(r, ps)
    {
      FilteredParticipants(ps, searchTerm, filter)
    }

    /** `handleAddParticipant`: with a name, a first name and an email,
        hand the draft to the parent, clear the form and close it;
        otherwise do nothing. */
    method HandleAddParticipant(markPresent: bool) returns (call: Option<AddCall>)
      modifies this
      ensures var d := old(newParticipant);
              d.nom == "" || d.prenom == "" || d.email == "" ==>
                call.None? && newParticipant == d && showAddForm == old(showAddForm)
      ensures var d := old(newParticipant);
              d.nom != "" && d.prenom != "" && d.email != "" ==>
                && call == Some(AddCall(d, markPresent))
                && newParticipant == Draft("", "", "", "") && !showAddForm
      ensures searchTerm == old(searchTerm) && filter == old(filter)
    {
      if newParticipant.nom == "" || newParticipant.prenom == "" || newParticipant.email == "" {
        call := None;
        return;
      }
      call := Some(AddCall(newParticipant, markPresent));
      newParticipant := Draft("", "", "", "");
      showAddForm := false;
    }
  }
}

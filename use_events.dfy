/** The event store of hooks/useEvents.js. Every operation computes a new
    event list from the previous one (`setEvents(prev => ...)`); the
    functions below are those transforms, and `EventStore` is the hook's
    state, replaced by each operation. The clock (`new Date()`), today's
    calendar day and the generated ids are parameters. */
module UseEvents {
  import opened Common
  import opened Text
  import opened Roster
  import opened Helpers

  // ------------------------------------------------------------ events

  /** What the creation form hands to `createEvent`; `participants` is None
      when the field is absent. */
  datatype EventData = EventData(
    name: string,
    date: DateValue,
    location: string,
    capacity: Option<int>,
    description: string,
    participants: Option<seq<Participant>>)

  /** Every event's status is the one its date gives today. */
  predicate StatusesCurrent(events: seq<Event>, today: int) {
    forall k :: 0 <= k < |events| ==> events[k].status == GetEventStatus(events[k].date, today)
  }

  /** `createEvent`'s record: the generated id, the given fields,
      `participants || []`, the creation time and the status of its date. */
  function NewEvent(data: EventData, id: string, now: string, today: int): Event {
    Event(id, data.name, data.date, data.location, data.capacity, data.description,
          if data.participants.Some? then data.participants.value else [],
          now, GetEventStatus(data.date, today))
  }

  /** A created event has the generated id, an empty roster unless one was
      given, and the status its date gives today. */
  lemma NewEventShape(data: EventData, id: string, now: string, today: int)
    ensures NewEvent(data, id, now, today).id == id
    ensures data.participants.None? ==> NewEvent(data, id, now, today).participants == []
    ensures StatusesCurrent([NewEvent(data, id, now, today)], today)
  {
  }

  /** The fields an `updates` object may carry: None for an absent key. */
  datatype Patch = Patch(
    id: Option<string>,
    name: Option<string>,
    date: Option<DateValue>,
    location: Option<string>,
    capacity: Option<Option<int>>,
    description: Option<string>,
    participants: Option<seq<Participant>>,
    createdAt: Option<string>,
    status: Option<string>)

  /** The patch with no keys. */
  const NoChange: Patch := Patch(None, None, None, None, None, None, None, None, None)

  /** `{ ...value, ...override }` for one key. */
  function Override<T>(value: T, o: Option<T>): T {
    if o.Some? then o.value else value
  }

  /** A patch's date is truthy: present with non-empty text. */
  predicate DateTruthy(u: Patch) {
    u.date.Some? && u.date.value.text != ""
  }

  /** `{ ...event, ...updates }`, with the status recomputed from
      `updates.date` when that is truthy. */
  function PatchEvent(e: Event, u: Patch, today: int): Event {
    var merged := Event(
      Override(e.id, u.id), Override(e.name, u.name), Override(e.date, u.date),
      Override(e.location, u.location), Override(e.capacity, u.capacity),
      Override(e.description, u.description), Override(e.participants, u.participants),
      Override(e.createdAt, u.createdAt), Override(e.status, u.status));
    if DateTruthy(u) then merged.(status := GetEventStatus(u.date.value, today)) else merged
  }

  /** `updateEvent`'s transform. */
  function UpdateEvents(events: seq<Event>, eventId: string, u: Patch, today: int): (r: seq<Event>)
    ensures |r| == |events|
  {
    seq(|events|, k requires 0 <= k < |events| =>
      if events[k].id == eventId then PatchEvent(events[k], u, today) else events[k])
  }

  /** Only events with the given id change; in them the status is
      recomputed exactly when the patch's date is truthy, and is otherwise
      the patch's status or the old one. */
  lemma UpdateEventsFrame(events: seq<Event>, eventId: string, u: Patch, today: int)
    ensures forall k :: 0 <= k < |events| && events[k].id != eventId ==>
              UpdateEvents(events, eventId, u, today)[k] == events[k]
    ensures forall k :: 0 <= k < |events| && events[k].id == eventId ==>
              UpdateEvents(events, eventId, u, today)[k].status ==
                (if DateTruthy(u) then GetEventStatus(u.date.value, today)
                 else Override(events[k].status, u.status))
    ensures forall k :: 0 <= k < |events| && events[k].id == eventId ==>
              UpdateEvents(events, eventId, u, today)[k].participants == Override(events[k].participants, u.participants)
  {
  }

  /** An update without keys changes nothing, and applying the same update
      twice is applying it once. */
  lemma {:induction false} UpdateEventsIdempotent(events: seq<Event>, eventId: string, u: Patch, today: int)
    ensures UpdateEvents(events, eventId, NoChange, today) == events
    ensures UpdateEvents(UpdateEvents(events, eventId, u, today), eventId, u, today) ==
            UpdateEvents(events, eventId, u, today)
  {
    var once := UpdateEvents(events, eventId, u, today);
    var twice := UpdateEvents(once, eventId, u, today);
    forall k | 0 <= k < |events| ensures twice[k] == once[k] {
      if once[k].id == eventId {
        var e := events[k];
        if e.id == eventId {
          assert PatchEvent(PatchEvent(e, u, today), u, today) == PatchEvent(e, u, today);
        }
      }
    }
  }

  /** An update keeps the statuses current unless it sets the status
      itself or sets a date whose text is empty. */
  lemma UpdateEventsKeepsStatusesCurrent(events: seq<Event>, eventId: string, u: Patch, today: int)
    requires StatusesCurrent(events, today)
    requires u.status.None? && (u.date.Some? ==> DateTruthy(u))
    ensures StatusesCurrent(UpdateEvents(events, eventId, u, today), today)
  {
  }

  /** `deleteEvent`'s transform. */
  function DeleteEvents(events: seq<Event>, eventId: string): seq<Event> {
    Filter(events, (e: Event) => e.id != eventId)
  }

  /** Deleting removes every event with the id, keeps every other one and
      preserves their order. */
  lemma DeleteEventsShape(events: seq<Event>, eventId: string)
    ensures forall e :: e in DeleteEvents(events, eventId) ==> e.id != eventId
    ensures forall e :: e in events && e.id != eventId ==> e in DeleteEvents(events, eventId)
    ensures IsSubseq(DeleteEvents(events, eventId), events)
    ensures forall e :: multiset(DeleteEvents(events, eventId))[e] == if e.id != eventId then multiset(events)[e] else 0
  {
    FilterIsSubseq(events, (e: Event) => e.id != eventId);
    FilterMultiset(events, (e: Event) => e.id != eventId);
  }

  /** The position of the first event with the id, or |events|. */
  function EventIndex(events: seq<Event>, eventId: string): (k: nat)
    ensures k <= |events|
    ensures k < |events| ==> events[k].id == eventId
    ensures forall j :: 0 <= j < k ==> events[j].id != eventId
  {
    if events == [] then 0
    else if events[0].id == eventId then 0
    else 1 + EventIndex(events[1..], eventId)
  }

  /** `getEvent`: `events.find(e => e.id === eventId)`. */
  function LookupEvent(events: seq<Event>, eventId: string): (r: Option<Event>)
    ensures r.None? <==> forall e :: e in events ==> e.id != eventId
    ensures r.Some? ==> r.value in events && r.value.id == eventId
    ensures r.Some? ==> exists k :: 0 <= k < |events| && r.value == events[k] &&
                          forall j :: 0 <= j < k ==> events[j].id != eventId
  {
    var k := EventIndex(events, eventId);
    if k < |events| then Some(events[k]) else None
  }

  /** A created event with a fresh id is found by that id, and deleting it
      again gives back the previous list. */
  lemma CreateThenGetAndDelete(events: seq<Event>, e: Event)
    requires forall x :: x in events ==> x.id != e.id
    ensures LookupEvent(events + [e], e.id) == Some(e)
    ensures DeleteEvents(events + [e], e.id) == events
  {
    FilterAppend(events, [e], (x: Event) => x.id != e.id);
    FilterAll(events, (x: Event) => x.id != e.id);
  }

  // ------------------------------------------------------ participants

  /** The presence fields a check-in (or its undoing) writes. */
  function SetPresence(p: Participant, isPresent: bool, mode: string, now: string): Participant {
    p.(isPresent := isPresent,
       presenceDate := if isPresent then Some(now) else None,
       validationMode := if isPresent then Some(mode) else None)
  }

  /** The roster after `updatePresence` inside the target event. */
  function PresenceIn(ps: seq<Participant>, participantId: string, isPresent: bool, mode: string, now: string): (r: seq<Participant>)
    ensures |r| == |ps|
  {
    seq(|ps|, k requires 0 <= k < |ps| =>
      if ps[k].id == participantId then SetPresence(ps[k], isPresent, mode, now) else ps[k])
  }

  /** `updatePresence`'s transform. */
  function UpdatePresenceIn(events: seq<Event>, eventId: string, participantId: string,
                            isPresent: bool, mode: string, now: string): (r: seq<Event>)
    ensures |r| == |events|
  {
    seq(|events|, k requires 0 <= k < |events| =>
      if events[k].id == eventId
      then events[k].(participants := PresenceIn(events[k].participants, participantId, isPresent, mode, now))
      else events[k])
  }

  /** Only participants with the exact id, inside events with the exact
      id, change, and only in their presence fields: present with the
      time and mode, or absent with neither. */
  lemma UpdatePresenceFrame(events: seq<Event>, eventId: string, participantId: string,
                            isPresent: bool, mode: string, now: string)
    ensures forall k :: 0 <= k < |events| && events[k].id != eventId ==>
              UpdatePresenceIn(events, eventId, participantId, isPresent, mode, now)[k] == events[k]
    ensures forall k :: 0 <= k < |events| && events[k].id == eventId ==>
              var before := events[k].participants;
              var after := UpdatePresenceIn(events, eventId, participantId, isPresent, mode, now)[k].participants;
              && |after| == |before|
              && (forall j :: 0 <= j < |before| && before[j].id != participantId ==> after[j] == before[j])
              && (forall j :: 0 <= j < |before| && before[j].id == participantId ==>
                    && after[j].isPresent == isPresent
                    && (after[j].presenceDate == if isPresent then Some(now) else None)
                    && (after[j].validationMode == if isPresent then Some(mode) else None)
                    && after[j].(isPresent := before[j].isPresent, presenceDate := before[j].presenceDate,
                                 validationMode := before[j].validationMode) == before[j])
    ensures forall k :: 0 <= k < |events| ==>
              UpdatePresenceIn(events, eventId, participantId, isPresent, mode, now)[k].(participants := events[k].participants)
                == events[k]
  {
  }

  /** Setting the same presence twice is setting it once. */
  lemma UpdatePresenceIdempotent(events: seq<Event>, eventId: string, participantId: string,
                                 isPresent: bool, mode: string, now: string)
    ensures var once := UpdatePresenceIn(events, eventId, participantId, isPresent, mode, now);
            UpdatePresenceIn(once, eventId, participantId, isPresent, mode, now) == once
  {
    var once := UpdatePresenceIn(events, eventId, participantId, isPresent, mode, now);
    var twice := UpdatePresenceIn(once, eventId, participantId, isPresent, mode, now);
    forall k | 0 <= k < |events| ensures twice[k] == once[k] {
      if events[k].id == eventId {
        var ps := once[k].participants;
        assert PresenceIn(ps, participantId, isPresent, mode, now) == ps;
      }
    }
  }

  /** `addParticipant`'s record: the draft with its id (or a generated one
      when it is empty), from the manual source, present with the time and
      the manual mode when `markPresent`. Company and manager are not part
      of a draft and stay empty. */
  function NewManualParticipant(d: Draft, markPresent: bool, generated: string, now: string): Participant {
    Participant(if d.id != "" then d.id else generated, d.nom, d.prenom, d.email, "", "",
                SourceManual, markPresent,
                if markPresent then Some(now) else None,
                if markPresent then Some(ModeManual) else None)
  }

  /** A manual addition is manual, keeps a non-empty id and otherwise takes
      the generated one (never empty), carries the draft's names and email,
      is present exactly when asked, is dated exactly when present, and is
      validated manually when present and by no mode otherwise. */
  lemma NewManualParticipantShape(d: Draft, markPresent: bool, generated: string, now: string)
    ensures IsManual(NewManualParticipant(d, markPresent, generated, now))
    ensures d.id != "" ==> NewManualParticipant(d, markPresent, generated, now).id == d.id
    ensures d.id == "" ==> NewManualParticipant(d, markPresent, generated, now).id == generated
    ensures GeneratedId(generated) ==> NewManualParticipant(d, markPresent, generated, now).id != ""
    ensures var np := NewManualParticipant(d, markPresent, generated, now);
            np.nom == d.nom && np.prenom == d.prenom && np.email == d.email
    ensures NewManualParticipant(d, markPresent, generated, now).isPresent == markPresent
    ensures NewManualParticipant(d, markPresent, generated, now).presenceDate == (if markPresent then Some(now) else None)
    ensures NewManualParticipant(d, markPresent, generated, now).validationMode == Some(ModeManual) <==> markPresent
    ensures !markPresent ==> NewManualParticipant(d, markPresent, generated, now).validationMode == None
  {
    if GeneratedId(generated) {
      GeneratedIdIsTruthy(generated);
    }
  }

  /** `addParticipant`'s transform: the record goes at the end of the
      target event's roster, with no duplicate-id check. */
  function AddParticipantTo(events: seq<Event>, eventId: string, np: Participant): (r: seq<Event>)
    ensures |r| == |events|
  {
    seq(|events|, k requires 0 <= k < |events| =>
      if events[k].id == eventId then events[k].(participants := events[k].participants + [np]) else events[k])
  }

  /** `removeParticipant`'s transform. */
  function RemoveParticipantFrom(events: seq<Event>, eventId: string, participantId: string): (r: seq<Event>)
    ensures |r| == |events|
  {
    seq(|events|, k requires 0 <= k < |events| =>
      if events[k].id == eventId
      then events[k].(participants := Filter(events[k].participants, (p: Participant) => p.id != participantId))
      else events[k])
  }

  /** Removal empties the target rosters of the id, keeps their other
      participants in order, and leaves every other event untouched. */
  lemma RemoveParticipantFrame(events: seq<Event>, eventId: string, participantId: string)
    ensures forall k :: 0 <= k < |events| && events[k].id != eventId ==>
              RemoveParticipantFrom(events, eventId, participantId)[k] == events[k]
    ensures forall k :: 0 <= k < |events| && events[k].id == eventId ==>
              var after := RemoveParticipantFrom(events, eventId, participantId)[k].participants;
              && (forall p :: p in after ==> p.id != participantId)
              && (forall p :: p in events[k].participants && p.id != participantId ==> p in after)
              && IsSubseq(after, events[k].participants)
              && (forall p :: multiset(after)[p] == if p.id != participantId then multiset(events[k].participants)[p] else 0)
  {
    forall k | 0 <= k < |events| && events[k].id == eventId
      ensures var after := RemoveParticipantFrom(events, eventId, participantId)[k].participants;
              && IsSubseq(after, events[k].participants)
              && (forall p :: multiset(after)[p] == if p.id != participantId then multiset(events[k].participants)[p] else 0)
    {
      FilterIsSubseq(events[k].participants, (p: Participant) => p.id != participantId);
      FilterMultiset(events[k].participants, (p: Participant) => p.id != participantId);
    }
  }

  /** Removing a participant just added under a fresh id gives back the
      previous events. */
  lemma AddThenRemove(events: seq<Event>, eventId: string, np: Participant)
    requires forall e :: e in events && e.id == eventId ==> forall p :: p in e.participants ==> p.id != np.id
    ensures RemoveParticipantFrom(AddParticipantTo(events, eventId, np), eventId, np.id) == events
  {
    var added := AddParticipantTo(events, eventId, np);
    var r := RemoveParticipantFrom(added, eventId, np.id);
    forall k | 0 <= k < |events| ensures r[k] == events[k] {
      if events[k].id == eventId {
        var keep := (p: Participant) => p.id != np.id;
        assert events[k] in events;
        FilterAppend(events[k].participants, [np], keep);
        FilterAll(events[k].participants, keep);
        FilterNone([np], keep);
        assert r[k].participants == events[k].participants;
      }
    }
  }

  /** The position of the first participant whose id equals `key` once
      lower-cased, or |ps|. */
  function ParticipantIndex(ps: seq<Participant>, key: string): (k: nat)
    ensures k <= |ps|
    ensures k < |ps| ==> Lower(ps[k].id) == key
    ensures forall j :: 0 <= j < k ==> Lower(ps[j].id) != key
  {
    if ps == [] then 0
    else if Lower(ps[0].id) == key then 0
    else 1 + ParticipantIndex(ps[1..], key)
  }

  /** `findParticipant`: nothing when the event is missing, otherwise the
      first participant whose id equals the given one up to case. */
  function LookupParticipant(events: seq<Event>, eventId: string, participantId: string): (r: Option<Participant>)
    ensures LookupEvent(events, eventId).None? ==> r.None?
    ensures r.Some? ==> r.value in LookupEvent(events, eventId).value.participants
    ensures r.Some? ==> Lower(r.value.id) == Lower(participantId)
    ensures LookupEvent(events, eventId).Some? && r.None? ==>
              forall p :: p in LookupEvent(events, eventId).value.participants ==> Lower(p.id) != Lower(participantId)
    ensures r.Some? ==>
              var ps := LookupEvent(events, eventId).value.participants;
              exists k :: 0 <= k < |ps| && r.value == ps[k] &&
                forall j :: 0 <= j < k ==> Lower(ps[j].id) != Lower(participantId)
  {
    match LookupEvent(events, eventId)
    case None => None
    case Some(e) =>
      var k := ParticipantIndex(e.participants, Lower(participantId));
      if k < |e.participants| then Some(e.participants[k]) else None
  }

  // ------------------------------------------------------------ loading

  /** The status refresh applied to the stored events on mount. */
  function RefreshStatuses(stored: seq<Event>, today: int): (r: seq<Event>)
    ensures |r| == |stored|
  {
    seq(|stored|, k requires 0 <= k < |stored| => stored[k].(status := GetEventStatus(stored[k].date, today)))
  }

  /** After the refresh every status is current, nothing but the statuses
      changed, and refreshing again changes nothing. */
  lemma RefreshStatusesShape(stored: seq<Event>, today: int)
    ensures StatusesCurrent(RefreshStatuses(stored, today), today)
    ensures forall k :: 0 <= k < |stored| ==> RefreshStatuses(stored, today)[k].(status := stored[k].status) == stored[k]
    ensures RefreshStatuses(RefreshStatuses(stored, today), today) == RefreshStatuses(stored, today)
  {
  }

  // -------------------------------------------------------------- store

  /** The hook's state: the event list and the loading flag. */
  class EventStore {
    var events: seq<Event>
    var loading: bool

    /** `useState([])`, `useState(true)`. */
    constructor()
      ensures events == [] && loading
    {
      events := [];
      loading := true;
    }

    /** The mount effect: the stored events with their statuses refreshed. */
    method Load(stored: seq<Event>, today: int)
      modifies this
      ensures events == RefreshStatuses(stored, today) && !loading
    {
      events := RefreshStatuses(stored, today);
      loading := false;
    }

    /** `createEvent`: append the new event and return it. */
    method CreateEvent(data: EventData, id: string, now: string, today: int) returns (e: Event)
      modifies this
      ensures e == NewEvent(data, id, now, today)
      ensures events == old(events) + [e] && loading == old(loading)
    {
      e := NewEvent(data, id, now, today);
      events := events + [e];
    }

    method UpdateEvent(eventId: string, u: Patch, today: int)
      modifies this
      ensures events == UpdateEvents(old(events), eventId, u, today) && loading == old(loading)
    {
      events := UpdateEvents(events, eventId, u, today);
    }

    method DeleteEvent(eventId: string)
      modifies this
      ensures events == DeleteEvents(old(events), eventId) && loading == old(loading)
    {
      events := DeleteEvents(events, eventId);
    }

    function GetEvent(eventId: string): (r: Option<Event>)
      reads this
      ensures r.None? <==> forall e :: e in events ==> e.id != eventId
      ensures r.Some? ==> exists k :: 0 <= k < |events| && r.value == events[k] && events[k].id == eventId &&
                            forall j :: 0 <= j < k ==> events[j].id != eventId
    {
      LookupEvent(events, eventId)
    }

    method UpdatePresence(eventId: string, participantId: string, isPresent: bool, mode: string, now: string)
      modifies this
      ensures events == UpdatePresenceIn(old(events), eventId, participantId, isPresent, mode, now)
      ensures loading == old(loading)
    {
      events := UpdatePresenceIn(events, eventId, participantId, isPresent, mode, now);
    }

    /** `addParticipant`: append the new record to the target event and
      return it. */
    method AddParticipant(eventId: string, d: Draft, markPresent: bool, generated: string, now: string)
      returns (np: Participant)
      modifies this
      ensures np == NewManualParticipant(d, markPresent, generated, now)
      ensures events == AddParticipantTo(old(events), eventId, np) && loading == old(loading)
    {
      np := NewManualParticipant(d, markPresent, generated, now);
      events := AddParticipantTo(events, eventId, np);
    }

    method RemoveParticipant(eventId: string, participantId: string)
      modifies this
      ensures events == RemoveParticipantFrom(old(events), eventId, participantId) && loading == old(loading)
    {
      events := RemoveParticipantFrom(events, eventId, participantId);
    }

    function FindParticipant(eventId: string, participantId: string): (r: Option<Participant>)
      reads this
      ensures GetEvent(eventId).None? ==> r.None?
      ensures GetEvent(eventId).Some? ==>
                var ps := GetEvent(eventId).value.participants;
                && (r.None? <==> forall p :: p in ps ==> Lower(p.id) != Lower(participantId))
                && (r.Some? ==> exists k :: 0 <= k < |ps| && r.value == ps[k] && Lower(ps[k].id) == Lower(participantId) &&
                                  forall j :: 0 <= j < k ==> Lower(ps[j].id) != Lower(participantId))
    {
      LookupParticipant(events, eventId, participantId)
    }
  }
}

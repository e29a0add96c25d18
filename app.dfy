/** The shell of App.jsx: which view is shown, which event is selected,
    and how the views' callbacks reach the event store. Notifications are
    outside the model. */
module App {
  import opened Common
  import opened Roster
  import opened UseEvents
  import opened ScannerTab

  datatype View = Home | Detail

  /** Two event lists with the same ids in the same places find the same
      position for every id. */
  lemma SameEventIdsSameIndex(events: seq<Event>, others: seq<Event>, eventId: string)
    requires |events| == |others|
    requires forall j :: 0 <= j < |events| ==> events[j].id == others[j].id
    ensures EventIndex(events, eventId) == EventIndex(others, eventId)
  {
  }

  /** A check-in made from the selected event's scanner, once the app has
      passed its presence update to the store, leaves that participant
      reported as already present by any later scan of the same id. */
  lemma CheckInThroughStore(events: seq<Event>, eventId: string, id: string, mode: string, now: string,
                            stamp: string, mode2: string, now2: string)
    requires LookupEvent(events, eventId).Some?
    requires Process(LookupEvent(events, eventId).value.participants, id, mode, now).call.Some?
    ensures var c := Process(LookupEvent(events, eventId).value.participants, id, mode, now).call.value;
            var after := UpdatePresenceIn(events, eventId, c.participantId, c.isPresent, c.mode, stamp);
            && LookupEvent(after, eventId).Some?
            && Process(LookupEvent(after, eventId).value.participants, id, mode2, now2).result.Already?
  {
    var ps := LookupEvent(events, eventId).value.participants;
    var c := Process(ps, id, mode, now).call.value;
    var after := UpdatePresenceIn(events, eventId, c.participantId, c.isPresent, c.mode, stamp);
    SameEventIdsSameIndex(events, after, eventId);
    var k := EventIndex(events, eventId);
    assert after[k].participants == PresenceIn(ps, c.participantId, c.isPresent, c.mode, stamp);
    ScanTwiceMarksOnce(ps, id, mode, now, stamp, mode2, now2);
  }

  /** The application's state: the event store, the current view, the
      selected event's id and whether the creation dialog is open. */
  class AppState {
    const store: EventStore
    var currentView: View
    var selectedEventId: Option<string>
    var showCreateModal: bool

    constructor()
      ensures fresh(store) && store.events == [] && store.loading
      ensures currentView == Home && selectedEventId.None? && !showCreateModal
    {
      store := new EventStore();
      currentView := Home;
      selectedEventId := None;
      showCreateModal := false;
    }

    /** `selectedEvent`: looked up only when the selected id is truthy. */
    function SelectedEvent(): (r: Option<Event>)
      reads this, store
      ensures !Truthy(selectedEventId) ==> r.None?
      ensures r.Some? ==> r.value in store.events && r.value.id == selectedEventId.value
      ensures Truthy(selectedEventId) && r.None? ==>
                forall e :: e in store.events ==> e.id != selectedEventId.value
    {
      if Truthy(selectedEventId) then store.GetEvent(selectedEventId.value) else None
    }

    /** The detail view is rendered once loading is over, on the detail
        view, and only while the selected event exists. */
    predicate DetailShown()
      reads this, store
      ensures DetailShown() ==>
                && Truthy(selectedEventId)
                && exists e :: e in store.events && e.id == selectedEventId.value
    {
      !store.loading && currentView == Detail && SelectedEvent().Some?
    }

    method HandleSelectEvent(e: Event)
      modifies this
      ensures selectedEventId == Some(e.id) && currentView == Detail
      ensures showCreateModal == old(showCreateModal)
    {
      selectedEventId := Some(e.id);
      currentView := Detail;
    }

    /** `handleCreateEvent`: create, close the dialog and open the new
        event. With a fresh non-empty id the detail view shows it. */
    method HandleCreateEvent(data: EventData, id: string, now: string, today: int) returns (e: Event)
      modifies this, store
      ensures e == NewEvent(data, id, now, today)
      ensures store.events == old(store.events) + [e] && store.loading == old(store.loading)
      ensures !showCreateModal && selectedEventId == Some(id) && currentView == Detail
      ensures id != "" && (forall x :: x in old(store.events) ==> x.id != id) ==> SelectedEvent() == Some(e)
    {
      e := store.CreateEvent(data, id, now, today);
      showCreateModal := false;
      HandleSelectEvent(e);
      if id != "" && (forall x :: x in old(store.events) ==> x.id != id) {
        CreateThenGetAndDelete(old(store.events), e);
      }
    }

    /** `handleDeleteEvent`: delete, and leave the detail view when the
        deleted event was the selected one. No deleted event stays
        selected. */
    method HandleDeleteEvent(eventId: string)
      modifies this, store
      ensures store.events == DeleteEvents(old(store.events), eventId) && store.loading == old(store.loading)
      ensures old(selectedEventId) == Some(eventId) ==> selectedEventId.None? && currentView == Home
      ensures old(selectedEventId) != Some(eventId) ==>
                selectedEventId == old(selectedEventId) && currentView == old(currentView)
      ensures SelectedEvent().Some? ==> SelectedEvent().value.id != eventId
      ensures showCreateModal == old(showCreateModal)
    {
      store.DeleteEvent(eventId);
      if selectedEventId == Some(eventId) {
        selectedEventId := None;
        currentView := Home;
      }
    }

    method HandleBack()
      modifies this
      ensures currentView == Home && selectedEventId.None?
      ensures showCreateModal == old(showCreateModal)
    {
      currentView := Home;
      selectedEventId := None;
    }

    /** `handleUpdatePresence`: forwarded to the selected event when the
        selected id is truthy, dropped otherwise. */
    method HandleUpdatePresence(c: PresenceCall, now: string)
      modifies store
      ensures Truthy(selectedEventId) ==>
                store.events == UpdatePresenceIn(old(store.events), selectedEventId.value,
                                                 c.participantId, c.isPresent, c.mode, now)
      ensures !Truthy(selectedEventId) ==> store.events == old(store.events)
      ensures store.loading == old(store.loading)
    {
      if Truthy(selectedEventId) {
        store.UpdatePresence(selectedEventId.value, c.participantId, c.isPresent, c.mode, now);
      }
    }

    /** `handleAddParticipant`: forwarded to the selected event when the
        selected id is truthy, dropped otherwise. */
    method HandleAddParticipant(c: AddCall, generated: string, now: string)
      modifies store
      ensures Truthy(selectedEventId) ==>
                store.events == AddParticipantTo(old(store.events), selectedEventId.value,
                                                 NewManualParticipant(c.draft, c.markPresent, generated, now))
      ensures !Truthy(selectedEventId) ==> store.events == old(store.events)
      ensures store.loading == old(store.loading)
    {
      if Truthy(selectedEventId) {
        var np := store.AddParticipant(selectedEventId.value, c.draft, c.markPresent, generated, now);
      }
    }
  }
}

/** The check-in logic of components/ScannerTab.jsx: look an id up in the
    selected event's roster, report the outcome, and hand the presence
    update or the addition of an unknown id to the parent as a call value.
    The camera, the notifications and the clock are outside the model; the
    random pick of the demo scan is a parameter. */
module ScannerTab {
  import opened Common
  import opened Text
  import opened Roster
  import opened UseEvents

  /** The outcome shown after a lookup. */
  datatype ScanResult =
    | Already(participant: Participant)
    | Success(participant: Participant)
    | Unknown(id: string)

  /** `onUpdatePresence(participantId, isPresent, mode)`. */
  datatype PresenceCall = PresenceCall(participantId: string, isPresent: bool, mode: string)

  /** `onAddParticipant(draft, markPresent)`. */
  datatype AddCall = AddCall(draft: Draft, markPresent: bool)

  /** A lookup's outcome and the presence update it asks for, if any. */
  datatype Scan = Scan(result: ScanResult, call: Option<PresenceCall>)

  /** The key a typed or scanned id is compared under: lower-cased, then
      trimmed. Roster ids are only lower-cased. */
  function ScanKey(id: string): string {
    Trim(Lower(id))
  }

  /** `processParticipantId`: the first participant whose lower-cased id
      equals the key decides; if present it is reported as such, if absent
      it is marked present through the parent, and a miss reports the id as
      typed. A later participant whose id differs only in case is never
      looked at. */
  function Process(ps: seq<Participant>, id: string, mode: string, now: string): (s: Scan)
    ensures s.result.Unknown? <==> forall p :: p in ps ==> Lower(p.id) != ScanKey(id)
    ensures s.result.Unknown? ==> s.result.id == id && s.call.None?
    ensures s.result.Already? ==>
              && s.result.participant in ps && s.result.participant.isPresent
              && Lower(s.result.participant.id) == ScanKey(id) && s.call.None?
    ensures s.result.Success? ==>
              exists p :: p in ps && !p.isPresent && Lower(p.id) == ScanKey(id)
                && s.result.participant == p.(isPresent := true, presenceDate := Some(now))
                && s.call == Some(PresenceCall(p.id, true, mode))
    ensures !s.result.Unknown? ==>
              exists k :: 0 <= k < |ps| && Lower(ps[k].id) == ScanKey(id)
                && (forall j :: 0 <= j < k ==> Lower(ps[j].id) != ScanKey(id))
                && (s.result.Already? <==> ps[k].isPresent)
                && (s.result.Already? ==> s.result.participant == ps[k])
                && (s.result.Success? ==>
                      && s.result.participant == ps[k].(isPresent := true, presenceDate := Some(now))
                      && s.call == Some(PresenceCall(ps[k].id, true, mode)))
  {
    var k := ParticipantIndex(ps, ScanKey(id));
    if k == |ps| then Scan(Unknown(id), None)
    else if ps[k].isPresent then Scan(Already(ps[k]), None)
    else Scan(Success(ps[k].(isPresent := true, presenceDate := Some(now))),
              Some(PresenceCall(ps[k].id, true, mode)))
  }

  /** Among ids equal up to case, the first one in the roster decides the
      outcome: an absent "ab" after a present "AB" is never checked in by a
      scan of "ab". */
  lemma FirstCaseVariantDecides(ps: seq<Participant>, id: string, mode: string, now: string, i: nat)
    requires i < |ps| && Lower(ps[i].id) == ScanKey(id)
    requires forall j :: 0 <= j < i ==> Lower(ps[j].id) != ScanKey(id)
    ensures Process(ps, id, mode, now).result ==
              if ps[i].isPresent then Already(ps[i])
              else Success(ps[i].(isPresent := true, presenceDate := Some(now)))
  {
    var s := Process(ps, id, mode, now);
    var k :| 0 <= k < |ps| && Lower(ps[k].id) == ScanKey(id)
               && (forall j :: 0 <= j < k ==> Lower(ps[j].id) != ScanKey(id))
               && (s.result.Already? <==> ps[k].isPresent)
               && (s.result.Already? ==> s.result.participant == ps[k])
               && (s.result.Success? ==> s.result.participant == ps[k].(isPresent := true, presenceDate := Some(now)));
    assert k == i;
  }

  /** Two rosters with the same ids in the same places find the same
      position for every key. */
  lemma SameIdsSameIndex(ps: seq<Participant>, qs: seq<Participant>, key: string)
    requires |ps| == |qs|
    requires forall j :: 0 <= j < |ps| ==> ps[j].id == qs[j].id
    ensures ParticipantIndex(ps, key) == ParticipantIndex(qs, key)
  {
  }

  /** Scanning the same id twice, with the first scan's presence update
      applied in between, checks the participant in once: the second scan
      reports them as already present and asks for nothing. */
  lemma ScanTwiceMarksOnce(ps: seq<Participant>, id: string, mode: string, now: string,
                           stamp: string, mode2: string, now2: string)
    requires Process(ps, id, mode, now).call.Some?
    ensures var c := Process(ps, id, mode, now).call.value;
            var ps' := PresenceIn(ps, c.participantId, c.isPresent, c.mode, stamp);
            && Process(ps', id, mode2, now2).result.Already?
            && Process(ps', id, mode2, now2).call.None?
  {
    var c := Process(ps, id, mode, now).call.value;
    var ps' := PresenceIn(ps, c.participantId, c.isPresent, c.mode, stamp);
    var key := ScanKey(id);
    SameIdsSameIndex(ps, ps', key);
    var k := ParticipantIndex(ps, key);
    assert ps'[k].isPresent;
  }

  /** Lower-casing keeps a trimmed id trimmed. */
  lemma LowerKeepsTrimmed(s: string)
    requires IsTrimmed(s)
    ensures IsTrimmed(Lower(s))
  {
    if s != [] {
      assert Lower(s)[0] == LowerChar(s[0]);
      assert Lower(s)[|s| - 1] == LowerChar(s[|s| - 1]);
    }
  }

  /** A trimmed unknown id, added from the scan result as a present
      participant, is reported as already present by the next scan. */
  lemma AddUnknownThenRescan(ps: seq<Participant>, id: string, mode: string, now: string,
                             generated: string, now2: string, mode2: string, now3: string)
    requires Process(ps, id, mode, now).result.Unknown?
    requires id != "" && IsTrimmed(id)
    ensures var np := NewManualParticipant(Draft(id, "", "", ""), true, generated, now2);
            Process(ps + [np], id, mode2, now3).result == Already(np)
  {
    var np := NewManualParticipant(Draft(id, "", "", ""), true, generated, now2);
    LowerKeepsTrimmed(id);
    TrimOfTrimmed(Lower(id));
  }

  /** An id with white space at either end, added from the scan result,
      can never be found by a later scan: every lookup key is trimmed and
      the stored id, once lower-cased, is not. */
  lemma UntrimmedAdditionUnreachable(id: string, generated: string, now: string)
    requires !IsTrimmed(id)
    ensures var np := NewManualParticipant(Draft(id, "", "", ""), true, generated, now);
            forall input :: Lower(np.id) != ScanKey(input)
  {
    var np := NewManualParticipant(Draft(id, "", "", ""), true, generated, now);
    assert np.id == id;
    assert !IsTrimmed(Lower(id)) by {
      assert Lower(id)[0] == LowerChar(id[0]);
      assert Lower(id)[|id| - 1] == LowerChar(id[|id| - 1]);
    }
    forall input ensures Lower(np.id) != ScanKey(input) {
      TrimIsTrimmed(Lower(input));
    }
  }

  /** On a roster whose ids are trimmed and distinct up to case, looking
      up an absent participant's own id checks that participant in. */
  lemma ScanOfAbsentSucceeds(ps: seq<Participant>, a: Participant, mode: string, now: string)
    requires forall j :: 0 <= j < |ps| ==> IsTrimmed(ps[j].id)
    requires forall i, j :: 0 <= i < |ps| && 0 <= j < |ps| && Lower(ps[i].id) == Lower(ps[j].id) ==> i == j
    requires a in ps && !a.isPresent
    ensures Process(ps, a.id, mode, now) ==
            Scan(Success(a.(isPresent := true, presenceDate := Some(now))), Some(PresenceCall(a.id, true, mode)))
  {
    LowerKeepsTrimmed(a.id);
    TrimOfTrimmed(Lower(a.id));
    var i :| 0 <= i < |ps| && ps[i] == a;
    var k := ParticipantIndex(ps, ScanKey(a.id));
    assert k == i;
  }

  /** The tab's state: the last outcome shown and the manual entry field. */
  class ScannerState {
    var scanResult: Option<ScanResult>
    var manualId: string

    constructor()
      ensures scanResult.None? && manualId == ""
    {
      scanResult := None;
      manualId := "";
    }

    /** Show the outcome of a lookup and return the presence update it asks for. */
    method ProcessParticipantId(ps: seq<Participant>, id: string, mode: string, now: string)
      returns (call: Option<PresenceCall>)
      modifies this
      ensures scanResult == Some(Process(ps, id, mode, now).result)
      ensures call == Process(ps, id, mode, now).call
      ensures manualId == old(manualId)
    {
      var s := Process(ps, id, mode, now);
      scanResult := Some(s.result);
      call := s.call;
    }

    /** `handleManualSearch`: an entry that is blank once trimmed does
        nothing; any other is looked up as typed, in manual mode, and the
        field is cleared. */
    method HandleManualSearch(ps: seq<Participant>, now: string) returns (call: Option<PresenceCall>)
      modifies this
      ensures Trim(old(manualId)) == "" ==>
                call.None? && scanResult == old(scanResult) && manualId == old(manualId)
      ensures Trim(old(manualId)) != "" ==>
                && scanResult == Some(Process(ps, old(manualId), ModeManual, now).result)
                && call == Process(ps, old(manualId), ModeManual, now).call
                && manualId == ""
    {
      if Trim(manualId) == "" {
        call := None;
        return;
      }
      call := ProcessParticipantId(ps, manualId, ModeManual, now);
      manualId := "";
    }

    /** `simulateScan`: look up, in QR mode, the id of the absent
        participant at position `roll` (taken modulo their number); with
        nobody absent nothing changes. */
    method SimulateScan(ps: seq<Participant>, roll: nat, now: string) returns (call: Option<PresenceCall>)
      modifies this
      ensures |Filter(ps, IsAbsent)| == 0 ==>
                call.None? && scanResult == old(scanResult) && manualId == old(manualId)
      ensures |Filter(ps, IsAbsent)| > 0 ==>
                var picked := Filter(ps, IsAbsent)[roll % |Filter(ps, IsAbsent)|];
                && !picked.isPresent && picked in ps
                && scanResult == Some(Process(ps, picked.id, ModeQr, now).result)
                && call == Process(ps, picked.id, ModeQr, now).call
                && manualId == old(manualId)
    {
      var absent := Filter(ps, IsAbsent);
      if |absent| == 0 {
        call := None;
        return;
      }
      var picked := absent[roll % |absent|];
      assert picked in absent;
      call := ProcessParticipantId(ps, picked.id, ModeQr, now);
    }

    /** `handleAddUnknown`: after a miss on a non-empty id, ask for that id
        to be added as a present participant with empty names, and clear
        the outcome. */
    method HandleAddUnknown() returns (call: Option<AddCall>)
      modifies this
      ensures old(scanResult).Some? && old(scanResult).value.Unknown? && old(scanResult).value.id != "" ==>
                && call == Some(AddCall(Draft(old(scanResult).value.id, "", "", ""), true))
                && scanResult.None?
      ensures !(old(scanResult).Some? && old(scanResult).value.Unknown? && old(scanResult).value.id != "") ==>
                call.None? && scanResult == old(scanResult)
      ensures manualId == old(manualId)
    {
      if scanResult.Some? && scanResult.value.Unknown? && scanResult.value.id != "" {
        call := Some(AddCall(Draft(scanResult.value.id, "", "", ""), true));
        scanResult := None;
      } else {
        call := None;
      }
    }
  }
}

/** The records the attendance tracker keeps: participants, the events
    that hold them, and the cell values both exports derive from them. */
module Roster {
  import opened Common
  import opened Text

  /** One registered person of an event. `source` is "import" or "manual";
      the empty string stands for a record that has no `source` field.
      `presenceDate` is the ISO timestamp of the check-in and
      `validationMode` how it was made ("manual" or "qr"). */
  datatype Participant = Participant(
    id: string,
    nom: string,
    prenom: string,
    email: string,
    company: string,
    manager: string,
    source: string,
    isPresent: bool,
    presenceDate: Option<string>,
    validationMode: Option<string>)

  const SourceImport: string := "import"
  const SourceManual: string := "manual"
  const ModeManual: string := "manual"
  const ModeQr: string := "qr"

  /** JavaScript truthiness of an optional string: present and non-empty. */
  predicate Truthy(o: Option<string>) {
    o.Some? && o.value != ""
  }

  /** The fields a participant is entered with by hand, or pre-filled
      from an unknown scanned id. */
  datatype Draft = Draft(id: string, nom: string, prenom: string, email: string)

  /** An event date as entered: its text (for truthiness) and the calendar
      day, in local time, that the text denotes (None for an invalid date). */
  datatype DateValue = DateValue(text: string, day: Option<int>)

  /** An event and its roster. `status` is "upcoming", "ongoing" or
      "completed" as computed from `date`. */
  datatype Event = Event(
    id: string,
    name: string,
    date: DateValue,
    location: string,
    capacity: Option<int>,
    description: string,
    participants: seq<Participant>,
    createdAt: string,
    status: string)

  /** The shape of `generateId()`: "ID-" followed by at most nine
      characters of an upper-cased base-36 fraction. */
  predicate GeneratedId(s: string) {
    && 3 <= |s| <= 12
    && s[..3] == "ID-"
    && forall i :: 3 <= i < |s| ==> ('0' <= s[i] <= '9' || 'A' <= s[i] <= 'Z')
  }

  /** A generated id is truthy, has no white space and survives `trim`,
      so `participant.id || generateId()` always yields a non-empty id. */
  lemma GeneratedIdIsTruthy(s: string)
    requires GeneratedId(s)
    ensures s != [] && s[0] == 'I'
    ensures SpaceFree(s) && Trim(s) == s
  {
    assert s[0] == s[..3][0] == 'I';
    assert !IsSpace(s[1]) by { assert s[1] == s[..3][1]; }
    assert !IsSpace(s[2]) by { assert s[2] == s[..3][2]; }
    TrimOfTrimmed(s);
  }

  /** Exported "Présent" cell. */
  function PresentCell(p: Participant): string {
    if p.isPresent then "Oui" else "Non"
  }

  /** Exported validation-mode cell: `p.validationMode || ''`. */
  function ModeCell(p: Participant): string {
    if p.validationMode.Some? then p.validationMode.value else ""
  }

  /** Exported source cell: `p.source || 'import'`. */
  function SourceCell(p: Participant): string {
    if p.source == "" then SourceImport else p.source
  }

  /** Exported date cell: the formatted check-in time, or "" when there is
      none. `format` stands for the locale formatting of the timestamp. */
  function DateCell(p: Participant, format: string -> string): string {
    if Truthy(p.presenceDate) then format(p.presenceDate.value) else ""
  }

  /** `participants.filter(p => p.isPresent)` and friends. */
  predicate IsPresent(p: Participant) { p.isPresent }
  predicate IsAbsent(p: Participant) { !p.isPresent }
  predicate IsManual(p: Participant) { p.source == SourceManual }

  /** Present and absent participants partition a roster. */
  lemma PresentAbsentPartition(ps: seq<Participant>)
    ensures |Filter(ps, IsPresent)| + |Filter(ps, IsAbsent)| == |ps|
  {
    FilterPartition(ps, IsPresent, IsAbsent);
  }
}

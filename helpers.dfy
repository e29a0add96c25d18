/** Event status, status badges, CSV export and the id generator's shape
    (utils/helpers.js). The download of the CSV file is not modelled; the
    content string is. */
module Helpers {
  import opened Common
  import opened Text
  import opened Roster
  import opened ExcelParser

  /** `str.substr(start, length)` for a non-negative start and length. */
  function Substr(s: string, start: nat, length: nat): (r: string)
    ensures |r| <= length
    ensures start < |s| ==> r == s[start..if start + length <= |s| then start + length else |s|]
    ensures start >= |s| ==> r == ""
  {
    if start >= |s| then ""
    else if start + length <= |s| then s[start..start + length]
    else s[start..]
  }

  /** `toUpperCase` on the characters of a base-36 numeral. */
  function UpperBase36(s: string): (r: string)
    ensures |r| == |s|
  {
    seq(|s|, i requires 0 <= i < |s| => if 'a' <= s[i] <= 'z' then (s[i] as int - 32) as char else s[i])
  }

  /** The digits `Number.prototype.toString(36)` writes after "0.". */
  predicate Base36Fraction(f: string) {
    forall i :: 2 <= i < |f| ==> ('0' <= f[i] <= '9' || 'a' <= f[i] <= 'z')
  }

  /** `generateId`, given the base-36 text of the random number drawn. */
  function GenerateId(fraction: string): (id: string)
    ensures |id| >= 3 && id[..3] == "ID-"
    ensures Base36Fraction(fraction) ==> GeneratedId(id)
  {
    var digits := UpperBase36(Substr(fraction, 2, 9));
    assert forall i :: 0 <= i < |digits| ==> Substr(fraction, 2, 9)[i] == fraction[i + 2];
    "ID-" + digits
  }

  const Upcoming: string := "upcoming"
  const Ongoing: string := "ongoing"
  const Completed: string := "completed"

  /** `getEventStatus`: the event's calendar day against today's, both in
      local time. An unparsable date (an Invalid Date, `day` None) compares
      false both ways and so counts as completed. */
  function GetEventStatus(date: DateValue, today: int): (r: string)
    ensures r in {Upcoming, Ongoing, Completed}
    ensures r == Upcoming <==> date.day.Some? && date.day.value > today
    ensures r == Ongoing <==> date.day.Some? && date.day.value == today
    ensures r == Completed <==> date.day.None? || date.day.value < today
  {
    if date.day.Some? && date.day.value > today then Upcoming
    else if date.day.Some? && date.day.value == today then Ongoing
    else Completed
  }

  /** Label (`label`, a keyword here, hence `text`) and Tailwind colour
      classes of a status badge. */
  datatype Badge = Badge(text: string, color: string)

  const SlateColor: string := "bg-slate-100 text-slate-600"

  /** `getStatusBadge`. */
  function GetStatusBadge(status: string): (b: Badge)
    ensures status == Upcoming ==> b == Badge("À venir", "bg-blue-100 text-blue-700")
    ensures status == Ongoing ==> b == Badge("En cours", "bg-emerald-100 text-emerald-700")
    ensures status == Completed ==> b == Badge("Terminé", SlateColor)
    ensures status !in {Upcoming, Ongoing, Completed} ==> b == Badge(status, SlateColor)
  {
    if status == Upcoming then Badge("À venir", "bg-blue-100 text-blue-700")
    else if status == Ongoing then Badge("En cours", "bg-emerald-100 text-emerald-700")
    else if status == Completed then Badge("Terminé", SlateColor)
    else Badge(status, SlateColor)
  }

  /** The badge of a computed status is one of the three fixed labels, and
      its text tells the status apart: the badge mapping is one-to-one on
      the statuses `getEventStatus` produces. */
  lemma ComputedStatusBadge(d1: DateValue, d2: DateValue, today: int)
    ensures GetStatusBadge(GetEventStatus(d1, today)).text in {"À venir", "En cours", "Terminé"}
    ensures GetStatusBadge(GetEventStatus(d1, today)).text == GetStatusBadge(GetEventStatus(d2, today)).text
            <==> GetEventStatus(d1, today) == GetEventStatus(d2, today)
  {
  }

  // ------------------------------------------------------------------- CSV

  /** The header row of `exportToCSV`. */
  const CsvHeaders: seq<string> :=
    ["ID", "Nom", "Prénom", "Email", "Présent", "Date validation", "Mode", "Source"]

  /** One CSV row, in header order. `formatDateTime` stands for the
      helper of that name: `toLocaleString('fr-FR')` restricted to day,
      month, year, hour and minute. */
  function CsvFields(p: Participant, formatDateTime: string -> string): (r: seq<string>)
    ensures |r| == |CsvHeaders|
    ensures r[..4] == [p.id, p.nom, p.prenom, p.email]
    ensures r[4] in {"Oui", "Non"} && (r[4] == "Oui" <==> p.isPresent)
    ensures !Truthy(p.presenceDate) ==> r[5] == ""
    ensures Truthy(p.presenceDate) ==> r[5] == formatDateTime(p.presenceDate.value)
    ensures p.validationMode.None? ==> r[6] == ""
    ensures p.validationMode.Some? ==> r[6] == p.validationMode.value
    ensures r[7] != ""
    ensures p.source == "" ==> r[7] == SourceImport
    ensures p.source != "" ==> r[7] == p.source
  {
    [p.id, p.nom, p.prenom, p.email,
     if p.isPresent then "Oui" else "Non",
     if Truthy(p.presenceDate) then formatDateTime(p.presenceDate.value) else "",
     if p.validationMode.Some? then p.validationMode.value else "",
     if p.source == "" then "import" else p.source]
  }

  /** The CSV rows carry the spreadsheet's cells except the check-in time,
      which each export formats its own way (the spreadsheet with seconds,
      the CSV without); both leave it empty when there is no check-in.
      The headers differ only in the seventh ("Mode" against "Mode
      validation"). */
  lemma CsvFieldsAgreeWithExport(p: Participant, localeString: string -> string, formatDateTime: string -> string)
    ensures forall k :: 0 <= k < 8 && k != 5 ==> CsvFields(p, formatDateTime)[k] == ExportRow(p, localeString)[k]
    ensures !Truthy(p.presenceDate) ==> CsvFields(p, formatDateTime)[5] == "" && ExportRow(p, localeString)[5] == ""
    ensures Truthy(p.presenceDate) ==>
              && CsvFields(p, formatDateTime)[5] == formatDateTime(p.presenceDate.value)
              && ExportRow(p, localeString)[5] == localeString(p.presenceDate.value)
    ensures |CsvHeaders| == |ExportHeaders|
    ensures forall k :: 0 <= k < |CsvHeaders| && k != 6 ==> CsvHeaders[k] == ExportHeaders[k]
    ensures CsvHeaders[6] != ExportHeaders[6]
  {
  }

  /** The rows before joining: the header row, then one row per record. */
  function CsvTable(data: seq<Participant>, formatDateTime: string -> string): (t: seq<seq<string>>)
    ensures |t| == |data| + 1 && t[0] == CsvHeaders
    ensures forall k :: 0 <= k < |data| ==> t[k + 1] == CsvFields(data[k], formatDateTime)
  {
    [CsvHeaders] + seq(|data|, k requires 0 <= k < |data| => CsvFields(data[k], formatDateTime))
  }

  /** `rows.map(row => row.join(';'))`. */
  function Lines(t: seq<seq<string>>): (lines: seq<string>)
    ensures |lines| == |t|
  {
    seq(|t|, k requires 0 <= k < |t| => Join(t[k], ";"))
  }

  /** `[headers, ...rows].map(row => row.join(';')).join('\n')`. */
  function CsvContent(data: seq<Participant>, formatDateTime: string -> string): string {
    Join(Lines(CsvTable(data, formatDateTime)), "\n")
  }

  /** Every cell of every record's row avoids character `c`. */
  predicate CellsAvoid(data: seq<Participant>, formatDateTime: string -> string, c: char) {
    forall k, j :: 0 <= k < |data| && 0 <= j < 8 ==> c !in CsvFields(data[k], formatDateTime)[j]
  }

  /** Every cell of a table avoids character `c`. */
  predicate TableCellsAvoid(t: seq<seq<string>>, c: char) {
    forall k, j :: 0 <= k < |t| && 0 <= j < |t[k]| ==> c !in t[k][j]
  }

  /** Joining lines with '\n' is undone by splitting when no cell holds a
      line break. */
  lemma LinesRoundTrip(t: seq<seq<string>>)
    requires |t| >= 1 && TableCellsAvoid(t, '\n')
    ensures SplitOn(Join(Lines(t), "\n"), '\n') == Lines(t)
  {
    var lines := Lines(t);
    forall k | 0 <= k < |t| ensures '\n' !in lines[k] {
      JoinAvoids(t[k], ";", '\n');
    }
    SplitJoin(lines, '\n');
  }

  /** Joining cells with ';' is undone by splitting when no cell holds ';'
      and no row is empty. */
  lemma CellsRoundTrip(t: seq<seq<string>>)
    requires forall k :: 0 <= k < |t| ==> |t[k]| >= 1
    requires TableCellsAvoid(t, ';')
    ensures forall k :: 0 <= k < |t| ==> SplitOn(Lines(t)[k], ';') == t[k]
  {
    forall k | 0 <= k < |t| ensures SplitOn(Lines(t)[k], ';') == t[k] {
      SplitJoin(t[k], ';');
    }
  }

  /** The CSV table avoids `c` when the cells do and the headers do. */
  lemma TableAvoids(data: seq<Participant>, formatDateTime: string -> string, c: char)
    requires CellsAvoid(data, formatDateTime, c)
    requires forall j :: 0 <= j < |CsvHeaders| ==> c !in CsvHeaders[j]
    ensures TableCellsAvoid(CsvTable(data, formatDateTime), c)
  {
    var t := CsvTable(data, formatDateTime);
    forall k, j | 0 <= k < |t| && 0 <= j < |t[k]| ensures c !in t[k][j] {
      if k > 0 {
        assert t[k] == CsvFields(data[k - 1], formatDateTime);
      }
    }
  }

  /** No header holds a separator. */
  lemma HeadersAvoidSeparators()
    ensures forall j :: 0 <= j < |CsvHeaders| ==> ';' !in CsvHeaders[j] && '\n' !in CsvHeaders[j]
  {
  }

  /** With no line break in any cell, the content has one line per record
      plus the header line, each its row joined by ';'. */
  lemma CsvLineCount(data: seq<Participant>, formatDateTime: string -> string)
    requires CellsAvoid(data, formatDateTime, '\n')
    ensures SplitOn(CsvContent(data, formatDateTime), '\n') == Lines(CsvTable(data, formatDateTime))
    ensures |SplitOn(CsvContent(data, formatDateTime), '\n')| == |data| + 1
  {
    HeadersAvoidSeparators();
    TableAvoids(data, formatDateTime, '\n');
    LinesRoundTrip(CsvTable(data, formatDateTime));
  }

  /** Round trip: when no cell holds ';' or a line break either, splitting
      each line of the content on ';' gives back its row exactly, the header
      row first (there is no quoting to undo). */
  lemma CsvRoundTrip(data: seq<Participant>, formatDateTime: string -> string)
    requires CellsAvoid(data, formatDateTime, '\n') && CellsAvoid(data, formatDateTime, ';')
    ensures |SplitOn(CsvContent(data, formatDateTime), '\n')| == |data| + 1
    ensures forall k :: 0 <= k < |data| + 1 ==>
              SplitOn(SplitOn(CsvContent(data, formatDateTime), '\n')[k], ';') == CsvTable(data, formatDateTime)[k]
  {
    var t := CsvTable(data, formatDateTime);
    CsvLineCount(data, formatDateTime);
    HeadersAvoidSeparators();
    TableAvoids(data, formatDateTime, ';');
    forall k | 0 <= k < |t| ensures |t[k]| >= 1 {
      if k > 0 {
        assert t[k] == CsvFields(data[k - 1], formatDateTime);
      }
    }
    CellsRoundTrip(t);
  }
}

/** The export view of components/ExportTab.jsx: which participants the
    selected export kind takes, the counters shown beside each kind, and
    the sheet handed to the workbook writer. */
module ExportTab {
  import opened Common
  import opened Roster
  import opened ExcelParser
  import opened ParticipantListTab

  /** `getFilteredData`: present, absent or manually added participants
      for those keys, the whole roster for any other. */
  function GetFilteredData(ps: seq<Participant>, exportType: string): seq<Participant> {
    if exportType == KeyPresent then Filter(ps, IsPresent)
    else if exportType == KeyAbsent then Filter(ps, IsAbsent)
    else if exportType == KeyManual then Filter(ps, IsManual)
    else ps
  }

  /** The counters beside each export kind. */
  datatype Counts = Counts(all: nat, present: nat, absent: nat, manual: nat)

  function CountsOf(ps: seq<Participant>): (c: Counts)
    ensures c.present + c.absent == c.all
    ensures c.manual <= c.all
  {
    PresentAbsentPartition(ps);
    Counts(|ps|, |Filter(ps, IsPresent)|, |Filter(ps, IsAbsent)|, |Filter(ps, IsManual)|)
  }

  /** Each counter is the size of what its kind exports, and every kind
      exports the same participants the roster view shows for that filter
      key with an empty search. */
  lemma CountsMatchExports(ps: seq<Participant>, exportType: string)
    ensures CountsOf(ps).all == |GetFilteredData(ps, KeyAll)|
    ensures CountsOf(ps).present == |GetFilteredData(ps, KeyPresent)|
    ensures CountsOf(ps).absent == |GetFilteredData(ps, KeyAbsent)|
    ensures CountsOf(ps).manual == |GetFilteredData(ps, KeyManual)|
    ensures GetFilteredData(ps, exportType) == FilteredParticipants(ps, "", exportType)
    ensures IsSubseq(GetFilteredData(ps, exportType), ps)
  {
    FilterKinds(ps, exportType);
  }

  /** What `handleExport` does: warn and write nothing when the selection
      is empty, otherwise write the sheet of the selection. */
  datatype ExportOutcome = NothingToExport | Exported(sheet: seq<seq<string>>, count: nat)

  function HandleExport(ps: seq<Participant>, exportType: string, localeString: string -> string): (r: ExportOutcome)
    ensures r.NothingToExport? <==> GetFilteredData(ps, exportType) == []
    ensures r.Exported? ==>
              && r.count == |GetFilteredData(ps, exportType)| > 0
              && |r.sheet| == r.count + 1 && r.sheet[0] == ExportHeaders
              && forall k :: 0 <= k < r.count ==> r.sheet[k + 1] == ExportRow(GetFilteredData(ps, exportType)[k], localeString)
  {
    var data := GetFilteredData(ps, exportType);
    if |data| == 0 then NothingToExport else Exported(ExportSheet(data, localeString), |data|)
  }

  /** Exporting the present participants writes "Oui" in every presence
      cell, exporting the absent ones writes "Non". */
  lemma ExportKindsPresenceColumn(ps: seq<Participant>, localeString: string -> string)
    ensures var r := HandleExport(ps, KeyPresent, localeString);
            r.Exported? ==> forall k :: 1 <= k < |r.sheet| ==> r.sheet[k][4] == "Oui"
    ensures var r := HandleExport(ps, KeyAbsent, localeString);
            r.Exported? ==> forall k :: 1 <= k < |r.sheet| ==> r.sheet[k][4] == "Non"
  {
    var pr := HandleExport(ps, KeyPresent, localeString);
    if pr.Exported? {
      var data := GetFilteredData(ps, KeyPresent);
      forall k | 1 <= k < |pr.sheet| ensures pr.sheet[k][4] == "Oui" {
        assert pr.sheet[k] == ExportRow(data[k - 1], localeString);
        assert data[k - 1] in data;
      }
    }
    var ab := HandleExport(ps, KeyAbsent, localeString);
    if ab.Exported? {
      var data := GetFilteredData(ps, KeyAbsent);
      forall k | 1 <= k < |ab.sheet| ensures ab.sheet[k][4] == "Non" {
        assert ab.sheet[k] == ExportRow(data[k - 1], localeString);
        assert data[k - 1] in data;
      }
    }
  }
}

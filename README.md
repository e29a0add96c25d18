# Émargement roster logic in Dafny

This project models the roster logic of *emargement*, a single-page app that
manages attendance sheets ("émargement") for events. An organiser imports a
spreadsheet of registered participants into an event. On the day, people are
checked in by scanning or typing their id, or are added on the spot. The
attendance list is then exported as a spreadsheet or as CSV.

The modules follow the source files:

- `ExcelParser` (`utils/excelParser.js`) covers:
  - column-header normalisation;
  - first-match alias lookup;
  - full-name splitting;
  - the import loop, with its empty-row skip, id generation and first-wins deduplication;
  - the exported rows.
- `Helpers` (`utils/helpers.js`) covers the event-status classifier, the status badges, CSV assembly and the shape of generated ids.
- `UseEvents` (`hooks/useEvents.js`) covers the event store.
  - Each operation is a whole-list transform.
  - The `EventStore` class holds the list, and each of its methods replaces it.
- `ScannerTab`, `ParticipantListTab`, `ExportTab` and `HomeView` (`components/`) cover:
  - the check-in decision;
  - the search and status filters;
  - the counters;
  - the guarded form and export handlers.
- `App` (`App.jsx`) covers navigation: the view, the selected event and the creation dialog.
- Support modules:
  - `Common` provides Option and an order-preserving filter.
  - `Text` provides the JavaScript string primitives the code relies on: `toLowerCase`, `trim`, `includes`, `split` and `join`.
  - `Roster` holds the shared records.

What the model treats as given:

- **Clock and calendar.** The clock is a timestamp parameter (`now`). Today's calendar day is an integer (`today`). An event date is its text together with its parsed calendar day, which is absent for an unparsable date.
- **Generated ids and the random pick.** Generated ids are parameters. The import draws `gen(i)` for data row `i`. The demo scan's random pick is a `roll` parameter, taken modulo the number of absent participants.
- **Spreadsheets.** A spreadsheet is the row array the workbook reader hands over. An empty cell is `None`.
- **Callbacks.** Component callbacks (`onUpdatePresence`, `onAddParticipant`) are returned as call values, which `App` forwards to the store.

## Model

Paths are relative to the repository root of the original source.

| member | source | states |
|---|---|---|
| ExcelParser.ParseFullNameCollapses | emargement-app/src/utils/excelParser.js:44-56 | a blank name gives empty surname and first names; a single word is the surname; otherwise the surname is one word and `prenom + ' ' + nom` is the input with white space collapsed |
| ExcelParser.NormalizeColumnNameShape | emargement-app/src/utils/excelParser.js:60-67 | a normalised header holds only a-z, 0-9, white space and parentheses, is trimmed, and normalising it again changes nothing |
| ExcelParser.NormalizeCanonical | emargement-app/src/utils/excelParser.js:60-67 | a trimmed name made of allowed characters is its own normalisation |
| ExcelParser.NormalizeDropping | emargement-app/src/utils/excelParser.js:65 | a character outside the allowed set is removed and nothing else changes |
| ExcelParser.NormalizedKey | emargement-app/src/utils/excelParser.js:5-41 | each alias of the table normalises to its listed key (accents stripped, "_", "'" and "-" dropped) |
| ExcelParser.FirstMatch | emargement-app/src/utils/excelParser.js:73-83 | searching from entry `k`, the result is the first table position whose key equals, contains or is contained in the header, and None only when no later entry matches |
| ExcelParser.FindFieldMappingFirstMatch | emargement-app/src/utils/excelParser.js:70-84 | the field returned is that of the earliest matching entry, in declaration order |
| ExcelParser.FindFieldMappingNull | emargement-app/src/utils/excelParser.js:70-84 | the result is null exactly when no table entry matches the header |
| ExcelParser.EmptyHeaderMapsToId | emargement-app/src/utils/excelParser.js:7 | a header that normalises to "" maps to `id`, since "id" contains "" |
| ExcelParser.PrenomMapsToNom | emargement-app/src/utils/excelParser.js:13 | a header normalising to "prenom" maps to `nom`, because the earlier key "nom" is contained in it |
| ExcelParser.NomCompletMapsToNom | emargement-app/src/utils/excelParser.js:13-15 | a header normalising to "nom complet" maps to `nom`, not `fullName` |
| ExcelParser.FirstnameMapsToNom | emargement-app/src/utils/excelParser.js:14-21 | a header normalising to "firstname" maps to `nom` through the earlier key "name" |
| ExcelParser.PrenomHeaderMapsToNom | emargement-app/src/utils/excelParser.js:19-20 | the column header "Prénom" feeds the surname |
| ExcelParser.ShadowedAliases | emargement-app/src/utils/excelParser.js:15-21 | the aliases "nom complet", "prenom", "prénom" and "firstname" can never yield their own field |
| ExcelParser.Headers | emargement-app/src/utils/excelParser.js:109 | the header conversion keeps one header per header cell, and a header is missing exactly where the cell is a hole of the sparse row |
| ExcelParser.HeaderCellField | emargement-app/src/utils/excelParser.js:109-110 | a hole feeds no field; an explicit `undefined`/`null` or a falsy value (0, false, "") becomes "" and so feeds `id`; any other value feeds the field of its text |
| ExcelParser.FillLastWriteWins | emargement-app/src/utils/excelParser.js:135-146 | each field of a row's record comes from the last cell holding a value (falsy values included; holes, `undefined` and `null` skipped) whose column writes it (trimmed, or split from a full name), or keeps its initial value |
| ExcelParser.FillKeepsBookkeeping | emargement-app/src/utils/excelParser.js:135-146 | filling a row never changes the record's source, presence, check-in date or validation mode |
| ExcelParser.MapRow | emargement-app/src/utils/excelParser.js:121-146 | the `forEach` loop over the cells builds the record the left-to-right fold specifies |
| ExcelParser.DedupByIdFirstWins | emargement-app/src/utils/excelParser.js:158-165 | deduplication keeps the input's ids, no two kept records share an id, each kept record is the first with its id, and order is preserved |
| ExcelParser.CandidatesShape | emargement-app/src/utils/excelParser.js:121-156 | every kept row gives an imported, absent record with no check-in and with a name, first name or email; with well-formed generated ids every id is non-empty |
| ExcelParser.Candidates | emargement-app/src/utils/excelParser.js:117-156 | at most one record per data row survives the empty-row and no-name checks |
| ExcelParser.ImportedRecords | emargement-app/src/utils/excelParser.js:117-165 | the deduplicated records of a sheet have pairwise distinct ids and each is a fresh import with a surname, first names or an email |
| ExcelParser.ParseExcelFile | emargement-app/src/utils/excelParser.js:103-174 | fewer than two rows are rejected with the source's message; otherwise the headers are those of `Headers`, the participants are the first-wins deduplication of the kept rows, totalRows = rows - 1, imported = their number, imported + duplicates <= totalRows, ids pairwise distinct, and every record is a fresh import with a name |
| ExcelParser.ExportRow | emargement-app/src/utils/excelParser.js:193-202 | 8 cells in header order: id, nom, prénom, email; "Oui" exactly when present; the check-in time through `toLocaleString('fr-FR')` when there is one, else empty; the validation mode, else empty; the source, "import" when it is empty |
| ExcelParser.ExportSheet | emargement-app/src/utils/excelParser.js:191-204 | the header row followed by one row per participant, in order |
| Helpers.GenerateId | emargement-app/src/utils/helpers.js:2 | every generated id starts with "ID-", followed by upper-case base-36 digits |
| Helpers.GetEventStatus | emargement-app/src/utils/helpers.js:30-39 | exactly one of the three statuses: upcoming iff the event's day is after today, ongoing iff it is today, completed otherwise (an unparsable date included) |
| Helpers.GetStatusBadge | emargement-app/src/utils/helpers.js:42-53 | the three statuses get their fixed labels and colours; any other status is its own label, in slate |
| Helpers.ComputedStatusBadge | emargement-app/src/utils/helpers.js:42-53 | the badge of a computed status is one of the three labels, and two statuses share a label exactly when they are equal |
| Helpers.CsvFields | emargement-app/src/utils/helpers.js:79-88 | 8 cells in header order: id, nom, prénom, email; "Oui" exactly when present; the check-in time through `formatDateTime` when there is one, else empty; the validation mode, else empty; the source, "import" when it is empty |
| Helpers.CsvFieldsAgreeWithExport | emargement-app/src/utils/helpers.js:78-88 | a CSV row and the spreadsheet row agree on every cell but the check-in time, which each export formats with its own formatter and both leave empty when there is no check-in; the headers differ only in column 7 ("Mode") |
| Helpers.CsvTable | emargement-app/src/utils/helpers.js:78-90 | the header followed by one 8-field row per participant |
| Helpers.CsvLineCount | emargement-app/src/utils/helpers.js:90 | with no newline in any field, the content splits on "\n" into exactly data.length + 1 lines |
| Helpers.CsvRoundTrip | emargement-app/src/utils/helpers.js:90 | with no ";" and no newline in any field, splitting the content on "\n" and then ";" gives back the header and every row |
| UseEvents.NewEventShape | emargement-app/src/hooks/useEvents.js:28-35 | a new event has the generated id, an empty roster unless one was given, and the status of its date today |
| UseEvents.EventStore.CreateEvent | emargement-app/src/hooks/useEvents.js:28-38 | exactly one event is appended at the end and returned; the earlier ones are unchanged |
| UseEvents.UpdateEventsFrame | emargement-app/src/hooks/useEvents.js:41-52 | only events with the id change; their status is recomputed exactly when the patch's date is truthy |
| UseEvents.UpdateEventsIdempotent | emargement-app/src/hooks/useEvents.js:41-52 | an empty patch changes nothing, and applying a patch twice is applying it once |
| UseEvents.UpdateEventsKeepsStatusesCurrent | emargement-app/src/hooks/useEvents.js:44-47 | an update that sets no status and no empty date keeps every status current |
| UseEvents.EventStore.UpdateEvent | emargement-app/src/hooks/useEvents.js:41-52 | the store's list becomes the update transform of the old one |
| UseEvents.DeleteEventsShape | emargement-app/src/hooks/useEvents.js:55-57 | deletion removes every event with the id, keeps every other one as many times as it occurs, and preserves order |
| UseEvents.EventStore.DeleteEvent | emargement-app/src/hooks/useEvents.js:55-57 | the store's list becomes the deletion transform of the old one |
| UseEvents.LookupEvent | emargement-app/src/hooks/useEvents.js:60-62 | the result is the first event of the list with the id, and None exactly when no event has it |
| UseEvents.EventStore.GetEvent | emargement-app/src/hooks/useEvents.js:60-62 | on the store's list: the first event with the id, and None exactly when no event has it |
| UseEvents.EventIndex | emargement-app/src/hooks/useEvents.js:61 | the position of the first event with the id |
| UseEvents.CreateThenGetAndDelete | emargement-app/src/hooks/useEvents.js:28-62 | an event created with a fresh id is found by it, and deleting it restores the previous list |
| UseEvents.UpdatePresenceFrame | emargement-app/src/hooks/useEvents.js:65-85 | only participants with the exact id, inside events with the exact id, change, and only in their presence fields; lengths are unchanged; present means the time and the mode, absent means neither |
| UseEvents.UpdatePresenceIdempotent | emargement-app/src/hooks/useEvents.js:65-85 | setting the same presence twice is setting it once |
| UseEvents.EventStore.UpdatePresence | emargement-app/src/hooks/useEvents.js:65-85 | the store's list becomes the presence transform of the old one |
| UseEvents.NewManualParticipantShape | emargement-app/src/hooks/useEvents.js:89-96 | a manual addition has source "manual"; it keeps a non-empty draft id, and an empty one becomes exactly the generated id (never empty); it carries the draft's names and email; it is present exactly when asked; its date is the current time when present and null otherwise; its mode is "manual" when present and null otherwise |
| UseEvents.EventStore.AddParticipant | emargement-app/src/hooks/useEvents.js:88-109 | the new record is appended to the target event's roster, with no duplicate check, and returned |
| UseEvents.RemoveParticipantFrame | emargement-app/src/hooks/useEvents.js:112-122 | removal clears the id from the target rosters, keeps every copy of the other participants in order, and leaves other events untouched |
| UseEvents.AddThenRemove | emargement-app/src/hooks/useEvents.js:88-122 | removing a participant just added under a fresh id restores the previous events |
| UseEvents.EventStore.RemoveParticipant | emargement-app/src/hooks/useEvents.js:112-122 | the store's list becomes the removal transform of the old one |
| UseEvents.LookupParticipant | emargement-app/src/hooks/useEvents.js:125-131 | None when the event is missing; otherwise the first participant of that event whose id equals the given one up to case, and None only when there is none |
| UseEvents.EventStore.FindParticipant | emargement-app/src/hooks/useEvents.js:125-131 | on the store's list: None when the event is missing; otherwise the first participant whose id equals the given one up to case, None exactly when there is none |
| UseEvents.ParticipantIndex | emargement-app/src/hooks/useEvents.js:128-130 | the position of the first participant whose lower-cased id equals the key |
| UseEvents.RefreshStatusesShape | emargement-app/src/hooks/useEvents.js:9-18 | after loading every status is current, nothing but statuses changed, and refreshing again changes nothing |
| UseEvents.EventStore.Load | emargement-app/src/hooks/useEvents.js:9-18 | the list becomes the refreshed stored list and loading ends |
| UseEvents.EventStore.constructor | emargement-app/src/hooks/useEvents.js:5-6 | the store starts empty and loading |
| ScannerTab.Process | emargement-app/src/components/ScannerTab.jsx:48-84 | unknown exactly when no stored id, lower-cased, equals the lower-cased trimmed input, carrying the raw input; otherwise the FIRST matching participant decides: already when it is present, asking for nothing; when it is absent, exactly one presence update with its stored id and the mode, and it is shown present |
| ScannerTab.FirstCaseVariantDecides | emargement-app/src/components/ScannerTab.jsx:49-61 | of several ids equal up to case, the earliest in the roster decides the outcome, whatever the later ones' presence |
| ScannerTab.ScanTwiceMarksOnce | emargement-app/src/components/ScannerTab.jsx:53-75 | with the first scan's update applied, a second scan of the same id reports "already" and asks for nothing |
| ScannerTab.AddUnknownThenRescan | emargement-app/src/components/ScannerTab.jsx:103-114 | a trimmed unknown id added from the result is reported as already present by the next scan |
| ScannerTab.UntrimmedAdditionUnreachable | emargement-app/src/components/ScannerTab.jsx:49-51 | an unknown id with white space at either end, once added, can never be found by any scan, since only the input is trimmed |
| ScannerTab.ScanOfAbsentSucceeds | emargement-app/src/components/ScannerTab.jsx:93-98 | on a roster with trimmed ids distinct up to case, scanning an absent participant's own id checks that participant in |
| ScannerTab.ScannerState.constructor | emargement-app/src/components/ScannerTab.jsx:7-8 | no result shown and an empty entry field |
| ScannerTab.ScannerState.ProcessParticipantId | emargement-app/src/components/ScannerTab.jsx:48-84 | the shown result and the returned call are those of the lookup; the entry field is untouched |
| ScannerTab.ScannerState.HandleManualSearch | emargement-app/src/components/ScannerTab.jsx:86-90 | a blank entry does nothing; any other is looked up as typed in manual mode and the field is cleared |
| ScannerTab.ScannerState.SimulateScan | emargement-app/src/components/ScannerTab.jsx:93-101 | only an absent participant is ever picked, in QR mode; with nobody absent nothing changes |
| ScannerTab.ScannerState.HandleAddUnknown | emargement-app/src/components/ScannerTab.jsx:103-114 | only after an unknown result with a non-empty id: ask to add that id, present and with empty names, and clear the result; otherwise nothing |
| ParticipantListTab.FilteredParticipants | emargement-app/src/components/ParticipantListTab.jsx:16-25 | the shown participants are exactly those the search and the filter admit, each as many times as in the roster, as an order-preserving sub-list of the roster |
| ParticipantListTab.FilterKinds | emargement-app/src/components/ParticipantListTab.jsx:19-23 | with an empty search, "present", "absent" and "manual" show exactly the present, absent and manually added participants; "all" and unknown keys show everyone |
| ParticipantListTab.SearchFindsEachField | emargement-app/src/components/ParticipantListTab.jsx:17-18 | a term occurring up to case in the name, first name, email or id finds the participant |
| ParticipantListTab.SearchIgnoresCase | emargement-app/src/components/ParticipantListTab.jsx:18 | the search does not depend on the case of the term |
| ParticipantListTab.Counters | emargement-app/src/components/ParticipantListTab.jsx:34-36 | present and absent counts add up to the roster size; the list never shows more than the roster |
| ParticipantListTab.ToggleTwiceRestores | emargement-app/src/components/ParticipantListTab.jsx:192 | marking an absent participant by hand records the manual mode, and cancelling restores them exactly |
| ParticipantListTab.ListState.Visible | emargement-app/src/components/ParticipantListTab.jsx:16-25 | the list shows exactly the roster's participants that match the current search and filter, in roster order |
| ParticipantListTab.ListState.HandleAddParticipant | emargement-app/src/components/ParticipantListTab.jsx:27-32 | a draft missing name, first name or email does nothing; otherwise one add call is made, the form is cleared and closed |
| ParticipantListTab.ListState.constructor | emargement-app/src/components/ParticipantListTab.jsx:6-14 | empty search, "all", closed and empty form |
| ExportTab.CountsOf | emargement-app/src/components/ExportTab.jsx:33-38 | present + absent = all, and manual <= all |
| ExportTab.CountsMatchExports | emargement-app/src/components/ExportTab.jsx:8-15 | each counter is the size of what its key exports, and each key exports what the roster view shows for it with an empty search, as a sub-list of the roster |
| ExportTab.HandleExport | emargement-app/src/components/ExportTab.jsx:17-29 | nothing is written exactly when the selection is empty; otherwise the sheet is the header and one row per selected participant |
| ExportTab.ExportKindsPresenceColumn | emargement-app/src/components/ExportTab.jsx:10-11 | the present export says "Oui" on every row, the absent one "Non" |
| HomeView.FilteredEvents | emargement-app/src/components/HomeView.jsx:9-13 | the listed events are exactly those admitted by the name search and the status filter, each as many times as in the list, in order |
| HomeView.FilteredEventsByStatus | emargement-app/src/components/HomeView.jsx:11 | "all" with an empty search lists every event; any other key lists exactly the events with that status, which on current statuses is the status their date gives today |
| HomeView.EventSearchIgnoresCase | emargement-app/src/components/HomeView.jsx:10 | the name search does not depend on the case of the term |
| HomeView.EventStats | emargement-app/src/components/HomeView.jsx:78-80 | present <= total, the rate is between 0 and 100, and 0 when the roster is empty |
| HomeView.RoundPercent | emargement-app/src/components/HomeView.jsx:80 | the rate is the nearest integer to 100 * present / total, half-way values up: 100 for a full room and 0 for an empty one |
| HomeView.RateExtremes | emargement-app/src/components/HomeView.jsx:78-80 | an event where everybody is present shows 100, one where nobody is shows 0 |
| App.AppState.constructor | emargement-app/src/App.jsx:22-24 | home view, nothing selected, dialog closed, store empty and loading |
| App.AppState.SelectedEvent | emargement-app/src/App.jsx:27 | nothing without a truthy selected id; otherwise the stored event with that id, and nothing only when no stored event has it |
| App.AppState.DetailShown | emargement-app/src/App.jsx:79-113 | the detail view is shown only with a truthy selected id naming an event that exists in the store |
| App.AppState.HandleSelectEvent | emargement-app/src/App.jsx:30-33 | the event's id is selected and the detail view shown |
| App.AppState.HandleCreateEvent | emargement-app/src/App.jsx:36-42 | the event is created, the dialog closed and the new event selected in the detail view; with a fresh non-empty id the selected event is the new one |
| App.AppState.HandleDeleteEvent | emargement-app/src/App.jsx:45-52 | the event is deleted; selection and view are reset only when it was the selected one; no deleted event remains selected |
| App.AppState.HandleBack | emargement-app/src/App.jsx:55-58 | home view, nothing selected |
| App.AppState.HandleUpdatePresence | emargement-app/src/App.jsx:61-65 | the presence update reaches the selected event, and nothing happens without a truthy selection |
| App.AppState.HandleAddParticipant | emargement-app/src/App.jsx:68-76 | the addition reaches the selected event, and nothing happens without a truthy selection |
| App.CheckInThroughStore | emargement-app/src/App.jsx:61-65 | a check-in from the selected event's scanner, forwarded to the store, makes every later scan of the same id report "already" |
| Text.ContainsIff | emargement-app/src/components/ParticipantListTab.jsx:18 | `includes` holds exactly when the needle occurs at some position |
| Text.JoinSplitWsIsSquash | emargement-app/src/utils/excelParser.js:47-54 | splitting on white-space runs and joining with blanks collapses the white space |
| Text.SplitJoin | emargement-app/src/utils/helpers.js:90 | splitting a join on its separator gives back the parts when no part holds the separator |
| Text.TrimIsTrimmed | emargement-app/src/components/ScannerTab.jsx:50 | `trim` leaves no white space at either end |

## Left out

- Reading files and writing spreadsheets are left out because they are foreign calls. This covers `FileReader`, `XLSX.read`, `sheet_to_json`, `aoa_to_sheet`, `writeFile`, the column widths and the generated file names. The sheet is modelled as the row array the reader returns, each cell a hole, an explicit `undefined`/`null`, or a value given by its `String(...)` text and by whether it is falsy; the output, as rows or as the CSV string.
- The CSV download is left out because it is browser I/O. This covers the byte-order mark, the Blob and the anchor click.
- `localStorage` persistence and JSON (de)serialisation are left out because they are storage I/O. Loading starts from the stored list.
- The camera, notifications, timers and all rendering are left out because they are browser I/O and asynchronous.
- Unicode lower-casing and NFD decomposition are modelled only for ASCII and Latin-1 letters, because full Unicode tables are outside the model. Other characters keep their case and are removed by the character filter like any other disallowed character.
- Date parsing and locale formatting are parameters, because they depend on the host's clock and locale:
  - an event date carries its parsed calendar day;
  - The spreadsheet's `toLocaleString('fr-FR')` (seconds included) and the CSV's `formatDateTime` (to the minute) are two separate formatter parameters; the model does not say what text either produces.
- HomeView.RoundPercent: computed in exact arithmetic, rounding half-way values up. The source divides in floating point first, so a value that is half-way in exact arithmetic can round down by one.
- UseEvents.NewManualParticipant: company and manager are set to "" because a draft does not carry them. In the source these keys are absent.
- UseEvents.NewEvent: the created event holds exactly the fields the creation dialog passes. Extra keys of the spread are not modelled.
- `CreateEventModal.jsx` and `EventDetailView.jsx` are left out because they are form fields and tab switching around the handlers modelled here.
- `public/sw.js` is left out because it is network caching.
- `useNotification.js` is left out because it is a timer-driven banner.

# Windows ISO Downloader: catalogue filter and selection state machine

The Windows ISO Downloader is a Tkinter window. It loads a catalogue of Windows
versions from a JSON document and shows their names in a list. A search box
filters that list. Selecting a row shows the entry's details and starts a
background lookup of the file's size. The "Download ISO" button saves the
selected image, and a progress bar tracks the download.

This project models the logic under the widgets.

- **Filter.** `search_versions` strips the search term and lower-cases it. An
  empty term shows the whole catalogue. Any other term shows, in catalogue
  order, the entries whose lower-cased `"version"` contains it. An entry with
  no `"version"` key is searched as `""`.
- **Rows.** `update_version_list` replaces every row of the list. Row `i` gets
  the id `str(i)` and shows entry `i`. `on_select` turns the id back into the
  index with `int(...)`.
- **Selection state machine.** The state is:
  - `current_selection_id` and `selected_download_url`;
  - the details panel;
  - whether the Download button, the search controls and row selection are
    enabled;
  - the size lookups and downloads still running in background threads.

  Each handler is modelled: `on_select`, the size thread and
  `_update_details_with_size`, `download_iso`, and the `finally` block of
  `_download_thread`.

The model has three layers:

- **Pure functions.** `Text`, `Catalogue` and `SizeProbe` hold the string
  operations, the filter and the rows, and the size lookup's outcome.
- **State as a value.** `Screen` holds the window state as a value of type `Ui`,
  with one function per handler. `Screen.Next` delivers one event the way Tk
  does: clicks on a disabled widget, and key presses in a disabled entry, reach
  no handler. The lemmas about the state machine are stated there.
- **The class.** `AppWindow.App` is the window itself. Its fields stand for the
  widgets and attributes. Each method is one handler and changes the fields
  step by step; its `ensures` ties the new state to the `Screen` function of
  the old state. `UpdateVersionList` keeps the source's two loops, one deleting
  rows and one inserting them.

Threads are not run. A running size lookup is an element of `sizeLookups`,
holding the arguments its thread was started with. A running download is an
element of `downloads`. A thread finishing is the event `SizeArrived(k, head)`
or `DownloadDone(k)`. Network results are inputs:

- the catalogue, for `Loaded`;
- the Content-Length found by the HEAD request (`head`, `None` when the request
  failed);
- the path returned by the save dialog (`""` when it was cancelled).

The invariant `Screen.Inv` holds in every reachable state. It says:

- the rows always show the display list under the ids `"0"` to `"n-1"`;
- the list's selection is always one of its rows;
- the Download button is enabled only when the selected URL is present and the
  details panel shows a formatted size. That size need not have been looked up
  for the selected entry: reports are matched by row id only (see "## Findings");
- the search controls, row selection and the progress bar always switch
  together.

The guard in `_update_details_with_size` compares row ids only. Row ids repeat
when the same row is selected twice, and again after every search. So a late
result from an earlier selection can be accepted, even one for another entry.
See "## Findings".

## Model

| member | source | states |
|---|---|---|
| `Text.Lower` | windows_downloader.py:114 | `.lower()`: the result has the same length, and each character is the input's character lower-cased |
| `Text.TrimLeft` | windows_downloader.py:114 | Removes only leading whitespace: the result is a suffix of the input, does not start with whitespace, and everything dropped is whitespace |
| `Text.TrimRight` | windows_downloader.py:114 | Removes only trailing whitespace: the result is a prefix of the input, does not end with whitespace, and everything dropped is whitespace |
| `Text.StripExact` | windows_downloader.py:114 | `.strip()` of whitespace + a trimmed core + whitespace is exactly that core |
| `Text.StripIdempotent` | windows_downloader.py:114 | Stripping an already stripped term changes nothing |
| `Text.LowerStripCommute` | windows_downloader.py:114 | Lower-casing and stripping commute, so their order in the search term does not matter |
| `Text.ContainsIff` | windows_downloader.py:120 | The substring test `term in key` holds exactly when `term` occurs at some position of `key` |
| `Text.ContainsEmpty` | windows_downloader.py:120 | `"" in key` always holds, and a non-empty term is never in `""` |
| `Text.Decimal` | windows_downloader.py:107 | `str(idx)` is a non-empty string of digits with no leading zero |
| `Text.DecimalRoundTrip` | windows_downloader.py:107 | `int(str(i)) == i`: parsing a row id gives back the index it was made from |
| `Text.DecimalInjective` | windows_downloader.py:107 | Different indices get different row ids |
| `Catalogue.Filter` | windows_downloader.py:118-121 | The comprehension never returns more entries than the catalogue has |
| `Catalogue.FilterIsMatchingSubsequence` | windows_downloader.py:118-121 | The filtered list is the catalogue at strictly increasing positions, and a position is kept exactly when its entry's lower-cased version contains the term |
| `Catalogue.SearchResultsSpec` | windows_downloader.py:114-122 | An empty stripped term shows the catalogue exactly; otherwise every shown entry is from the catalogue and matches, and every matching entry is shown |
| `Catalogue.FilterAppend` | windows_downloader.py:118-121 | Filtering a concatenation is concatenating the filtered parts, so catalogue order is kept |
| `Catalogue.FilterIdempotent` | windows_downloader.py:118-121 | Filtering an already filtered list by the same term changes nothing |
| `Catalogue.UnnamedNeverMatches` | windows_downloader.py:120 | With a non-empty term, an entry without a `"version"` key is never shown |
| `Catalogue.SearchIgnoresCase` | windows_downloader.py:114 | Typing the term in any case gives the same results |
| `Catalogue.SearchIgnoresSurroundingSpace` | windows_downloader.py:114 | Whitespace around the term does not change the results |
| `Catalogue.RowIdsAreIndices` | windows_downloader.py:103-107 | Row `i` shows entry `i` and its id parses back to `i`; no two rows share an id |
| `SizeProbe.FileSize` | windows_downloader.py:196-208 | A missing or empty URL gives no size without any request; otherwise the size is whatever the HEAD request produced |
| `SizeProbe.FetchSize` | windows_downloader.py:164-179 | `can_download` holds exactly when the URL is present, a size came back and it could be formatted; "could not determine" exactly when the URL is missing or no size came back; the request's fields pass through unchanged |
| `Screen.InitialInv` | windows_downloader.py:76-83 | The freshly built window satisfies the invariant |
| `Screen.SelectedRowIsIndex` | windows_downloader.py:139-143 | Under the invariant, the selected row id is `str(i)` for a displayed index `i`, and `int` of it is `i` |
| `Screen.VersionsLoadedKeepsInv` | windows_downloader.py:93-94 | Loading the catalogue keeps the invariant |
| `Screen.SearchKeepsInv` | windows_downloader.py:112-127 | A search keeps the invariant |
| `Screen.OnSelectKeepsInv` | windows_downloader.py:129-162 | `on_select` keeps the invariant |
| `Screen.UpdateDetailsKeepsInv` | windows_downloader.py:181-193 | An accepted or discarded size report keeps the invariant, so the button is enabled only with a URL and a known size |
| `Screen.SizeFetchedKeepsInv` | windows_downloader.py:164-193 | A size thread finishing keeps the invariant |
| `Screen.DownloadIsoKeepsInv` | windows_downloader.py:229-252 | `download_iso` keeps the invariant |
| `Screen.DownloadFinishedKeepsInv` | windows_downloader.py:268-280 | The end of a download keeps the invariant |
| `Screen.NextKeepsInv` | windows_downloader.py:101-280 | Every event keeps the invariant |
| `Screen.RunKeepsInv` | windows_downloader.py:101-280 | The invariant holds after any sequence of events |
| `Screen.SearchResets` | windows_downloader.py:112-127 | After a search, the list shows the search results under fresh ids; the selected URL and id are cleared, the details are empty and Download is disabled; running threads and the search controls are untouched |
| `Screen.NoSelectionResets` | windows_downloader.py:131-137 | `on_select` with nothing selected clears the same four fields and changes nothing else |
| `Screen.OutOfRangeOnlyRecordsId` | windows_downloader.py:139-144 | `on_select` with an id naming no displayed entry sets `current_selection_id` only |
| `Screen.RowClickSelectsEntry` | windows_downloader.py:146-162 | Clicking row `i` selects row `str(i)` and entry `i`'s URL, shows its details as "fetching", disables Download and starts one size lookup carrying id `str(i)`; the whole new state is given, so nothing else changes |
| `Screen.StaleSizeIgnored` | windows_downloader.py:183-184 | A size report whose id differs from `current_selection_id` changes nothing on screen |
| `Screen.CurrentSizeShown` | windows_downloader.py:164-193 | A report for the current id retires its thread and shows the looked-up version, URL, size and notes, and nothing else changes. The size shown is the formatted size, "could not determine" exactly when the URL is missing or no size came back, or the formatting error otherwise. Download is enabled exactly when the selected URL and the looked-up URL are present and the size is known and formattable |
| `Screen.DownloadNeedsUrlAndPath` | windows_downloader.py:231-242 | Clicking Download with no selected URL, or cancelling the save dialog, changes nothing |
| `Screen.DownloadLocksControls` | windows_downloader.py:244-252 | Starting a download adds one download thread for the selected URL and disables Download, the search controls and selection |
| `Screen.LockedControlsIgnoreUser` | windows_downloader.py:247-250 | While the controls are disabled, a search or a row click changes nothing |
| `Screen.DownloadEndRestoresControls` | windows_downloader.py:268-280 | When a download ends, whatever its outcome, search and selection are re-enabled and the progress bar is hidden. Download is disabled. A still-selected row is re-selected, which starts a new size lookup |
| `AppWindow.App.constructor` | windows_downloader.py:76-83 | The new window is in the initial state: empty list, nothing selected, Download disabled, search and selection enabled |
| `AppWindow.App.UpdateVersionList` | windows_downloader.py:101-107 | Deletes every row, which also clears the selection, then inserts row `str(i)` showing entry `i` for each entry |
| `AppWindow.App.VersionsLoaded` | windows_downloader.py:93-94 | Stores the loaded catalogue and shows all of it |
| `AppWindow.App.SearchVersions` | windows_downloader.py:112-127 | Has the effect of `Screen.SearchVersions` and keeps the invariant |
| `AppWindow.App.OnSelect` | windows_downloader.py:129-162 | Has the effect of `Screen.OnSelect` and keeps the invariant |
| `AppWindow.App.UpdateDetailsWithSize` | windows_downloader.py:181-193 | Has the effect of `Screen.UpdateDetailsWithSize` and keeps the invariant |
| `AppWindow.App.SizeThreadDone` | windows_downloader.py:164-179 | Retires size thread `k` and delivers its report |
| `AppWindow.App.DownloadIso` | windows_downloader.py:229-252 | Has the effect of `Screen.DownloadIso` and keeps the invariant |
| `AppWindow.App.DownloadThreadDone` | windows_downloader.py:261-280 | Has the effect of the `finally` block, `Screen.DownloadFinished`, and keeps the invariant |
| `AppWindow.App.Handle` | windows_downloader.py:37-280 | Delivers one event as `Screen.Next` says. User events go to the handlers bound at lines 37-53 and 76-77. Thread ends come from the threads started at lines 160 and 252, whose reports arrive at lines 179 and 268 |
| `Findings.AfterSelections` | windows_downloader.py:140-162 | After selecting row 0, then row 1, then row 0 again, three lookups are running, and the first and the last carry the same id `"0"` |
| `Findings.ButtonReenabledDuringDownload` | windows_downloader.py:183-193 | As written, a late size report for an earlier selection of the same row re-enables Download while a download runs, and a second download can start |
| `Findings.GuardedWindowOneDownload` | windows_downloader.py:246-250 | With the corrected size handler, every reachable state has at most one download running, and while it runs Download, search and selection are disabled |
| `Findings.SearchForC` | windows_downloader.py:112-122 | Searching the catalogue `[A, C]` for `"C"` shows `C` alone, so row `"0"` then names `C` |
| `Findings.LateAnswerForA` | windows_downloader.py:183-193 | With `C` selected under row id `"0"` and lookups for `A` and `C` both carrying `"0"`, `C`'s failed lookup and then `A`'s answer leave Download enabled and `A`'s details shown |
| `Findings.SizeOfAnotherEntryShown` | windows_downloader.py:183-193 | As written, after selecting row 0, searching and selecting row 0 again, the selected entry's own lookup fails, yet a late report for the earlier entry is accepted: Download is enabled and the panel shows the other entry |
| `Findings.GuardedWindowSizeForSelection` | windows_downloader.py:183-193 | With the corrected size handler, in every reachable state an enabled Download button means the panel shows a formatted size looked up for the selected URL |

## Findings

| source | as written | input that shows it | evidently intended | confidence | as-written member | corrected member |
|---|---|---|---|---|---|---|
| windows_downloader.py:183-193 | A size result is accepted whenever its row id equals `current_selection_id`, and it may then enable Download even while a download runs. | Load two entries. Select row 0, then row 1, then row 0 again. The third lookup answers, then Download is clicked. Then the first lookup, which also carries id "0", answers and re-enables Download. A second click starts a second, concurrent download. | While a download runs, Download stays disabled, so only one download runs at a time. The comment at line 246 and the disabling at lines 247-250 say so. | medium, not executed | `Findings.ButtonReenabledDuringDownload` | `Findings.GuardedWindowOneDownload` |
| windows_downloader.py:183-193 | A size result is accepted whenever its row id equals `current_selection_id`, though after a search the same row id names another entry. | Load entries A and C. Select row 0 (A). Search for "C", so row 0 now shows C, and select row 0 again. C's lookup fails and then A's lookup answers. The panel then shows A and its size, and Download is enabled for C's URL, whose size could not be determined. | The details and the button reflect a lookup for the entry currently selected, as the argument `selection_id_at_call` at line 160 is meant to ensure. | medium, not executed | `Findings.SizeOfAnotherEntryShown` | `Findings.GuardedWindowSizeForSelection` |

The corrected handler is `Findings.UpdateDetailsWithSizeGuarded`. It accepts a
report only when both its row id and its URL are the current selection's, and
it enables the button only when no download runs. `Findings.NextGuarded` is the window
with that handler. `Screen` and `AppWindow` model the code as written.

## Left out

- `load_versions`: the HTTP request and JSON parsing are not modelled. A successful load is the event `Loaded(entries)`. A failed load only shows a message box, so it changes no modelled state. The indeterminate progress bar is not modelled.
- `show_details`: the details text is the abstract value `Screen.Details`, holding the fields it shows. The line layout and the "N/A" fallbacks in the text are not modelled.
- `_format_bytes`: the float arithmetic and the size text are not modelled. Only whether formatting raises is kept, because `can_download` is set only after formatting succeeds.
- SizeProbe.FetchSize: treats counts below 1024^5 as formattable, using exact arithmetic. Near that bound the float logarithm may round up and raise for a slightly smaller count.
- `_report_hook` and the progress value: float percentages. Only whether the progress bar is shown is kept.
- Message boxes, the save-file dialog and the default file name from `os.path.basename`: these are UI and library calls. The dialog's answer is the `path` input.
- Threads and `self.after`: each thread's completion is one atomic event, in any order. The `finally` block of `_download_thread` runs on the worker thread, and here it is atomic too.
- The success or failure of `urlretrieve`: it only chooses which message box is shown.
- Text.Lower: lower-cases ASCII letters only. Python's `str.lower` also lower-cases other Unicode letters.
- Text.ParseDecimal: accepts plain digit strings only. Python's `int` also accepts a sign, surrounding whitespace and underscores. Row ids are always `str(i)`, so those forms never reach it.
- Tk's own `<<TreeviewSelect>>` event, which Tk sends when selected rows are deleted, is not modelled. In the source it comes after a search, which has already made the same reset. A click on a row is taken to run `on_select` even when that row was already selected.
- JSON values of unexpected types, for example a `"version"` that is not a string, or `null`, are not modelled. Each field is either a string or absent.

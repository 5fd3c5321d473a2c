/**
 * The window's state and its event handlers as functions on a value.
 *
 * `Ui` holds every piece of state the handlers read or write: the catalogue,
 * the list's rows and its selection, the selection fields, the details panel,
 * the enabled state of the buttons, the search entry and the list, and the
 * background threads in flight (size lookups and downloads). One function per
 * handler gives the state after it; `Next` delivers one event the way the
 * toolkit does, ignoring clicks on disabled widgets.
 */
module Screen {
  import opened Wrappers
  import opened Text
  import opened Catalogue
  import opened SizeProbe

  /** The details panel, abstracted from its text. */
  datatype Details =
    | Blank
    | Fetching(version: string, url: Option<string>, notes: string)
    | Sized(version: string, url: Option<string>, size: SizeText, notes: string)

  /** The list's `selectmode`: `'browse'` lets the user select a row, `'none'` does not. */
  datatype SelectMode = Browse | NoSelect

  /** A download thread in flight: what it fetches and where it saves it. */
  datatype Job = Job(url: string, path: string)

  datatype Ui = Ui(
    allVersions: seq<Entry>,         // the whole catalogue
    display: seq<Entry>,             // current_display_versions
    rows: seq<Row>,                  // the list's rows
    treeSelection: Option<string>,   // the id of the list's selected row
    selectionId: Option<string>,     // current_selection_id
    selectedUrl: Option<string>,     // selected_download_url
    details: Details,
    downloadEnabled: bool,           // the "Download ISO" button
    searchEnabled: bool,             // the search button and the search entry
    selectMode: SelectMode,
    progressShown: bool,             // the download progress bar is on screen
    sizeLookups: seq<SizeRequest>,   // size threads not yet reported back
    downloads: seq<Job>)             // download threads not yet finished

  const NoNotes := "No additional notes."

  function Remove<T>(s: seq<T>, k: nat): (r: seq<T>)
    requires k < |s|
    ensures |r| == |s| - 1
    ensures forall i :: 0 <= i < k ==> r[i] == s[i]
    ensures forall i :: k <= i < |r| ==> r[i] == s[i + 1]
  {
    s[..k] + s[k + 1..]
  }

  /** The state `__init__` leaves behind, before the catalogue arrives. */
  function Initial(): Ui {
    Ui([], [], [], None, None, None, Blank, false, true, Browse, false, [], [])
  }

  /** `update_version_list`: every row replaced, row i showing entry i. */
  function UpdateVersionList(s: Ui, versions: seq<Entry>): Ui {
    s.(display := versions, rows := Rows(versions), treeSelection := None)
  }

  /** The successful end of `load_versions`. */
  function VersionsLoaded(s: Ui, entries: seq<Entry>): Ui {
    UpdateVersionList(s.(allVersions := entries), entries)
  }

  /** The reset shared by `search_versions` and `on_select` with nothing selected. */
  function ClearSelection(s: Ui): Ui {
    s.(details := Blank, downloadEnabled := false, selectedUrl := None, selectionId := None)
  }

  /** `search_versions` with `raw` in the search entry. */
  function SearchVersions(s: Ui, raw: string): Ui {
    ClearSelection(UpdateVersionList(s, SearchResults(raw, s.allVersions)))
  }

  /** The entry index a row id stands for (`int(selected_iid)`), if it is one. */
  function SelectedIndex(s: Ui, iid: string): Option<nat> {
    match ParseDecimal(iid)
    case Some(idx) => if idx < |s.display| then Some(idx) else None
    case None => None
  }

  /** The size request `on_select` starts for entry `v` shown in row `iid`. */
  function RequestFor(v: Entry, iid: string): SizeRequest {
    SizeRequest(v.downloadUrl, v.version.GetOr("N/A"), v.notes.GetOr(NoNotes), iid)
  }

  /** `on_select`. */
  function OnSelect(s: Ui): Ui {
    match s.treeSelection
    case None => ClearSelection(s)
    case Some(iid) =>
      var s1 := s.(selectionId := Some(iid));
      match SelectedIndex(s, iid)
      case None => s1
      case Some(idx) =>
        var req := RequestFor(s.display[idx], iid);
        s1.(selectedUrl := req.url,
            details := Fetching(req.version, req.url, req.notes),
            downloadEnabled := false,
            sizeLookups := s.sizeLookups + [req])
  }

  /** `_update_details_with_size`. */
  function UpdateDetailsWithSize(s: Ui, r: SizeReport): Ui {
    if s.selectionId != Some(r.selectionId) then s
    else
      s.(details := Sized(r.version, r.url, r.size, r.notes),
         downloadEnabled := Present(s.selectedUrl) && r.canDownload)
  }

  /** Size thread `k` reports back, its HEAD request having produced `head`. */
  function SizeFetched(s: Ui, k: nat, head: Option<int>): Ui
    requires k < |s.sizeLookups|
  {
    UpdateDetailsWithSize(s.(sizeLookups := Remove(s.sizeLookups, k)), FetchSize(s.sizeLookups[k], head))
  }

  /** `download_iso`, the save dialog having returned `path` ("" when cancelled). */
  function DownloadIso(s: Ui, path: string): Ui {
    if !Present(s.selectedUrl) || path == "" then s
    else
      s.(progressShown := true, downloadEnabled := false, searchEnabled := false,
         selectMode := NoSelect, downloads := s.downloads + [Job(s.selectedUrl.value, path)])
  }

  /** The `finally` block of `_download_thread` for download thread `k`. */
  function DownloadFinished(s: Ui, k: nat): Ui
    requires k < |s.downloads|
  {
    var s1 := s.(downloads := Remove(s.downloads, k), progressShown := false,
                 selectMode := Browse, searchEnabled := true);
    if s1.treeSelection.Some? then OnSelect(s1) else s1.(downloadEnabled := false)
  }

  datatype Event =
    | Loaded(entries: seq<Entry>)          // the catalogue request succeeded
    | SearchRequested(raw: string)         // Search clicked, or Return in the entry
    | RowClicked(i: nat)                   // the user clicks row i of the list
    | DownloadClicked(path: string)        // Download ISO clicked; the dialog returns path
    | SizeArrived(k: nat, head: Option<int>)  // size thread k reports back
    | DownloadDone(k: nat)                 // download thread k ends, successfully or not

  /**
   * One event. Clicks and key presses reach their handler only while the
   * widget is enabled; a thread event only while that thread exists.
   */
  function Next(s: Ui, e: Event): Ui {
    match e
    case Loaded(entries) => VersionsLoaded(s, entries)
    case SearchRequested(raw) => if s.searchEnabled then SearchVersions(s, raw) else s
    case RowClicked(i) =>
      if s.selectMode == Browse && i < |s.rows| then OnSelect(s.(treeSelection := Some(s.rows[i].iid))) else s
    case DownloadClicked(path) => if s.downloadEnabled then DownloadIso(s, path) else s
    case SizeArrived(k, head) => if k < |s.sizeLookups| then SizeFetched(s, k, head) else s
    case DownloadDone(k) => if k < |s.downloads| then DownloadFinished(s, k) else s
  }

  /** The state after a sequence of events. */
  function Run(s: Ui, events: seq<Event>): Ui
    decreases |events|
  {
    if events == [] then s else Run(Next(s, events[0]), events[1..])
  }

  /** The list's selection is one of its rows. */
  ghost predicate SelectionIsRow(s: Ui) {
    s.treeSelection.Some? ==> exists i :: 0 <= i < |s.rows| && s.rows[i].iid == s.treeSelection.value
  }

  /**
   * What holds in every state the window reaches: the rows show the display
   * list under ids "0".."n-1"; the selection is a row; the download button is
   * enabled only when the selected URL is present and the details panel shows
   * a formatted size (not necessarily one looked up for that URL, since
   * reports are matched by row id only); the search controls, the list and
   * the progress bar change together.
   */
  ghost predicate Inv(s: Ui) {
    && s.rows == Rows(s.display)
    && SelectionIsRow(s)
    && (s.downloadEnabled ==> Present(s.selectedUrl) && s.details.Sized? && s.details.size.Formatted?)
    && (s.searchEnabled <==> s.selectMode == Browse)
    && (s.searchEnabled <==> !s.progressShown)
  }

  lemma InitialInv()
    ensures Inv(Initial())
  {
  }

  /** Under the invariant, a selected row always names a displayed entry: it is row i, entry i. */
  lemma {:induction false} SelectedRowIsIndex(s: Ui)
    requires Inv(s) && s.treeSelection.Some?
    ensures exists i :: (0 <= i < |s.display| && s.treeSelection.value == Decimal(i) &&
                         SelectedIndex(s, s.treeSelection.value) == Some(i))
  {
    var i :| 0 <= i < |s.rows| && s.rows[i].iid == s.treeSelection.value;
    DecimalRoundTrip(i);
  }

  lemma VersionsLoadedKeepsInv(s: Ui, entries: seq<Entry>)
    requires Inv(s)
    ensures Inv(VersionsLoaded(s, entries))
  {
  }

  lemma SearchKeepsInv(s: Ui, raw: string)
    requires Inv(s)
    ensures Inv(SearchVersions(s, raw))
  {
  }

  lemma OnSelectKeepsInv(s: Ui)
    requires Inv(s)
    ensures Inv(OnSelect(s))
  {
  }

  lemma UpdateDetailsKeepsInv(s: Ui, r: SizeReport)
    requires Inv(s) && Consistent(r)
    ensures Inv(UpdateDetailsWithSize(s, r))
  {
  }

  lemma SizeFetchedKeepsInv(s: Ui, k: nat, head: Option<int>)
    requires Inv(s) && k < |s.sizeLookups|
    ensures Inv(SizeFetched(s, k, head))
  {
    UpdateDetailsKeepsInv(s.(sizeLookups := Remove(s.sizeLookups, k)), FetchSize(s.sizeLookups[k], head));
  }

  lemma DownloadIsoKeepsInv(s: Ui, path: string)
    requires Inv(s)
    ensures Inv(DownloadIso(s, path))
  {
  }

  lemma DownloadFinishedKeepsInv(s: Ui, k: nat)
    requires Inv(s) && k < |s.downloads|
    ensures Inv(DownloadFinished(s, k))
  {
    var s1 := s.(downloads := Remove(s.downloads, k), progressShown := false,
                 selectMode := Browse, searchEnabled := true);
    if s1.treeSelection.Some? {
      OnSelectKeepsInv(s1);
    }
  }

  lemma SearchEventKeepsInv(s: Ui, raw: string)
    requires Inv(s)
    ensures Inv(Next(s, SearchRequested(raw)))
  {
    if s.searchEnabled { SearchKeepsInv(s, raw); }
  }

  lemma RowEventKeepsInv(s: Ui, i: nat)
    requires Inv(s)
    ensures Inv(Next(s, RowClicked(i)))
  {
    if s.selectMode == Browse && i < |s.rows| {
      OnSelectKeepsInv(s.(treeSelection := Some(s.rows[i].iid)));
    }
  }

  lemma SizeEventKeepsInv(s: Ui, k: nat, head: Option<int>)
    requires Inv(s)
    ensures Inv(Next(s, SizeArrived(k, head)))
  {
    if k < |s.sizeLookups| { SizeFetchedKeepsInv(s, k, head); }
  }

  lemma DoneEventKeepsInv(s: Ui, k: nat)
    requires Inv(s)
    ensures Inv(Next(s, DownloadDone(k)))
  {
    if k < |s.downloads| { DownloadFinishedKeepsInv(s, k); }
  }

  /** Every event keeps the invariant. */
  lemma NextKeepsInv(s: Ui, e: Event)
    requires Inv(s)
    ensures Inv(Next(s, e))
  {
    match e
    case Loaded(entries) => VersionsLoadedKeepsInv(s, entries);
    case SearchRequested(raw) => SearchEventKeepsInv(s, raw);
    case RowClicked(i) => RowEventKeepsInv(s, i);
    case DownloadClicked(path) => DownloadIsoKeepsInv(s, path);
    case SizeArrived(k, head) => SizeEventKeepsInv(s, k, head);
    case DownloadDone(k) => DoneEventKeepsInv(s, k);
  }

  /** The invariant holds after any sequence of events from the initial state. */
  lemma {:induction false} RunKeepsInv(s: Ui, events: seq<Event>)
    requires Inv(s)
    ensures Inv(Run(s, events))
    decreases |events|
  {
    if events != [] {
      NextKeepsInv(s, events[0]);
      RunKeepsInv(Next(s, events[0]), events[1..]);
    }
  }

  /**
   * A search shows SearchResults of the catalogue under fresh row ids and
   * resets the selection: no selected URL or id, empty details, the download
   * button disabled. Threads in flight and the search controls are untouched.
   */
  lemma SearchResets(s: Ui, raw: string)
    ensures var t := SearchVersions(s, raw);
      && t.display == SearchResults(raw, s.allVersions) && t.rows == Rows(t.display)
      && t.treeSelection.None? && t.selectionId.None? && t.selectedUrl.None?
      && t.details == Blank && !t.downloadEnabled
      && t.allVersions == s.allVersions && t.sizeLookups == s.sizeLookups && t.downloads == s.downloads
      && t.searchEnabled == s.searchEnabled && t.selectMode == s.selectMode
  {
  }

  /** `on_select` with nothing selected resets the same four fields and nothing else. */
  lemma NoSelectionResets(s: Ui)
    requires s.treeSelection.None?
    ensures var t := OnSelect(s);
      && t.selectionId.None? && t.selectedUrl.None? && t.details == Blank && !t.downloadEnabled
      && t.(selectionId := s.selectionId, selectedUrl := s.selectedUrl, details := s.details,
            downloadEnabled := s.downloadEnabled) == s
  {
  }

  /**
   * `on_select` with a row id that names no displayed entry records the id
   * and changes nothing else.
   */
  lemma OutOfRangeOnlyRecordsId(s: Ui, iid: string)
    requires s.treeSelection == Some(iid) && SelectedIndex(s, iid).None?
    ensures OnSelect(s) == s.(selectionId := Some(iid))
  {
  }

  /**
   * Clicking row i selects entry i: the selected URL is that entry's, the
   * button is disabled until its size arrives, and one size lookup for this
   * row id is started. The rest of the state is unchanged.
   */
  lemma RowClickSelectsEntry(s: Ui, i: nat)
    requires Inv(s) && s.selectMode == Browse && i < |s.rows|
    ensures var v, iid := s.display[i], Decimal(i);
      var req := SizeRequest(v.downloadUrl, v.version.GetOr("N/A"), v.notes.GetOr(NoNotes), iid);
      Next(s, RowClicked(i)) ==
        s.(treeSelection := Some(iid), selectionId := Some(iid), selectedUrl := v.downloadUrl,
           details := Fetching(req.version, v.downloadUrl, req.notes), downloadEnabled := false,
           sizeLookups := s.sizeLookups + [req])
  {
    DecimalRoundTrip(i);
  }

  /**
   * A size report for a row id other than the current selection only retires
   * its thread: nothing on screen changes.
   */
  lemma StaleSizeIgnored(s: Ui, k: nat, head: Option<int>)
    requires k < |s.sizeLookups| && s.selectionId != Some(s.sizeLookups[k].selectionId)
    ensures SizeFetched(s, k, head) == s.(sizeLookups := Remove(s.sizeLookups, k))
  {
  }

  /**
   * A size report for the current selection retires its thread and shows the
   * looked-up entry with its size: the formatted size, or "could not
   * determine", or the formatting error. The button is enabled exactly when
   * the selected URL and the looked-up URL are present and the size is known
   * and formattable. Nothing else changes.
   */
  lemma CurrentSizeShown(s: Ui, k: nat, head: Option<int>)
    requires k < |s.sizeLookups| && s.selectionId == Some(s.sizeLookups[k].selectionId)
    ensures var req, r := s.sizeLookups[k], FetchSize(s.sizeLookups[k], head);
      SizeFetched(s, k, head) ==
        s.(sizeLookups := Remove(s.sizeLookups, k),
           details := Sized(req.version, req.url, r.size, req.notes),
           downloadEnabled := Present(s.selectedUrl) && r.canDownload)
    ensures var t, req := SizeFetched(s, k, head), s.sizeLookups[k];
      && (t.downloadEnabled <==>
            Present(s.selectedUrl) && Present(req.url) && head.Some? && Formattable(head.value))
      && (t.details.size == Undetermined <==> !Present(req.url) || head.None?)
      && (t.details.size == FormatFailed <==> Present(req.url) && head.Some? && !Formattable(head.value))
      && (head.Some? && Present(req.url) && Formattable(head.value) ==> t.details.size == Formatted(head.value))
  {
  }

  /** Clicking Download without a selected URL, or cancelling the dialog, changes nothing. */
  lemma DownloadNeedsUrlAndPath(s: Ui, path: string)
    requires !Present(s.selectedUrl) || path == ""
    ensures Next(s, DownloadClicked(path)) == s
  {
  }

  /**
   * Starting a download starts one download thread for the selected URL and
   * disables the download button, the search controls and selection.
   */
  lemma DownloadLocksControls(s: Ui, path: string)
    requires s.downloadEnabled && Present(s.selectedUrl) && path != ""
    ensures var t := Next(s, DownloadClicked(path));
      && t.downloads == s.downloads + [Job(s.selectedUrl.value, path)]
      && !t.downloadEnabled && !t.searchEnabled && t.selectMode == NoSelect && t.progressShown
      && t.selectionId == s.selectionId && t.selectedUrl == s.selectedUrl && t.sizeLookups == s.sizeLookups
  {
  }

  /** While the controls are locked, searching and clicking rows change nothing. */
  lemma LockedControlsIgnoreUser(s: Ui, raw: string, i: nat)
    requires Inv(s) && !s.searchEnabled
    ensures Next(s, SearchRequested(raw)) == s
    ensures Next(s, RowClicked(i)) == s
  {
  }

  /**
   * When a download thread ends, whether it saved the file or failed, the
   * search controls and selection come back and the progress bar goes. With
   * a row still selected the selection is refreshed, starting a new size
   * lookup; otherwise the download button is disabled. Either way the button
   * stays disabled until a size arrives.
   */
  lemma DownloadEndRestoresControls(s: Ui, k: nat)
    requires Inv(s) && k < |s.downloads|
    ensures var t := Next(s, DownloadDone(k));
      && t.searchEnabled && t.selectMode == Browse && !t.progressShown && !t.downloadEnabled
      && t.downloads == Remove(s.downloads, k)
      && (s.treeSelection.Some? ==>
            |t.sizeLookups| == |s.sizeLookups| + 1 && t.selectionId == s.treeSelection)
      && (s.treeSelection.None? ==> t.sizeLookups == s.sizeLookups)
  {
    if s.treeSelection.Some? {
      var s1 := s.(downloads := Remove(s.downloads, k), progressShown := false,
                   selectMode := Browse, searchEnabled := true);
      SelectedRowIsIndex(s1);
    }
  }
}

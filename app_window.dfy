/**
 * The window object. Each field stands for a widget or an attribute the
 * handlers read and write; each method is one handler, and its effect on the
 * whole state is the function of the same name in `Screen`.
 */
module AppWindow {
  import opened Wrappers
  import opened Text
  import opened Catalogue
  import opened SizeProbe
  import opened Screen

  class App {
    var allVersions: seq<Entry>
    var currentDisplayVersions: seq<Entry>
    var rows: seq<Row>                    // vers_list.get_children(), with each row's values
    var treeSelection: Option<string>     // vers_list.selection()
    var currentSelectionId: Option<string>
    var selectedDownloadUrl: Option<string>
    var details: Details
    var downloadButtonEnabled: bool
    var searchEnabled: bool               // search_button and search_entry
    var selectMode: SelectMode            // vers_list's selectmode
    var progressShown: bool               // download_progress is gridded
    var sizeLookups: seq<SizeRequest>     // size threads still running
    var downloads: seq<Job>               // download threads still running

    function State(): Ui
      reads this
    {
      Ui(allVersions, currentDisplayVersions, rows, treeSelection, currentSelectionId,
         selectedDownloadUrl, details, downloadButtonEnabled, searchEnabled, selectMode,
         progressShown, sizeLookups, downloads)
    }

    ghost predicate Valid()
      reads this
    {
      Inv(State())
    }

    /** `__init__`: empty list and details, Download disabled, search and selection enabled. */
    constructor ()
      ensures Valid() && State() == Initial()
    {
      allVersions, currentDisplayVersions, rows := [], [], [];
      treeSelection, currentSelectionId, selectedDownloadUrl := None, None, None;
      details := Blank;
      downloadButtonEnabled, searchEnabled, selectMode, progressShown := false, true, Browse, false;
      sizeLookups, downloads := [], [];
    }

    /**
     * `update_version_list`: delete every row (a deleted row leaves the
     * selection), then insert one row per entry with id `str(i)`.
     */
    method UpdateVersionList(versions: seq<Entry>)
      requires SelectionIsRow(State())
      modifies this
      ensures State() == Screen.UpdateVersionList(old(State()), versions)
    {
      while rows != []
        invariant SelectionIsRow(State())
        modifies this`rows, this`treeSelection
        decreases |rows|
      {
        if treeSelection == Some(rows[0].iid) {
          treeSelection := None;
        } else if treeSelection.Some? {
          var j :| 0 <= j < |rows| && rows[j].iid == treeSelection.value;
          assert rows[1..][j - 1] == rows[j];
        }
        rows := rows[1..];
      }
      currentDisplayVersions := versions;
      var i := 0;
      while i < |versions|
        invariant 0 <= i <= |versions| && |rows| == i
        invariant forall k :: 0 <= k < i ==> rows[k] == Row(Decimal(k), Label(versions[k]))
        modifies this`rows
      {
        rows := rows + [Row(Decimal(i), Label(versions[i]))];
        i := i + 1;
      }
      assert rows == Rows(versions);
    }

    /** The successful end of `load_versions`. */
    method VersionsLoaded(entries: seq<Entry>)
      requires Valid()
      modifies this
      ensures Valid() && State() == Screen.VersionsLoaded(old(State()), entries)
    {
      allVersions := entries;
      UpdateVersionList(allVersions);
    }

    /** `search_versions`, with `raw` in the search entry. */
    method SearchVersions(raw: string)
      requires Valid()
      modifies this
      ensures Valid() && State() == Screen.SearchVersions(old(State()), raw)
    {
      var term := SearchTerm(raw);
      if term == [] {
        UpdateVersionList(allVersions);
      } else {
        var filtered := Filter(term, allVersions);
        UpdateVersionList(filtered);
      }
      details := Blank;
      downloadButtonEnabled := false;
      selectedDownloadUrl := None;
      currentSelectionId := None;
      SearchKeepsInv(old(State()), raw);
    }

    /** `on_select`. */
    method OnSelect()
      requires Valid()
      modifies this
      ensures Valid() && State() == Screen.OnSelect(old(State()))
    {
      OnSelectKeepsInv(State());
      if treeSelection.None? {
        details := Blank;
        downloadButtonEnabled := false;
        selectedDownloadUrl := None;
        currentSelectionId := None;
        return;
      }
      var selectedIid := treeSelection.value;
      currentSelectionId := Some(selectedIid);
      var parsed := ParseDecimal(selectedIid);
      if parsed.None? || parsed.value >= |currentDisplayVersions| {
        return;
      }
      var v := currentDisplayVersions[parsed.value];
      selectedDownloadUrl := v.downloadUrl;
      var versionName := v.version.GetOr("N/A");
      var selectedNotes := v.notes.GetOr(NoNotes);
      details := Fetching(versionName, selectedDownloadUrl, selectedNotes);
      downloadButtonEnabled := false;
      sizeLookups := sizeLookups + [SizeRequest(selectedDownloadUrl, versionName, selectedNotes, selectedIid)];
    }

    /** `_update_details_with_size`. */
    method UpdateDetailsWithSize(r: SizeReport)
      requires Valid() && Consistent(r)
      modifies this
      ensures Valid() && State() == Screen.UpdateDetailsWithSize(old(State()), r)
    {
      if currentSelectionId != Some(r.selectionId) {
        return;
      }
      details := Sized(r.version, r.url, r.size, r.notes);
      downloadButtonEnabled := Present(selectedDownloadUrl) && r.canDownload;
    }

    /** Size thread `k` finishes (`_fetch_and_display_file_size`), its HEAD request having given `head`. */
    method SizeThreadDone(k: nat, head: Option<int>)
      requires Valid() && k < |sizeLookups|
      modifies this
      ensures Valid() && State() == SizeFetched(old(State()), k, head)
    {
      var report := FetchSize(sizeLookups[k], head);
      sizeLookups := Remove(sizeLookups, k);
      UpdateDetailsWithSize(report);
    }

    /** `download_iso`, the save dialog having returned `path` ("" when cancelled). */
    method DownloadIso(path: string)
      requires Valid()
      modifies this
      ensures Valid() && State() == Screen.DownloadIso(old(State()), path)
    {
      if !Present(selectedDownloadUrl) {
        return;
      }
      if path == "" {
        return;
      }
      progressShown := true;
      downloadButtonEnabled := false;
      searchEnabled := false;
      selectMode := NoSelect;
      downloads := downloads + [Job(selectedDownloadUrl.value, path)];
    }

    /** The `finally` block of `_download_thread` for download thread `k`. */
    method DownloadThreadDone(k: nat)
      requires Valid() && k < |downloads|
      modifies this
      ensures Valid() && State() == DownloadFinished(old(State()), k)
    {
      downloads := Remove(downloads, k);
      progressShown := false;
      selectMode := Browse;
      searchEnabled := true;
      if treeSelection.Some? {
        OnSelect();
      } else {
        downloadButtonEnabled := false;
      }
    }

    /** Deliver one event, as `Screen.Next` describes. */
    method Handle(e: Event)
      requires Valid()
      modifies this
      ensures Valid() && State() == Next(old(State()), e)
    {
      match e
      case Loaded(entries) =>
        VersionsLoaded(entries);
      case SearchRequested(raw) =>
        if searchEnabled {
          SearchVersions(raw);
        }
      case RowClicked(i) =>
        if selectMode == Browse && i < |rows| {
          treeSelection := Some(rows[i].iid);
          OnSelect();
        }
      case DownloadClicked(path) =>
        if downloadButtonEnabled {
          DownloadIso(path);
        }
      case SizeArrived(k, head) =>
        if k < |sizeLookups| {
          SizeThreadDone(k, head);
        }
      case DownloadDone(k) =>
        if k < |downloads| {
          DownloadThreadDone(k);
        }
    }
  }
}

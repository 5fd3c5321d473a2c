/**
 * Size results are told apart only by the row id they were started for, and
 * row ids are reused. When the same row is selected twice, the earlier lookup
 * still carries the current id, so its late result is accepted: if a download
 * has started in between, that result re-enables the Download button while
 * the download runs, and a second, concurrent download can be started. After
 * a search, row "0" names another entry, so a late result for the entry that
 * row showed before is accepted for the entry it shows now: the panel shows
 * the wrong entry, and Download is enabled even when the selected entry's own
 * lookup failed.
 */
module Findings {
  import opened Wrappers
  import opened Text
  import opened Catalogue
  import opened SizeProbe
  import opened Screen

  const EntryA := Entry(Some("A"), Some("a.iso"), None)
  const EntryB := Entry(Some("B"), Some("b.iso"), None)
  const EntryC := Entry(Some("C"), Some("c.iso"), None)

  /** Load two entries, then select row 0, row 1 and row 0 again. */
  function SelectTrace(): seq<Event> {
    [Loaded([EntryA, EntryB]), RowClicked(0), RowClicked(1), RowClicked(0)]
  }

  /** The third lookup answers first; Download is clicked; then the first lookup answers. */
  function DownloadTrace(): seq<Event> {
    [SizeArrived(2, Some(1000)), DownloadClicked("a.iso"), SizeArrived(0, Some(1000))]
  }

  /** Running two event sequences one after the other. */
  lemma {:induction false} RunConcat(s: Ui, a: seq<Event>, b: seq<Event>)
    ensures Run(s, a + b) == Run(Run(s, a), b)
    decreases |a|
  {
    if a != [] {
      assert (a + b)[0] == a[0] && (a + b)[1..] == a[1..] + b;
      RunConcat(Next(s, a[0]), a[1..], b);
    } else {
      assert a + b == b;
    }
  }

  /** The catalogue [A, B] arrives: the list shows it and nothing is selected or running. */
  lemma LoadedAB()
    ensures var s := Next(Initial(), Loaded([EntryA, EntryB]));
      && Inv(s) && s.display == [EntryA, EntryB] && s.selectMode == Browse && |s.rows| == 2
      && s.sizeLookups == [] && s.downloads == [] && s.searchEnabled
  {
    InitialInv();
    NextKeepsInv(Initial(), Loaded([EntryA, EntryB]));
  }

  /** A click on row i selects entry i, appends its lookup and leaves the list and the controls as they were. */
  lemma ClickRow(s: Ui, i: nat)
    requires Inv(s) && s.selectMode == Browse && i < |s.rows|
    ensures var t := Next(s, RowClicked(i));
      && Inv(t) && t.display == s.display && t.rows == s.rows && t.selectMode == Browse
      && t.downloads == s.downloads && t.searchEnabled == s.searchEnabled
      && t.sizeLookups == s.sizeLookups + [RequestFor(s.display[i], Decimal(i))]
      && t.selectionId == Some(Decimal(i)) && t.selectedUrl == s.display[i].downloadUrl
  {
    RowClickSelectsEntry(s, i);
    NextKeepsInv(s, RowClicked(i));
  }

  /** After SelectTrace, row 0 is selected and three lookups run; the first and the last are for row id "0". */
  lemma AfterSelections()
    ensures var s := Run(Initial(), SelectTrace());
      && Inv(s) && s.selectionId == Some("0") && s.selectedUrl == Some("a.iso")
      && |s.sizeLookups| == 3 && s.sizeLookups[0] == s.sizeLookups[2]
      && s.sizeLookups[0] == SizeRequest(Some("a.iso"), "A", NoNotes, "0")
      && s.downloads == [] && s.searchEnabled
  {
    var es := SelectTrace();
    var s1 := Next(Initial(), es[0]);
    LoadedAB();
    var s2 := Next(s1, es[1]);
    ClickRow(s1, 0);
    var s3 := Next(s2, es[2]);
    ClickRow(s2, 1);
    var s4 := Next(s3, es[3]);
    ClickRow(s3, 0);
    assert Decimal(0) == "0";
    assert s4.sizeLookups == [RequestFor(EntryA, "0"), RequestFor(EntryB, Decimal(1)), RequestFor(EntryA, "0")];
    assert Run(s3, es[3..]) == s4;
    assert Run(s2, es[2..]) == Run(s3, es[3..]);
    assert Run(s1, es[1..]) == Run(s2, es[2..]);
  }

  /** The pending lookups `ls` hold, at positions 0 and `k`, the same request for row id "0" and entry A. */
  ghost predicate StaleAndFresh(ls: seq<SizeRequest>, k: nat) {
    k < |ls| && ls[0] == ls[k] && ls[0] == SizeRequest(Some("a.iso"), "A", NoNotes, "0")
  }

  /** Row "0" is selected with URL a.iso and no download runs. */
  ghost predicate RowZeroSelected(s: Ui) {
    Inv(s) && s.selectionId == Some("0") && s.selectedUrl == Some("a.iso") && s.downloads == []
  }

  /** The lookup started last answers: the button is enabled. */
  lemma FreshAnswerEnables(s: Ui)
    requires RowZeroSelected(s) && StaleAndFresh(s.sizeLookups, 2) && |s.sizeLookups| == 3
    ensures var t := Next(s, SizeArrived(2, Some(1000)));
      RowZeroSelected(t) && t.downloadEnabled && StaleAndFresh(t.sizeLookups, 0)
  {
    CurrentSizeShown(s, 2, Some(1000));
    NextKeepsInv(s, SizeArrived(2, Some(1000)));
  }

  /** Download is clicked: one download runs and the controls are locked. */
  lemma DownloadStarts(s: Ui)
    requires RowZeroSelected(s) && s.downloadEnabled && StaleAndFresh(s.sizeLookups, 0)
    ensures var t := Next(s, DownloadClicked("a.iso"));
      && Inv(t) && t.selectionId == Some("0") && t.selectedUrl == Some("a.iso")
      && |t.downloads| == 1 && !t.downloadEnabled && !t.searchEnabled && StaleAndFresh(t.sizeLookups, 0)
  {
    DownloadLocksControls(s, "a.iso");
    NextKeepsInv(s, DownloadClicked("a.iso"));
  }

  /** The first, stale lookup answers: it carries the current row id and re-enables the button. */
  lemma StaleAnswerEnables(s: Ui)
    requires Inv(s) && s.selectionId == Some("0") && s.selectedUrl == Some("a.iso")
    requires |s.downloads| == 1 && !s.searchEnabled && StaleAndFresh(s.sizeLookups, 0)
    ensures var t := Next(s, SizeArrived(0, Some(1000)));
      |t.downloads| == 1 && t.downloadEnabled && !t.searchEnabled
  {
    CurrentSizeShown(s, 0, Some(1000));
  }

  /** DownloadTrace from the state SelectTrace leaves: one download runs and the button is enabled. */
  lemma DownloadTraceReenables(s: Ui)
    requires RowZeroSelected(s) && StaleAndFresh(s.sizeLookups, 2) && |s.sizeLookups| == 3
    ensures var t := Run(s, DownloadTrace());
      |t.downloads| == 1 && t.downloadEnabled && !t.searchEnabled
  {
    var es := DownloadTrace();
    var s5 := Next(s, SizeArrived(2, Some(1000)));
    FreshAnswerEnables(s);
    var s6 := Next(s5, DownloadClicked("a.iso"));
    DownloadStarts(s5);
    var s7 := Next(s6, SizeArrived(0, Some(1000)));
    StaleAnswerEnables(s6);
    assert es[2..] == [SizeArrived(0, Some(1000))] && Run(s6, es[2..]) == s7;
    assert es[1..] == [DownloadClicked("a.iso"), SizeArrived(0, Some(1000))] && Run(s5, es[1..]) == Run(s6, es[2..]);
    assert Run(s, es) == Run(s5, es[1..]);
  }

  /**
   * As written: after the two traces one download runs and yet the Download
   * button is enabled, so clicking it starts a second download.
   */
  lemma ButtonReenabledDuringDownload()
    ensures var s := Run(Initial(), SelectTrace() + DownloadTrace());
      && |s.downloads| == 1 && s.downloadEnabled && !s.searchEnabled
      && |Next(s, DownloadClicked("a-again.iso")).downloads| == 2
  {
    RunConcat(Initial(), SelectTrace(), DownloadTrace());
    AfterSelections();
    DownloadTraceReenables(Run(Initial(), SelectTrace()));
  }

  /**
   * Load A and C, select row 0 (entry A), search for "C" so that row 0 shows
   * entry C, and select it. C's lookup fails, then A's lookup answers.
   */
  function SearchTrace(): seq<Event> {
    [Loaded([EntryA, EntryC]), RowClicked(0), SearchRequested("C"), RowClicked(0),
     SizeArrived(1, None), SizeArrived(0, Some(1000))]
  }

  /** The text "C" in the search entry searches for "c". */
  lemma TermForC()
    ensures SearchTerm("C") == "c"
  {
    StripExact("", "C", "");
    assert "" + "C" + "" == "C";
    assert Lower("C")[0] == 'c';
  }

  /** "c" occurs in C's key and not in A's. */
  lemma OnlyCMatches()
    ensures !Matches("c", EntryA) && Matches("c", EntryC)
  {
    assert Lower("A")[0] == 'a' && SearchKey(EntryA) == "a";
    assert Lower("C")[0] == 'c' && SearchKey(EntryC) == "c";
    assert !Contains("", "c");
  }

  /** Searching the catalogue [A, C] for "C" shows C alone. */
  lemma SearchForC()
    ensures SearchResults("C", [EntryA, EntryC]) == [EntryC]
  {
    TermForC();
    OnlyCMatches();
    assert [EntryA, EntryC][..1] == [EntryA] && [EntryA][..0] == [];
    assert Filter("c", [EntryA]) == [];
  }

  /** Row 0 was clicked while the list showed [A, C]: A is selected and its lookup runs. */
  lemma RowZeroIsA(s: Ui)
    requires Inv(s) && s.display == [EntryA, EntryC] && s.selectMode == Browse && s.searchEnabled
    requires s.sizeLookups == [] && s.downloads == []
    ensures var t := Next(s, RowClicked(0));
      && Inv(t) && t.searchEnabled && t.downloads == []
      && t.allVersions == s.allVersions && t.sizeLookups == [SizeRequest(Some("a.iso"), "A", NoNotes, "0")]
  {
    RowClickSelectsEntry(s, 0);
    NextKeepsInv(s, RowClicked(0));
    assert Decimal(0) == "0";
  }

  /** The search for "C" leaves row 0 showing entry C, with A's lookup still running. */
  lemma SearchThenRowZeroIsC(s: Ui)
    requires Inv(s) && s.allVersions == [EntryA, EntryC] && s.searchEnabled && s.downloads == []
    requires s.sizeLookups == [SizeRequest(Some("a.iso"), "A", NoNotes, "0")]
    ensures var t := Next(Next(s, SearchRequested("C")), RowClicked(0));
      && Inv(t) && t.selectionId == Some("0") && t.selectedUrl == Some("c.iso") && t.downloads == []
      && t.sizeLookups == [SizeRequest(Some("a.iso"), "A", NoNotes, "0"), SizeRequest(Some("c.iso"), "C", NoNotes, "0")]
  {
    SearchForC();
    var s1 := Next(s, SearchRequested("C"));
    NextKeepsInv(s, SearchRequested("C"));
    assert s1.display == [EntryC] && |s1.rows| == 1;
    RowClickSelectsEntry(s1, 0);
    NextKeepsInv(s1, RowClicked(0));
    assert Decimal(0) == "0";
  }

  /** C's lookup fails, then A's answers: A's size is shown and Download is enabled for C. */
  lemma LateAnswerForA(s: Ui)
    requires Inv(s) && s.selectionId == Some("0") && s.selectedUrl == Some("c.iso")
    requires s.sizeLookups == [SizeRequest(Some("a.iso"), "A", NoNotes, "0"), SizeRequest(Some("c.iso"), "C", NoNotes, "0")]
    ensures var t := Next(Next(s, SizeArrived(1, None)), SizeArrived(0, Some(1000)));
      && t.downloadEnabled && t.selectedUrl == Some("c.iso") && t.sizeLookups == []
      && t.details == Sized("A", Some("a.iso"), Formatted(1000), NoNotes)
  {
    CurrentSizeShown(s, 1, None);
    var s1 := Next(s, SizeArrived(1, None));
    assert s1.downloadEnabled == false && s1.sizeLookups == [SizeRequest(Some("a.iso"), "A", NoNotes, "0")];
    CurrentSizeShown(s1, 0, Some(1000));
  }

  /**
   * As written: after SearchTrace the selected entry is C, whose own lookup
   * failed, yet Download is enabled and the panel shows entry A's details.
   */
  lemma SizeOfAnotherEntryShown()
    ensures var s := Run(Initial(), SearchTrace());
      && s.downloadEnabled && s.selectedUrl == Some("c.iso") && s.sizeLookups == []
      && s.details.Sized? && s.details.url == Some("a.iso") && s.details.version == "A"
  {
    var es := SearchTrace();
    var s0 := Initial();
    InitialInv();
    var s1 := Next(s0, es[0]);
    NextKeepsInv(s0, es[0]);
    var s2 := Next(s1, es[1]);
    RowZeroIsA(s1);
    var s4 := Next(Next(s2, es[2]), es[3]);
    SearchThenRowZeroIsC(s2);
    var s6 := Next(Next(s4, es[4]), es[5]);
    LateAnswerForA(s4);
    assert Run(s4, es[4..]) == s6 by {
      assert es[4..][1..] == es[5..] && Run(s6, es[6..]) == s6;
    }
    assert Run(s2, es[2..]) == Run(s4, es[4..]) by { assert es[2..][1..] == es[3..]; }
    assert Run(s0, es) == Run(s2, es[2..]) by { assert es[1..][1..] == es[2..]; }
  }

  /**
   * Corrected `_update_details_with_size`: a report is accepted only when
   * both its row id and its URL are the current selection's, and the button
   * is never enabled while a download thread runs.
   */
  function UpdateDetailsWithSizeGuarded(s: Ui, r: SizeReport): Ui {
    if s.selectionId != Some(r.selectionId) || s.selectedUrl != r.url then s
    else
      s.(details := Sized(r.version, r.url, r.size, r.notes),
         downloadEnabled := Present(s.selectedUrl) && r.canDownload && s.downloads == [])
  }

  /** The window with the corrected handler; every other event as before. */
  function NextGuarded(s: Ui, e: Event): Ui {
    match e
    case SizeArrived(k, head) =>
      if k < |s.sizeLookups| then
        UpdateDetailsWithSizeGuarded(s.(sizeLookups := Remove(s.sizeLookups, k)), FetchSize(s.sizeLookups[k], head))
      else s
    case _ => Next(s, e)
  }

  function RunGuarded(s: Ui, events: seq<Event>): Ui
    decreases |events|
  {
    if events == [] then s else RunGuarded(NextGuarded(s, events[0]), events[1..])
  }

  /**
   * The intended discipline: at most one download at a time, and while it
   * runs the Download button, the search controls and selection are all off.
   */
  ghost predicate OneDownload(s: Ui) {
    && Inv(s)
    && |s.downloads| <= 1
    && (s.downloads == [] <==> s.searchEnabled)
    && (s.downloads != [] ==> !s.downloadEnabled)
  }

  /** The intended button rule: Download is enabled only for a size looked up for the selected URL. */
  ghost predicate SizeForSelection(s: Ui) {
    s.downloadEnabled ==> s.details.Sized? && s.details.url == s.selectedUrl && s.details.size.Formatted?
  }

  ghost predicate Intended(s: Ui) {
    OneDownload(s) && SizeForSelection(s)
  }

  lemma GuardedSizeKeepsIntended(s: Ui, k: nat, head: Option<int>)
    requires Intended(s)
    ensures Intended(NextGuarded(s, SizeArrived(k, head)))
  {
    if k < |s.sizeLookups| {
      var s1 := s.(sizeLookups := Remove(s.sizeLookups, k));
      var r := FetchSize(s.sizeLookups[k], head);
      if s1.selectionId == Some(r.selectionId) && s1.selectedUrl == r.url {
        UpdateDetailsKeepsInv(s1, r);
      }
    }
  }

  lemma DownloadDoneKeepsIntended(s: Ui, k: nat)
    requires Intended(s)
    ensures Intended(NextGuarded(s, DownloadDone(k)))
  {
    if k < |s.downloads| {
      DownloadFinishedKeepsInv(s, k);
      var s1 := s.(downloads := Remove(s.downloads, k), progressShown := false,
                   selectMode := Browse, searchEnabled := true);
      if s1.treeSelection.Some? {
        OnSelectKeepsInv(s1);
      }
    }
  }

  lemma NextGuardedKeepsIntended(s: Ui, e: Event)
    requires Intended(s)
    ensures Intended(NextGuarded(s, e))
  {
    match e
    case SizeArrived(k, head) => GuardedSizeKeepsIntended(s, k, head);
    case DownloadDone(k) => DownloadDoneKeepsIntended(s, k);
    case Loaded(_) => NextKeepsInv(s, e);
    case SearchRequested(_) => NextKeepsInv(s, e);
    case RowClicked(_) => NextKeepsInv(s, e);
    case DownloadClicked(_) => NextKeepsInv(s, e);
  }

  /** With the correction, every run keeps the intended discipline. */
  lemma {:induction false} RunGuardedKeepsIntended(s: Ui, events: seq<Event>)
    requires Intended(s)
    ensures Intended(RunGuarded(s, events))
    decreases |events|
  {
    if events != [] {
      NextGuardedKeepsIntended(s, events[0]);
      RunGuardedKeepsIntended(NextGuarded(s, events[0]), events[1..]);
    }
  }

  /** Every reachable state of the corrected window runs at most one download, with the controls off meanwhile. */
  lemma GuardedWindowOneDownload(events: seq<Event>)
    ensures OneDownload(RunGuarded(Initial(), events))
  {
    InitialInv();
    RunGuardedKeepsIntended(Initial(), events);
  }

  /**
   * In every reachable state of the corrected window, an enabled Download
   * button means the panel shows a formatted size looked up for the selected URL.
   */
  lemma GuardedWindowSizeForSelection(events: seq<Event>)
    ensures SizeForSelection(RunGuarded(Initial(), events))
  {
    InitialInv();
    RunGuardedKeepsIntended(Initial(), events);
  }
}

/**
 * The version catalogue and its search filter: which entries `search_versions`
 * shows for a search term, and the rows `update_version_list` puts in the list.
 */
module Catalogue {
  import opened Wrappers
  import opened Text

  /**
   * One object of the catalogue's "versions" list. Each field is `None` when the
   * object lacks that key.
   */
  datatype Entry = Entry(version: Option<string>, downloadUrl: Option<string>, notes: Option<string>)

  /** What the filter searches in: `v.get("version", "").lower()`. */
  function SearchKey(e: Entry): string {
    Lower(e.version.GetOr(""))
  }

  /** The filter's condition: `term in v.get("version", "").lower()`. */
  predicate Matches(term: string, e: Entry) {
    Contains(SearchKey(e), term)
  }

  /** The term `search_versions` filters by: the entry's text, stripped and lower-cased. */
  function SearchTerm(raw: string): string {
    Lower(Strip(raw))
  }

  /** The list comprehension: the entries of `vs` that match `term`, in their order. */
  function Filter(term: string, vs: seq<Entry>): (r: seq<Entry>)
    ensures |r| <= |vs|
  {
    if vs == [] then []
    else
      var last := vs[|vs| - 1];
      Filter(term, vs[..|vs| - 1]) + (if Matches(term, last) then [last] else [])
  }

  /** The positions of `vs` whose entries match `term`, in increasing order. */
  ghost function MatchIndices(term: string, vs: seq<Entry>): seq<nat> {
    if vs == [] then []
    else
      var n := |vs| - 1;
      MatchIndices(term, vs[..n]) + (if Matches(term, vs[n]) then [n] else [])
  }

  /**
   * The list `search_versions` hands to `update_version_list`: the whole
   * catalogue for an empty term, otherwise the matching entries.
   */
  function SearchResults(raw: string, all: seq<Entry>): seq<Entry> {
    var term := SearchTerm(raw);
    if term == [] then all else Filter(term, all)
  }

  /** `ix` lists positions below `n` in strictly increasing order. */
  ghost predicate IncreasingBelow(ix: seq<nat>, n: nat) {
    && (forall k :: 0 <= k < |ix| ==> ix[k] < n)
    && (forall k, l :: 0 <= k < l < |ix| ==> ix[k] < ix[l])
  }

  lemma {:induction false} MatchIndicesIncreasing(term: string, vs: seq<Entry>)
    ensures IncreasingBelow(MatchIndices(term, vs), |vs|)
  {
    if vs != [] {
      var n := |vs| - 1;
      MatchIndicesIncreasing(term, vs[..n]);
      var ix0, ix := MatchIndices(term, vs[..n]), MatchIndices(term, vs);
      assert ix == ix0 + (if Matches(term, vs[n]) then [n] else []);
      assert IncreasingBelow(ix0, n);
    }
  }

  lemma {:induction false} MatchIndicesExact(term: string, vs: seq<Entry>)
    ensures forall j :: 0 <= j < |vs| ==> (Matches(term, vs[j]) <==> j in MatchIndices(term, vs))
  {
    if vs != [] {
      var n := |vs| - 1;
      var front := vs[..n];
      MatchIndicesExact(term, front);
      MatchIndicesIncreasing(term, front);
      var ix0, ix := MatchIndices(term, front), MatchIndices(term, vs);
      assert IncreasingBelow(ix0, n);
      forall j | 0 <= j < |vs| ensures Matches(term, vs[j]) <==> j in ix {
        if j < n {
          assert front[j] == vs[j];
          assert j in ix <==> j in ix0;
        }
      }
    }
  }

  lemma {:induction false} FilterAtMatchIndices(term: string, vs: seq<Entry>)
    ensures var r, ix := Filter(term, vs), MatchIndices(term, vs);
      |r| == |ix| && forall k :: 0 <= k < |ix| ==> ix[k] < |vs| && r[k] == vs[ix[k]]
  {
    if vs != [] {
      var n := |vs| - 1;
      var front := vs[..n];
      FilterAtMatchIndices(term, front);
      var r0, ix0 := Filter(term, front), MatchIndices(term, front);
      var r, ix := Filter(term, vs), MatchIndices(term, vs);
      forall k | 0 <= k < |ix| ensures ix[k] < |vs| && r[k] == vs[ix[k]] {
        if k < |ix0| {
          assert ix[k] == ix0[k] && r[k] == r0[k] && front[ix0[k]] == vs[ix0[k]];
        }
      }
    }
  }

  /**
   * Filter keeps exactly the matching positions, in order: the result is the
   * subsequence of `vs` at the strictly increasing positions MatchIndices, and
   * a position is among them exactly when its entry matches.
   */
  lemma FilterIsMatchingSubsequence(term: string, vs: seq<Entry>)
    ensures var r, ix := Filter(term, vs), MatchIndices(term, vs);
      && |r| == |ix|
      && (forall k :: 0 <= k < |ix| ==> ix[k] < |vs| && r[k] == vs[ix[k]])
      && IncreasingBelow(ix, |vs|)
      && (forall j :: 0 <= j < |vs| ==> (Matches(term, vs[j]) <==> j in ix))
  {
    FilterAtMatchIndices(term, vs);
    MatchIndicesIncreasing(term, vs);
    MatchIndicesExact(term, vs);
  }

  /**
   * What the search shows: everything for an empty term; otherwise every
   * shown entry is from the catalogue and matches, and every matching
   * catalogue entry is shown.
   */
  lemma SearchResultsSpec(raw: string, all: seq<Entry>)
    ensures SearchTerm(raw) == [] ==> SearchResults(raw, all) == all
    ensures SearchTerm(raw) != [] ==>
      && (forall e :: e in SearchResults(raw, all) ==> e in all && Matches(SearchTerm(raw), e))
      && (forall e :: e in all && Matches(SearchTerm(raw), e) ==> e in SearchResults(raw, all))
  {
    var term := SearchTerm(raw);
    if term != [] {
      var r, ix := Filter(term, all), MatchIndices(term, all);
      FilterIsMatchingSubsequence(term, all);
      forall e | e in r ensures e in all && Matches(term, e) {
        var k :| 0 <= k < |r| && r[k] == e;
        assert all[ix[k]] == e;
        assert ix[k] in ix;
      }
      forall e | e in all && Matches(term, e) ensures e in r {
        var j :| 0 <= j < |all| && all[j] == e;
        assert j in ix;
        var k :| 0 <= k < |ix| && ix[k] == j;
        assert r[k] == e;
      }
    }
  }

  /** Filtering a concatenation filters each part: the order of the catalogue is kept. */
  lemma {:induction false} FilterAppend(term: string, a: seq<Entry>, b: seq<Entry>)
    ensures Filter(term, a + b) == Filter(term, a) + Filter(term, b)
    decreases |b|
  {
    if b == [] {
      assert a + b == a;
    } else {
      var n := |b| - 1;
      assert (a + b)[..|a + b| - 1] == a + b[..n];
      assert (a + b)[|a + b| - 1] == b[n];
      FilterAppend(term, a, b[..n]);
    }
  }

  /** Filtering again by the same term changes nothing. */
  lemma {:induction false} FilterIdempotent(term: string, vs: seq<Entry>)
    ensures Filter(term, Filter(term, vs)) == Filter(term, vs)
  {
    if vs != [] {
      var n := |vs| - 1;
      var last := vs[n];
      var tail := if Matches(term, last) then [last] else [];
      FilterIdempotent(term, vs[..n]);
      FilterAppend(term, Filter(term, vs[..n]), tail);
    }
  }

  /** An entry without a "version" key is never shown for a non-empty search term. */
  lemma UnnamedNeverMatches(raw: string, all: seq<Entry>)
    requires SearchTerm(raw) != []
    ensures forall e :: e in SearchResults(raw, all) ==> e.version.Some?
  {
    SearchResultsSpec(raw, all);
    forall e | e in SearchResults(raw, all) ensures e.version.Some? {
      ContainsEmpty(SearchTerm(raw));
    }
  }

  /** The search is case-insensitive in the term: lower-casing what was typed changes nothing. */
  lemma SearchIgnoresCase(raw: string, all: seq<Entry>)
    ensures SearchResults(Lower(raw), all) == SearchResults(raw, all)
  {
    LowerStripCommute(raw);
    LowerIdempotent(Strip(raw));
  }

  /** Whitespace around the term changes nothing. */
  lemma SearchIgnoresSurroundingSpace(raw: string, all: seq<Entry>)
    ensures SearchResults(Strip(raw), all) == SearchResults(raw, all)
  {
    StripIdempotent(raw);
  }

  /** A row of the version list: its item id and the text shown in its "Version" column. */
  datatype Row = Row(iid: string, caption: string)

  /** The text a row shows: `v.get("version", "N/A")`. */
  function Label(e: Entry): string {
    e.version.GetOr("N/A")
  }

  /** The rows `update_version_list` inserts for `display`: row `i` has id `str(i)`. */
  function Rows(display: seq<Entry>): seq<Row> {
    seq(|display|, i requires 0 <= i < |display| => Row(Decimal(i), Label(display[i])))
  }

  /**
   * Ids and indices agree: `int` of row i's id is i, it shows entry i, and no
   * two rows share an id.
   */
  lemma RowIdsAreIndices(display: seq<Entry>)
    ensures |Rows(display)| == |display|
    ensures forall i :: 0 <= i < |display| ==>
      ParseDecimal(Rows(display)[i].iid) == Some(i) && Rows(display)[i].caption == Label(display[i])
    ensures forall i, j :: 0 <= i < j < |display| ==> Rows(display)[i].iid != Rows(display)[j].iid
  {
    forall i | 0 <= i < |display| ensures ParseDecimal(Rows(display)[i].iid) == Some(i) {
      DecimalRoundTrip(i);
    }
    forall i, j | 0 <= i < j < |display| ensures Rows(display)[i].iid != Rows(display)[j].iid {
      DecimalInjective(i, j);
    }
  }
}

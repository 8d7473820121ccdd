/** The history and favorites logs as values: the entry record, the guards of
    add_to_history and add_to_favorites, the truncation of load_data, deletion
    at a position, and how the history and favorites listboxes lay the entries
    out. */
module Logs {
  import opened Opt
  import Transforms

  /** One record of history.json or favorites.json. */
  datatype Entry = Entry(text: string, timestamp: string)

  // ---------------------------------------------------------------------------
  // add_to_history

  /** add_to_history records nothing for empty text or for a repeat of the
      newest entry. */
  predicate HistorySkips(h: seq<Entry>, text: string) {
    text == [] || (|h| > 0 && h[|h| - 1].text == text)
  }

  /** The history after add_to_history(text) at time now. */
  function HistoryAdd(h: seq<Entry>, text: string, now: string): (r: seq<Entry>)
    ensures |r| == if HistorySkips(h, text) then |h| else |h| + 1
    ensures r[..|h|] == h
    ensures |r| > |h| ==> r[|h|] == Entry(text, now)
  {
    if HistorySkips(h, text) then h else h + [Entry(text, now)]
  }

  /** Recording the same text twice in a row stores it once. */
  lemma HistoryAddRepeat(h: seq<Entry>, text: string, now1: string, now2: string)
    ensures HistoryAdd(HistoryAdd(h, text, now1), text, now2) == HistoryAdd(h, text, now1)
  {
  }

  /** With a different text recorded in between, the text is stored again. */
  lemma HistoryAddAfterOther(h: seq<Entry>, t: string, u: string, n1: string, n2: string, n3: string)
    requires t != [] && u != [] && t != u
    ensures HistoryAdd(HistoryAdd(HistoryAdd(h, t, n1), u, n2), t, n3)
         == HistoryAdd(h, t, n1) + [Entry(u, n2), Entry(t, n3)]
  {
    var h1 := HistoryAdd(h, t, n1);
    assert h1[|h1| - 1].text == t;
  }

  /** No entry is empty and no entry repeats the one before it. */
  ghost predicate HistoryWellFormed(h: seq<Entry>) {
    && (forall i :: 0 <= i < |h| ==> h[i].text != [])
    && (forall i :: 0 < i < |h| ==> h[i].text != h[i - 1].text)
  }

  /** add_to_history keeps a well-formed history well formed. */
  lemma HistoryAddWellFormed(h: seq<Entry>, text: string, now: string)
    requires HistoryWellFormed(h)
    ensures HistoryWellFormed(HistoryAdd(h, text, now))
  {
  }

  // ---------------------------------------------------------------------------
  // add_to_favorites

  /** Some favorite already has exactly this text. */
  predicate InFavorites(f: seq<Entry>, text: string) {
    exists i :: 0 <= i < |f| && f[i].text == text
  }

  /** The favorites after add_to_favorites(text) at time now: unchanged when
      the text is already there (also when it is empty), otherwise one entry
      more at the end. */
  function FavoritesAdd(f: seq<Entry>, text: string, now: string): (r: seq<Entry>)
    ensures |r| == if InFavorites(f, text) then |f| else |f| + 1
    ensures r[..|f|] == f
    ensures |r| > |f| ==> r[|f|] == Entry(text, now)
    ensures InFavorites(r, text)
  {
    if InFavorites(f, text) then f
    else
      assert (f + [Entry(text, now)])[|f|].text == text;
      f + [Entry(text, now)]
  }

  /** No two favorites have the same text. */
  ghost predicate DistinctTexts(f: seq<Entry>) {
    forall i, j :: 0 <= i < j < |f| ==> f[i].text != f[j].text
  }

  /** add_to_favorites keeps the favorite texts pairwise distinct. */
  lemma FavoritesAddDistinct(f: seq<Entry>, text: string, now: string)
    requires DistinctTexts(f)
    ensures DistinctTexts(FavoritesAdd(f, text, now))
  {
    var r := FavoritesAdd(f, text, now);
    if !InFavorites(f, text) {
      forall i, j | 0 <= i < j < |r| ensures r[i].text != r[j].text {
        if j == |f| {
          assert r[i] == f[i];
        }
      }
    }
  }

  /** Adding the same text twice stores one entry; the second add changes nothing. */
  lemma FavoritesAddRepeat(f: seq<Entry>, text: string, now1: string, now2: string)
    ensures FavoritesAdd(FavoritesAdd(f, text, now1), text, now2) == FavoritesAdd(f, text, now1)
  {
  }

  // ---------------------------------------------------------------------------
  // load_data

  /** load_data: a missing or unparsable file gives an empty list; otherwise,
      when max_items is given and non-zero and the list is longer, only the
      newest max_items entries are kept, in their original order. */
  function LoadData<T>(file: Option<seq<T>>, maxItems: Option<nat>): (r: seq<T>)
    ensures file.None? ==> r == []
    ensures file.Some? ==>
      && |r| == (if maxItems.Some? && maxItems.value > 0 && |file.value| > maxItems.value
                 then maxItems.value else |file.value|)
      && r == file.value[|file.value| - |r|..]
  {
    match file
    case None => []
    case Some(data) =>
      if maxItems.Some? && maxItems.value > 0 && |data| > maxItems.value
      then data[|data| - maxItems.value..]
      else data
  }

  /** Loading a history of 80 entries keeps the 50 newest. */
  lemma LoadDataEighty<T>(data: seq<T>)
    requires |data| == 80
    ensures LoadData(Some(data), Some(50)) == data[30..]
  {
  }

  /** After loading, the history holds at most max_items entries. */
  lemma LoadDataBound<T>(file: Option<seq<T>>, m: nat)
    requires m > 0
    ensures |LoadData(file, Some(m))| <= m
  {
  }

  // ---------------------------------------------------------------------------
  // del list[position]

  /** del s[i] for a position in range; any other position leaves s as it is. */
  function RemoveAt<T>(s: seq<T>, i: int): (r: seq<T>)
    ensures 0 <= i < |s| ==>
      && |r| == |s| - 1
      && (forall j :: 0 <= j < i ==> r[j] == s[j])
      && (forall j :: i <= j < |r| ==> r[j] == s[j + 1])
    ensures !(0 <= i < |s|) ==> r == s
  {
    if 0 <= i < |s| then s[..i] + s[i + 1..] else s
  }

  /** Deleting removes one occurrence of the element and nothing else. */
  lemma RemoveAtMultiset<T>(s: seq<T>, i: int)
    requires 0 <= i < |s|
    ensures multiset(RemoveAt(s, i)) + multiset{s[i]} == multiset(s)
  {
    assert s == s[..i] + [s[i]] + s[i + 1..];
  }

  /** Deleting keeps the favorite texts distinct. */
  lemma RemoveAtDistinct(f: seq<Entry>, i: int)
    requires DistinctTexts(f)
    ensures DistinctTexts(RemoveAt(f, i))
  {
    var r := RemoveAt(f, i);
    if 0 <= i < |f| {
      forall a, b | 0 <= a < b < |r| ensures r[a].text != r[b].text {
        var a' := if a < i then a else a + 1;
        var b' := if b < i then b else b + 1;
        assert r[a] == f[a'] && r[b] == f[b'];
      }
    }
  }

  /** Deleting can make two equal texts adjacent, so a history that came out
      of add_to_history alone may stop being well formed after a delete. */
  lemma RemoveAtBreaksWellFormed()
    ensures var h := [Entry("a", "1"), Entry("b", "2"), Entry("a", "3")];
      HistoryWellFormed(h) && !HistoryWellFormed(RemoveAt(h, 1))
  {
    var h := [Entry("a", "1"), Entry("b", "2"), Entry("a", "3")];
    assert RemoveAt(h, 1) == [Entry("a", "1"), Entry("a", "3")];
    assert RemoveAt(h, 1)[1].text == RemoveAt(h, 1)[0].text;
  }

  // ---------------------------------------------------------------------------
  // The listboxes

  /** A listbox row: "<timestamp>: <preview>". */
  function RowLabel(e: Entry): string {
    e.timestamp + ": " + Transforms.Preview(e.text)
  }

  /** The positions of the entries whose text passes the search, oldest first. */
  function ShownPositions(entries: seq<Entry>, shown: string -> bool): (ps: seq<nat>)
    ensures forall k :: 0 <= k < |ps| ==> ps[k] < |entries| && shown(entries[ps[k]].text)
    decreases |entries|
  {
    if entries == [] then []
    else
      var n := |entries| - 1;
      var earlier := ShownPositions(entries[..n], shown);
      assert forall k :: 0 <= k < |earlier| ==> entries[..n][earlier[k]] == entries[earlier[k]];
      earlier + (if shown(entries[n].text) then [n] else [])
  }

  /** The search lists its positions in increasing order, and it lists
      every entry that passes. */
  lemma {:induction false} ShownPositionsExact(entries: seq<Entry>, shown: string -> bool)
    ensures var ps := ShownPositions(entries, shown);
      && (forall k, l :: 0 <= k < l < |ps| ==> ps[k] < ps[l])
      && (forall p :: 0 <= p < |entries| && shown(entries[p].text) ==> p in ps)
    decreases |entries|
  {
    if entries != [] {
      var n := |entries| - 1;
      var earlier := ShownPositions(entries[..n], shown);
      ShownPositionsExact(entries[..n], shown);
      var ps := ShownPositions(entries, shown);
      assert ps == earlier + (if shown(entries[n].text) then [n] else []);
      forall p | 0 <= p < |entries| && shown(entries[p].text) ensures p in ps {
        if p < n {
          assert entries[..n][p] == entries[p];
        }
      }
    }
  }

  /** All positions, oldest first: what a search that matches everything shows. */
  function AllPositions(n: nat): (ps: seq<nat>)
    ensures |ps| == n && forall k :: 0 <= k < n ==> ps[k] == k
  {
    seq(n, k => k)
  }

  /** A search that every entry passes shows every entry. */
  lemma {:induction false} ShownPositionsAll(entries: seq<Entry>, shown: string -> bool)
    requires forall k :: 0 <= k < |entries| ==> shown(entries[k].text)
    ensures ShownPositions(entries, shown) == AllPositions(|entries|)
    decreases |entries|
  {
    if entries != [] {
      var n := |entries| - 1;
      assert forall k :: 0 <= k < n ==> entries[..n][k] == entries[k];
      ShownPositionsAll(entries[..n], shown);
      assert ShownPositions(entries, shown) == AllPositions(n) + [n];
      assert AllPositions(n) + [n] == AllPositions(n + 1);
    }
  }

  function Reverse<T>(s: seq<T>): (r: seq<T>)
    ensures |r| == |s| && forall k :: 0 <= k < |s| ==> r[k] == s[|s| - 1 - k]
  {
    seq(|s|, k requires 0 <= k < |s| => s[|s| - 1 - k])
  }

  /** populate_history shows the history newest first; populate_favorites
      shows the favorites in their stored order. */
  function HistoryView(h: seq<Entry>): seq<nat> {
    Reverse(AllPositions(|h|))
  }

  function FavoritesView(f: seq<Entry>): seq<nat> {
    AllPositions(|f|)
  }

  /** filter_history and filter_favorites show only the entries whose text
      passes the search (query in text.lower()), in the same order. */
  function FilteredHistoryView(h: seq<Entry>, shown: string -> bool): seq<nat> {
    Reverse(ShownPositions(h, shown))
  }

  function FilteredFavoritesView(f: seq<Entry>, shown: string -> bool): seq<nat> {
    ShownPositions(f, shown)
  }

  /** The labels of the rows of a view. */
  function Rows(entries: seq<Entry>, view: seq<nat>): (rows: seq<string>)
    requires forall k :: 0 <= k < |view| ==> view[k] < |entries|
    ensures |rows| == |view|
    ensures forall k :: 0 <= k < |view| ==> rows[k] == RowLabel(entries[view[k]])
  {
    seq(|view|, k requires 0 <= k < |view| => RowLabel(entries[view[k]]))
  }

  // ---------------------------------------------------------------------------
  // From a selected row to a position: as written and as intended

  /** As written in restore_from_history, add_to_favorites_from_history and
      delete_from_history: the selected row index is turned into the position
      len(history) - 1 - index, which is right only for the full newest-first
      listing. */
  function HistoryRowToPosition(n: nat, index: nat): int {
    n - 1 - index
  }

  /** For the full listing, len - 1 - index is in range exactly for the rows
      there are, and it names the entry the row shows. */
  lemma HistoryRowToPositionFull(h: seq<Entry>, index: nat)
    ensures 0 <= HistoryRowToPosition(|h|, index) < |h| <==> index < |HistoryView(h)|
    ensures index < |HistoryView(h)| ==> HistoryView(h)[index] == HistoryRowToPosition(|h|, index)
  {
  }

  /** The history as delete_from_history leaves it, as written. */
  function HistoryDeleteAsWritten(h: seq<Entry>, index: nat): (r: seq<Entry>)
    ensures index < |h| ==> r == h[..|h| - 1 - index] + h[|h| - index..]
    ensures index >= |h| ==> r == h
  {
    RemoveAt(h, HistoryRowToPosition(|h|, index))
  }

  /** The search positions of a two-entry list for a search that shows only
      one of the two texts. */
  lemma ShownPositionsOfTwo(e0: Entry, e1: Entry, shown: string -> bool)
    ensures shown(e0.text) && !shown(e1.text) ==> ShownPositions([e0, e1], shown) == [0]
    ensures !shown(e0.text) && shown(e1.text) ==> ShownPositions([e0, e1], shown) == [1]
  {
    var es := [e0, e1];
    assert es[..1] == [e0];
    assert es[..1][..0] == [];
    assert ShownPositions([], shown) == [];
    var first := ShownPositions([e0], shown);
    assert first == if shown(e0.text) then [0] else [];
    assert ShownPositions(es, shown) == first + (if shown(e1.text) then [1] else []);
  }

  /** After a search, the row the user picks is not the entry that is deleted:
      with the history ["x", "y"] and a search that shows only "x", the one
      visible row (index 0) is turned into position 1 and "y" is removed. */
  lemma FilteredHistoryDeletesOtherEntry(shown: string -> bool)
    requires shown("x") && !shown("y")
    ensures var h := [Entry("x", "t1"), Entry("y", "t2")];
      var view := FilteredHistoryView(h, shown);
      && view == [0]
      && Rows(h, view) == [RowLabel(Entry("x", "t1"))]
      && HistoryDeleteAsWritten(h, 0) == [Entry("x", "t1")]
  {
    var h := [Entry("x", "t1"), Entry("y", "t2")];
    ShownPositionsOfTwo(h[0], h[1], shown);
    assert h[..1] == [Entry("x", "t1")];
  }

  /** As written in copy_from_favorites and delete_from_favorites: the row
      index is used as the position directly. */
  function FavoritesDeleteAsWritten(f: seq<Entry>, index: nat): seq<Entry> {
    RemoveAt(f, index)
  }

  /** After a search in the favorites, the first visible row deletes the first
      stored favorite, which may be hidden. */
  lemma FilteredFavoritesDeletesOtherEntry(shown: string -> bool)
    requires !shown("x") && shown("y")
    ensures var f := [Entry("x", "t1"), Entry("y", "t2")];
      var view := FilteredFavoritesView(f, shown);
      && view == [1]
      && Rows(f, view) == [RowLabel(Entry("y", "t2"))]
      && FavoritesDeleteAsWritten(f, 0) == [Entry("y", "t2")]
  {
    var f := [Entry("x", "t1"), Entry("y", "t2")];
    ShownPositionsOfTwo(f[0], f[1], shown);
  }

  /** As intended: the position of the entry the selected row shows, looked up
      in the rows the listbox was last filled with; no position for a row that
      is not there. */
  function SelectedPosition(view: seq<nat>, index: nat): (p: Option<nat>)
    ensures index < |view| ==> p == Some(view[index])
    ensures index >= |view| ==> p == None
  {
    if index < |view| then Some(view[index]) else None
  }

  /** The intended lookup picks the entry the row displays, whichever view the
      listbox shows. */
  lemma SelectedPositionShowsRow(entries: seq<Entry>, view: seq<nat>, index: nat)
    requires forall k :: 0 <= k < |view| ==> view[k] < |entries|
    requires index < |view|
    ensures SelectedPosition(view, index).Some?
    ensures var p := SelectedPosition(view, index).value;
      p < |entries| && Rows(entries, view)[index] == RowLabel(entries[p])
  {
  }

  /** On a full history listing, the intended lookup is exactly the source's
      len - 1 - index, with the same range check. */
  lemma SelectedPositionFullHistory(h: seq<Entry>, index: nat)
    ensures SelectedPosition(HistoryView(h), index) ==
      if 0 <= HistoryRowToPosition(|h|, index) < |h|
      then Some(HistoryRowToPosition(|h|, index) as nat) else None
  {
  }

  /** On a full favorites listing, it is exactly the source's direct index. */
  lemma SelectedPositionFullFavorites(f: seq<Entry>, index: nat)
    ensures SelectedPosition(FavoritesView(f), index) ==
      if index < |f| then Some(index) else None
  {
  }

  /** After a history search, the intended lookup picks an entry that passes
      the search. */
  lemma SelectedPositionFiltered(h: seq<Entry>, shown: string -> bool, index: nat)
    requires index < |FilteredHistoryView(h, shown)|
    ensures var p := SelectedPosition(FilteredHistoryView(h, shown), index);
      p.Some? && p.value < |h| && shown(h[p.value].text)
  {
  }
}

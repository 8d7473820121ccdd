/** The editor window's state and the operations of TextEditorApp that change
    it: the text area, the history and favorites logs with their listboxes,
    the last-recorded-text guard, and the hotkey table. Each transform reads
    the stripped text, computes the new text with the functions of Transforms,
    Layout and Emoji, and stores it through set_text. */
module Editor {
  import opened Opt
  import opened Strings
  import opened Logs
  import Transforms
  import Layout
  import Emoji
  import Hotkeys
  import Stats

  /** The number of history entries load_data keeps at start-up. */
  const HistoryLimit: nat := 50

  /** The position a listbox selection stands for, if any row is selected. */
  function Pick(view: seq<nat>, selection: Option<nat>): (p: Option<nat>)
    ensures selection.Some? && selection.value < |view| ==> p == Some(view[selection.value])
    ensures selection.None? || selection.value >= |view| ==> p == None
  {
    if selection.Some? then SelectedPosition(view, selection.value) else None
  }

  class TextEditor {
    /** The contents of the text area. */
    var content: string
    var history: seq<Entry>
    var favorites: seq<Entry>
    /** The text on_text_modified and on_focus_out recorded last. */
    var lastHistoryText: string
    var hotkeys: map<string, string>
    /** The history positions the history listbox shows, row by row. */
    var historyView: seq<nat>
    /** The favorites positions the favorites listbox shows, row by row. */
    var favoritesView: seq<nat>
    /** Whether the history tab is the selected notebook tab. */
    var onHistoryTab: bool

    /** Every listbox row shows an entry that exists. */
    ghost predicate Valid()
      reads this
    {
      && (forall k :: 0 <= k < |historyView| ==> historyView[k] < |history|)
      && (forall k :: 0 <= k < |favoritesView| ==> favoritesView[k] < |favorites|)
    }

    /** No two favorites have the same text. */
    ghost predicate FavoritesDistinct()
      reads this
    {
      DistinctTexts(favorites)
    }

    /** __init__: the logs are loaded (the history cut to its newest 50
        entries), the hotkeys loaded or defaulted, and both listboxes filled. */
    constructor (historyFile: Option<seq<Entry>>, favoritesFile: Option<seq<Entry>>,
                 hotkeysFile: Option<map<string, string>>)
      ensures Valid()
      ensures content == [] && lastHistoryText == [] && !onHistoryTab
      ensures history == LoadData(historyFile, Some(HistoryLimit))
      ensures favorites == LoadData(favoritesFile, None)
      ensures hotkeys == Hotkeys.LoadHotkeys(hotkeysFile)
      ensures historyView == HistoryView(history) && favoritesView == FavoritesView(favorites)
    {
      content := [];
      history := LoadData(historyFile, Some(HistoryLimit));
      favorites := LoadData(favoritesFile, None);
      lastHistoryText := [];
      hotkeys := Hotkeys.LoadHotkeys(hotkeysFile);
      onHistoryTab := false;
      historyView := HistoryView(LoadData(historyFile, Some(HistoryLimit)));
      favoritesView := FavoritesView(LoadData(favoritesFile, None));
    }

    /** get_text: the text area's contents without surrounding whitespace. */
    function GetText(): (t: string)
      reads this
      ensures |t| <= |content| && (t == [] || (!IsSpace(t[0]) && !IsSpace(t[|t| - 1])))
    {
      Strip(content)
    }

    /** Selecting a notebook tab refreshes neither listbox. */
    method SelectTab(historyTab: bool)
      modifies this
      ensures onHistoryTab == historyTab
      ensures content == old(content) && history == old(history)
      ensures favorites == old(favorites) && lastHistoryText == old(lastHistoryText)
      ensures hotkeys == old(hotkeys)
      ensures historyView == old(historyView) && favoritesView == old(favoritesView)
    {
      onHistoryTab := historyTab;
    }

    // -------------------------------------------------------------------------
    // The listboxes

    /** populate_history: all entries, newest first. */
    method PopulateHistory()
      requires Valid()
      modifies this
      ensures Valid()
      ensures historyView == HistoryView(history)
      ensures content == old(content) && history == old(history) && favorites == old(favorites)
      ensures lastHistoryText == old(lastHistoryText) && hotkeys == old(hotkeys)
      ensures favoritesView == old(favoritesView) && onHistoryTab == old(onHistoryTab)
    {
      historyView := HistoryView(history);
    }

    /** populate_favorites: all favorites in stored order. */
    method PopulateFavorites()
      requires Valid()
      modifies this
      ensures Valid()
      ensures favoritesView == FavoritesView(favorites)
      ensures content == old(content) && history == old(history) && favorites == old(favorites)
      ensures lastHistoryText == old(lastHistoryText) && hotkeys == old(hotkeys)
      ensures historyView == old(historyView) && onHistoryTab == old(onHistoryTab)
    {
      favoritesView := FavoritesView(favorites);
    }

    /** filter_history: the entries whose text passes the search, newest first.
        shown stands for `query in text.lower()`. */
    method FilterHistory(shown: string -> bool)
      requires Valid()
      modifies this
      ensures Valid()
      ensures historyView == FilteredHistoryView(history, shown)
      ensures content == old(content) && history == old(history) && favorites == old(favorites)
      ensures lastHistoryText == old(lastHistoryText) && hotkeys == old(hotkeys)
      ensures favoritesView == old(favoritesView) && onHistoryTab == old(onHistoryTab)
    {
      historyView := FilteredHistoryView(history, shown);
    }

    /** filter_favorites: the favorites whose text passes the search. */
    method FilterFavorites(shown: string -> bool)
      requires Valid()
      modifies this
      ensures Valid()
      ensures favoritesView == FilteredFavoritesView(favorites, shown)
      ensures content == old(content) && history == old(history) && favorites == old(favorites)
      ensures lastHistoryText == old(lastHistoryText) && hotkeys == old(hotkeys)
      ensures historyView == old(historyView) && onHistoryTab == old(onHistoryTab)
    {
      favoritesView := FilteredFavoritesView(favorites, shown);
    }

    // -------------------------------------------------------------------------
    // Recording history

    /** add_to_history: appends the text unless it is empty or repeats the
        newest entry, and refills the history listbox when its tab is shown. */
    method AddToHistory(text: string, now: string)
      requires Valid()
      modifies this
      ensures Valid()
      ensures history == HistoryAdd(old(history), text, now)
      ensures historyView ==
        if !HistorySkips(old(history), text) && onHistoryTab then HistoryView(history)
        else old(historyView)
      ensures content == old(content) && favorites == old(favorites)
      ensures lastHistoryText == old(lastHistoryText) && hotkeys == old(hotkeys)
      ensures favoritesView == old(favoritesView) && onHistoryTab == old(onHistoryTab)
    {
      if text == [] || (|history| > 0 && history[|history| - 1].text == text) {
        return;
      }
      history := history + [Entry(text, now)];
      if onHistoryTab {
        historyView := HistoryView(history);
      }
    }

    /** set_text: replaces the text area's contents and records the new text. */
    method SetText(text: string, now: string)
      requires Valid()
      modifies this
      ensures Valid()
      ensures content == text
      ensures history == HistoryAdd(old(history), text, now)
      ensures historyView ==
        if !HistorySkips(old(history), text) && onHistoryTab then HistoryView(history)
        else old(historyView)
      ensures favorites == old(favorites)
      ensures lastHistoryText == old(lastHistoryText) && hotkeys == old(hotkeys)
      ensures favoritesView == old(favoritesView) && onHistoryTab == old(onHistoryTab)
    {
      content := text;
      AddToHistory(text, now);
    }

    /** on_focus_out: records the stripped text when it differs from the text
        recorded last. */
    method OnFocusOut(now: string)
      requires Valid()
      modifies this
      ensures Valid()
      ensures lastHistoryText == Strip(old(content))
      ensures history ==
        if Strip(old(content)) != old(lastHistoryText)
        then HistoryAdd(old(history), Strip(old(content)), now) else old(history)
      ensures historyView ==
        if Strip(old(content)) != old(lastHistoryText) && !HistorySkips(old(history), Strip(old(content)))
           && onHistoryTab
        then HistoryView(history) else old(historyView)
      ensures content == old(content) && favorites == old(favorites) && hotkeys == old(hotkeys)
      ensures favoritesView == old(favoritesView) && onHistoryTab == old(onHistoryTab)
    {
      var current := GetText();
      if current != lastHistoryText {
        AddToHistory(current, now);
        lastHistoryText := current;
      }
    }

    /** on_text_modified: the same guard, applied only when the text area
        reports a modification. */
    method OnTextModified(modified: bool, now: string)
      requires Valid()
      modifies this
      ensures Valid()
      ensures lastHistoryText == if modified then Strip(old(content)) else old(lastHistoryText)
      ensures history ==
        if modified && Strip(old(content)) != old(lastHistoryText)
        then HistoryAdd(old(history), Strip(old(content)), now) else old(history)
      ensures historyView ==
        if modified && Strip(old(content)) != old(lastHistoryText)
           && !HistorySkips(old(history), Strip(old(content))) && onHistoryTab
        then HistoryView(history) else old(historyView)
      ensures content == old(content) && favorites == old(favorites) && hotkeys == old(hotkeys)
      ensures favoritesView == old(favoritesView) && onHistoryTab == old(onHistoryTab)
    {
      if modified {
        OnFocusOut(now);
      }
    }

    // -------------------------------------------------------------------------
    // Favorites

    /** add_to_favorites: appends the text unless some favorite already has
        it; on an append the favorites listbox is refilled. Returns whether it
        appended. */
    method AddToFavorites(text: string, now: string) returns (added: bool)
      requires Valid()
      modifies this
      ensures Valid()
      ensures added <==> !InFavorites(old(favorites), text)
      ensures favorites == FavoritesAdd(old(favorites), text, now)
      ensures favoritesView == if added then FavoritesView(favorites) else old(favoritesView)
      ensures old(FavoritesDistinct()) ==> FavoritesDistinct()
      ensures content == old(content) && history == old(history)
      ensures lastHistoryText == old(lastHistoryText) && hotkeys == old(hotkeys)
      ensures historyView == old(historyView) && onHistoryTab == old(onHistoryTab)
    {
      if FavoritesDistinct() {
        FavoritesAddDistinct(favorites, text, now);
      }
      for i := 0 to |favorites|
        invariant forall j :: 0 <= j < i ==> favorites[j].text != text
      {
        if favorites[i].text == text {
          added := false;
          return;
        }
      }
      favorites := favorites + [Entry(text, now)];
      favoritesView := FavoritesView(favorites);
      added := true;
    }

    // -------------------------------------------------------------------------
    // Acting on a selected row. The row is looked up in the rows the listbox
    // shows; the source's own arithmetic is Logs.HistoryRowToPosition and the
    // direct favorites index, which agree with this lookup only on a full,
    // freshly filled listbox.

    /** restore_from_history: puts the selected entry's text back into the
        text area. */
    method RestoreFromHistory(selection: Option<nat>, now: string)
      requires Valid()
      modifies this
      ensures Valid()
      ensures match Pick(old(historyView), selection)
        case Some(p) =>
          && content == old(history)[p].text
          && history == HistoryAdd(old(history), old(history)[p].text, now)
          && historyView ==
               if !HistorySkips(old(history), old(history)[p].text) && onHistoryTab
               then HistoryView(history) else old(historyView)
        case None => content == old(content) && history == old(history) && historyView == old(historyView)
      ensures favorites == old(favorites)
      ensures lastHistoryText == old(lastHistoryText) && hotkeys == old(hotkeys)
      ensures favoritesView == old(favoritesView) && onHistoryTab == old(onHistoryTab)
    {
      var position := Pick(historyView, selection);
      if position.Some? {
        SetText(history[position.value].text, now);
      }
    }

    /** add_to_favorites_from_history. */
    method AddToFavoritesFromHistory(selection: Option<nat>, now: string)
      requires Valid()
      modifies this
      ensures Valid()
      ensures match Pick(old(historyView), selection)
        case Some(p) =>
          && favorites == FavoritesAdd(old(favorites), old(history)[p].text, now)
          && favoritesView ==
               if !InFavorites(old(favorites), old(history)[p].text) then FavoritesView(favorites)
               else old(favoritesView)
        case None => favorites == old(favorites) && favoritesView == old(favoritesView)
      ensures old(FavoritesDistinct()) ==> FavoritesDistinct()
      ensures content == old(content) && history == old(history)
      ensures lastHistoryText == old(lastHistoryText) && hotkeys == old(hotkeys)
      ensures historyView == old(historyView) && onHistoryTab == old(onHistoryTab)
    {
      var position := Pick(historyView, selection);
      if position.Some? {
        var _ := AddToFavorites(history[position.value].text, now);
      }
    }

    /** delete_from_history: removes the selected entry and refills the
        history listbox. */
    method DeleteFromHistory(selection: Option<nat>)
      requires Valid()
      modifies this
      ensures Valid()
      ensures match Pick(old(historyView), selection)
        case Some(p) => history == RemoveAt(old(history), p) && historyView == HistoryView(history)
        case None => history == old(history) && historyView == old(historyView)
      ensures content == old(content) && favorites == old(favorites)
      ensures lastHistoryText == old(lastHistoryText) && hotkeys == old(hotkeys)
      ensures favoritesView == old(favoritesView) && onHistoryTab == old(onHistoryTab)
    {
      var position := Pick(historyView, selection);
      if position.Some? {
        history := RemoveAt(history, position.value);
        historyView := HistoryView(history);
      }
    }

    /** copy_from_favorites: the selected favorite's text, which the source
        puts on the clipboard. */
    method CopyFromFavorites(selection: Option<nat>) returns (copied: Option<string>)
      requires Valid()
      ensures match Pick(favoritesView, selection)
        case Some(p) => copied == Some(favorites[p].text)
        case None => copied == None
    {
      copied := None;
      var position := Pick(favoritesView, selection);
      if position.Some? {
        copied := Some(favorites[position.value].text);
      }
    }

    /** delete_from_favorites: removes the selected favorite and refills the
        favorites listbox. */
    method DeleteFromFavorites(selection: Option<nat>)
      requires Valid()
      modifies this
      ensures Valid()
      ensures match Pick(old(favoritesView), selection)
        case Some(p) => favorites == RemoveAt(old(favorites), p) && favoritesView == FavoritesView(favorites)
        case None => favorites == old(favorites) && favoritesView == old(favoritesView)
      ensures old(FavoritesDistinct()) ==> FavoritesDistinct()
      ensures content == old(content) && history == old(history)
      ensures lastHistoryText == old(lastHistoryText) && hotkeys == old(hotkeys)
      ensures historyView == old(historyView) && onHistoryTab == old(onHistoryTab)
    {
      var position := Pick(favoritesView, selection);
      if position.Some? {
        if FavoritesDistinct() {
          RemoveAtDistinct(favorites, position.value);
        }
        favorites := RemoveAt(favorites, position.value);
        favoritesView := FavoritesView(favorites);
      }
    }

    // -------------------------------------------------------------------------
    // Transforms of the text. Each stores its result with set_text.

    /** delete_words: nothing happens when the dialog is cancelled or left
        empty. */
    method DeleteWords(dialog: Option<string>, now: string)
      requires Valid()
      modifies this
      ensures Valid()
      ensures dialog.None? || dialog.value == [] ==>
        content == old(content) && history == old(history) && historyView == old(historyView)
      ensures dialog.Some? && dialog.value != [] ==>
        var r := Transforms.RemoveWords(Strip(old(content)), Transforms.CleanedWords(Split(dialog.value, ',')));
        && content == r && history == HistoryAdd(old(history), r, now)
        && historyView == if !HistorySkips(old(history), r) && onHistoryTab then HistoryView(history)
                          else old(historyView)
      ensures favorites == old(favorites)
      ensures lastHistoryText == old(lastHistoryText) && hotkeys == old(hotkeys)
      ensures favoritesView == old(favoritesView) && onHistoryTab == old(onHistoryTab)
    {
      if dialog.None? || dialog.value == [] {
        return;
      }
      var text := Transforms.DeleteWords(GetText(), dialog.value);
      SetText(text, now);
    }

    /** delete_letters and delete_digits: every character typed in the
        dialog is removed; nothing happens when it is cancelled or empty. */
    method DeleteCharacters(dialog: Option<string>, now: string)
      requires Valid()
      modifies this
      ensures Valid()
      ensures dialog.None? || dialog.value == [] ==>
        content == old(content) && history == old(history) && historyView == old(historyView)
      ensures dialog.Some? && dialog.value != [] ==>
        var r := DropChars(Strip(old(content)), dialog.value);
        && content == r && history == HistoryAdd(old(history), r, now)
        && historyView == if !HistorySkips(old(history), r) && onHistoryTab then HistoryView(history)
                          else old(historyView)
      ensures favorites == old(favorites)
      ensures lastHistoryText == old(lastHistoryText) && hotkeys == old(hotkeys)
      ensures favoritesView == old(favoritesView) && onHistoryTab == old(onHistoryTab)
    {
      if dialog.None? || dialog.value == [] {
        return;
      }
      var text := Transforms.DeleteChars(GetText(), dialog.value);
      SetText(text, now);
    }

    /** remove_all_digits (with isDigit) and remove_all_letters (with isAlpha). */
    method RemoveAllOf(isClass: char -> bool, now: string)
      requires Valid()
      modifies this
      ensures Valid()
      ensures content == RemoveWhere(Strip(old(content)), isClass)
      ensures history == HistoryAdd(old(history), content, now)
      ensures historyView ==
        if !HistorySkips(old(history), content) && onHistoryTab then HistoryView(history)
        else old(historyView)
      ensures favorites == old(favorites)
      ensures lastHistoryText == old(lastHistoryText) && hotkeys == old(hotkeys)
      ensures favoritesView == old(favoritesView) && onHistoryTab == old(onHistoryTab)
    {
      SetText(RemoveWhere(GetText(), isClass), now);
    }

    /** change_layout. */
    method ChangeLayout(now: string)
      requires Valid()
      modifies this
      ensures Valid()
      ensures content == Layout.Swap(Strip(old(content)))
      ensures history == HistoryAdd(old(history), content, now)
      ensures historyView ==
        if !HistorySkips(old(history), content) && onHistoryTab then HistoryView(history)
        else old(historyView)
      ensures favorites == old(favorites)
      ensures lastHistoryText == old(lastHistoryText) && hotkeys == old(hotkeys)
      ensures favoritesView == old(favoritesView) && onHistoryTab == old(onHistoryTab)
    {
      var converted := Layout.ChangeLayout(GetText());
      SetText(converted, now);
    }

    /** remove_emojis. */
    method RemoveEmojis(now: string)
      requires Valid()
      modifies this
      ensures Valid()
      ensures content == Emoji.RemoveEmojis(Strip(old(content)))
      ensures history == HistoryAdd(old(history), content, now)
      ensures historyView ==
        if !HistorySkips(old(history), content) && onHistoryTab then HistoryView(history)
        else old(historyView)
      ensures favorites == old(favorites)
      ensures lastHistoryText == old(lastHistoryText) && hotkeys == old(hotkeys)
      ensures favoritesView == old(favoritesView) && onHistoryTab == old(onHistoryTab)
    {
      SetText(Emoji.RemoveEmojis(GetText()), now);
    }

    /** show_stats: the counts of the stripped text. */
    method ShowStats(isDigit: char -> bool, isAlpha: char -> bool) returns (stats: Stats.TextStats)
      ensures stats == Stats.ShowStats(Strip(content), isDigit, isAlpha)
      ensures stats.chars == |Strip(content)|
    {
      stats := Stats.ShowStats(GetText(), isDigit, isAlpha);
    }

    // -------------------------------------------------------------------------
    // Settings

    /** save_settings: rebuilds the hotkey map from the form and stores it
        when it is not empty. Returns whether it stored it. */
    method SaveSettings(rows: seq<Hotkeys.SettingsRow>) returns (saved: bool)
      modifies this
      ensures saved <==> Hotkeys.BuildHotkeys(rows) != map[]
      ensures hotkeys == Hotkeys.SavedHotkeys(old(hotkeys), rows)
      ensures content == old(content) && history == old(history) && favorites == old(favorites)
      ensures lastHistoryText == old(lastHistoryText) && onHistoryTab == old(onHistoryTab)
      ensures historyView == old(historyView) && favoritesView == old(favoritesView)
    {
      var newHotkeys := Hotkeys.CollectHotkeys(rows);
      saved := newHotkeys != map[];
      if saved {
        hotkeys := newHotkeys;
      }
    }
  }

  /** Without any search, the history listing goes stale: add_to_history
      refills it only while the history tab is shown. Starting from the
      history [a], recording b on the editor tab and then switching to the
      history tab leaves one row, which shows a. Deleting that row deletes a
      with the lookup of the row; the source's len - 1 - index is 1 and would
      delete b. */
  method StaleListingDeletes() returns (shownRow: string, left: seq<Entry>, asWritten: seq<Entry>)
    ensures shownRow == RowLabel(Entry("a", "t1"))
    ensures left == [Entry("b", "t2")]
    ensures asWritten == [Entry("a", "t1")]
  {
    var a := Entry("a", "t1");
    var e := new TextEditor(Some([a]), None, None);
    assert e.history == [a];
    e.AddToHistory("b", "t2");
    assert e.history == [a, Entry("b", "t2")];
    e.SelectTab(true);
    assert e.historyView == [0];
    shownRow := Rows(e.history, e.historyView)[0];
    asWritten := HistoryDeleteAsWritten(e.history, 0);
    e.DeleteFromHistory(Some(0));
    left := e.history;
  }
}

# Advanced Text Editor: a verified model of its text logic

`app.py` is a Tkinter desktop text utility. You type or paste text into a text
area and apply transforms to it: swap the keyboard layout, delete words,
letters or digits, strip emoji, and show statistics. The editor keeps a
history log and a favorites log of texts, each shown in a listbox. It also
has a small calculator window and a hotkey settings form. This project models
the logic beneath the widgets in Dafny and proves what that logic guarantees.

The modules follow the program's structure:

| module | file | what it models |
|---|---|---|
| `Opt` | option.dfy | `Option`: a missing file, a cancelled dialog, an empty selection |
| `Strings` | strings.dfy | the Python string operations the transforms use: `str.isspace`, `strip`, `split(sep)`, `count`, `replace(w, "")`, join comprehensions |
| `Layout` | layout.dfy | `init_layout_dicts` and `change_layout` |
| `Transforms` | transforms.dfy | `is_math_expression`, `delete_words` / `delete_letters` / `delete_digits`, `remove_all_digits` / `remove_all_letters`, the listbox preview |
| `Stats` | stats.dfy | the counts of `show_stats` |
| `Logs` | logs.dfy | history and favorites as values: `add_to_history`, `add_to_favorites`, `load_data`, `del`, the listbox layouts and the mapping from a selected row to a log position |
| `Hotkeys` | hotkeys.dfy | `load_hotkeys` and the map `save_settings` rebuilds |
| `Calculator` | calculator.dfy | `calc_button_click` on the calculator's input line |
| `Emoji` | emoji.dfy | `remove_emojis` |
| `Editor` | editor.dfy | class `TextEditor`: the editor's mutable state and every operation that changes it |

Each transform in `Editor.TextEditor` reads the stripped text (`get_text`).
It then computes the new text with the functions of the other modules and
stores it through `SetText`. `SetText` records the new text in the history,
as `set_text` does. State the source updates in place is kept in fields of
`TextEditor` or `Calculator.CalculatorWindow`. The loops of the source
(`change_layout`, `delete_words`, `delete_letters`/`delete_digits`,
`save_settings`, `add_to_favorites`) are `method`s with loop invariants. Each
is proved equal to a specification function, and the properties are proved
about that function.

Things the environment supplies are parameters:
- the clock (`now`, the string `get_current_time` would return);
- the parsed contents of the JSON files (`Option`; `None` means missing or unparsable);
- the answer of a `simpledialog.askstring` (`Option`; `None` means cancelled);
- the listbox selection (`Option<nat>`);
- the search filter (a predicate `shown` standing for `query in text.lower()`);
- Python's `str.isdigit` and `str.isalpha` (character predicates);
- the outcome of evaluating a calculator expression.

The comment above the smiley list in `remove_emojis` (app.py:1624) says it
removes the classic text smileys, and the list itself (app.py:1625-1627)
names `:)`, `;)` and the like. The code as written still leaves `:)` in
place, and its character class also removes ordinary CJK text. The model
states both facts about the code as written, then uses the corrected smiley
list (see the first finding).

## Model

| member | source | states |
|---|---|---|
| Strings.IsSpace | app.py:931 | Python's `str.isspace`: the ASCII controls TAB to CR and FS to US, space, NEL, no-break space and the Unicode space separators; `Strings.Strip`, `Stats.WordCountZero` are stated over it |
| Strings.Strip | app.py:929-931 | the stripped text is no longer than the text, and is empty or starts and ends with a non-whitespace character |
| Strings.StripSlice | app.py:929-931 | the stripped text is a contiguous slice of the text with only whitespace before and after it |
| Strings.StripTrims | app.py:929-931 | strip is rstrip after lstrip |
| Strings.TrimStart | app.py:929-931 | lstrip gives a suffix of the text that is empty or starts with a non-whitespace character |
| Strings.TrimStartDropsSpace | app.py:929-931 | what lstrip drops is all whitespace |
| Strings.TrimEnd | app.py:929-931 | rstrip gives a prefix of the text that is empty or ends with a non-whitespace character |
| Strings.TrimEndDropsSpace | app.py:929-931 | what rstrip drops is all whitespace |
| Strings.TrimStartNoop | app.py:929-931 | lstrip leaves a text that starts with non-whitespace unchanged |
| Strings.TrimEndNoop | app.py:929-931 | rstrip leaves a text that ends with non-whitespace unchanged |
| Strings.StripIdempotent | app.py:1121 | stripping a stripped key field changes nothing |
| Strings.StripAllSpace | app.py:1121-1122 | a field of whitespace only strips to the empty string, so it is skipped |
| Strings.RemoveWhere | app.py:1000 | the join comprehension keeps exactly the characters the filter does not reject, with their multiplicities, and never lengthens the text |
| Strings.RemoveWhereNone | app.py:1000 | a filter that rejects no character of the text returns the text |
| Strings.RemoveWhereTwice | app.py:1000 | filtering by p and then by q is filtering by "p or q" |
| Strings.RemoveWhereIdempotent | app.py:1007 | every filter is idempotent |
| Strings.CountWhere | app.py:1566-1567 | `sum(p(c) for c in text)` is at most the length |
| Strings.RemoveWhereLength | app.py:1563 | removing a class shortens the text by the number of its characters |
| Strings.CountWhereOne | app.py:1563 | counting the characters equal to c is `text.count(c)` |
| Strings.DropChars | app.py:979-981 | no dropped character remains; every other character keeps its multiplicity |
| Strings.DropCharsTwice | app.py:980-981 | dropping the characters of a and then of b is dropping those of a + b |
| Strings.RemoveAll | app.py:969 | `replace(w, "")` never lengthens the text |
| Strings.RemoveAllAbsent | app.py:969 | replacing a word that does not occur leaves the text unchanged |
| Strings.RemoveAllChar | app.py:981 | replacing a one-character string deletes exactly that character |
| Strings.RemoveAllCanLeaveWord | app.py:969 | `"aabb".replace("ab", "")` is `"ab"`, which still contains the word |
| Strings.Split | app.py:966 | `split(',')` gives at least one piece, none holds the separator, and joining them gives the text back |
| Strings.SplitPieces | app.py:1565 | there is one more piece than there are separators |
| Strings.SplitJoin | app.py:966 | splitting a join of separator-free pieces gives the pieces back |
| Layout.IndexOf | app.py:1031-1032 | the returned position holds the character and no earlier one does |
| Layout.EnDistinct | app.py:1025-1031 | the Latin key side `en_lower + en_upper` has no repeated character |
| Layout.RuDistinct | app.py:1026-1032 | the Cyrillic key side `ru_lower + ru_upper` has no repeated character |
| Layout.LatinCyrillicApart | app.py:1025-1028 | no Latin key is a Cyrillic key |
| Layout.TablesAreBijection | app.py:1025-1032 | both sides have 64 entries, neither repeats a character, and the two are disjoint |
| Layout.SwapChar | app.py:1038-1045 | en_to_ru is tried first, then ru_to_en, otherwise the character is kept; related to the tables by `Layout.SwapCharInvolution` and `Layout.SwapMapsTables` |
| Layout.Swap | app.py:1037-1045 | the converted text has the same length and each character is swapped by the dictionary lookups |
| Layout.ChangeLayout | app.py:1034-1045 | the loop's result equals `Swap` of the text |
| Layout.SwapCharInvolution | app.py:1038-1045 | swapping a character twice gives it back |
| Layout.SwapInvolution | app.py:1034-1045 | the layout swap preserves length and is an involution on every text |
| Layout.SwapKeepsUnmapped | app.py:1043-1044 | a character in neither table passes through unchanged |
| Layout.SwapMapsTables | app.py:1031-1032 | Latin keys become Cyrillic keys and Cyrillic keys become Latin keys |
| Transforms.IsMathExpression | app.py:286-297 | true exactly when some character is an operator and every character is a space or allowed |
| Transforms.MathCharsOfClean | app.py:289-296 | the two checks on the space-free text are the same checks on the text itself |
| Transforms.DigitsOnlyIsNotMath | app.py:293-297 | a digits-only text is not an expression |
| Transforms.DeleteChars | app.py:979-981 | the loop's result drops every given character and keeps all others in order |
| Transforms.CleanedWords | app.py:966-968 | the words removed are non-empty, already stripped, and no more than the pieces |
| Transforms.CleanedWordsStep | app.py:966-968 | one more piece adds its stripped form unless that is empty |
| Transforms.RemoveWords | app.py:968-969 | the replaces in sequence never lengthen the text |
| Transforms.DeleteWords | app.py:965-969 | the loop's result is the replaces, in order, of the stripped non-empty comma-separated pieces |
| Transforms.RemoveWordsAbsent | app.py:966-969 | words that do not occur leave the text unchanged |
| Transforms.DeleteWordsCanLeaveWord | app.py:966-969 | the result of delete_words can still contain a removed word |
| Transforms.RemoveAllDigits | app.py:997-1000 | no digit remains; each other character keeps its multiplicity |
| Transforms.RemoveAllLetters | app.py:1004-1007 | no letter remains; each other character keeps its multiplicity |
| Transforms.RemoveAllIdempotent | app.py:1000-1007 | both filters are idempotent |
| Transforms.Preview | app.py:1279 | texts of up to 100 characters are shown whole, longer ones as their first 100 characters and "..." |
| Stats.ShowStats | app.py:1562-1568 | the seven counts field by field; their meaning is stated by `Stats.CharsNoSpace`, `Stats.SpecialIsOtherChars`, `Stats.WordCountZero` and `Stats.LinesCount` |
| Stats.WordCount | app.py:1564 | `len(text.split())`: the number of maximal runs of non-whitespace; zero exactly for blank text by `Stats.WordCountZero` |
| Stats.CountPartition | app.py:1562-1568 | every character is a digit, a letter, a space, a newline or special, when the classes are apart |
| Stats.CharsNoSpace | app.py:1563 | the space-free count is the length less the number of spaces |
| Stats.SpecialIsOtherChars | app.py:1568 | the special count is the number of the other characters, hence never negative |
| Stats.WordCountZero | app.py:1564 | `len(text.split())` is zero exactly when the text is all whitespace |
| Stats.LinesCount | app.py:1565 | the line count is at least one and is the number of newline-separated pieces |
| Logs.HistoryAdd | app.py:1323-1332 | empty text or a repeat of the newest entry changes nothing; otherwise one entry with the text and time is appended and earlier entries are kept |
| Logs.HistoryAddRepeat | app.py:1326 | recording the same text twice in a row stores it once |
| Logs.HistoryAddAfterOther | app.py:1326-1332 | only the newest entry is compared: t, u, t stores t again |
| Logs.HistoryAddWellFormed | app.py:1326-1332 | a history with no empty entry and no adjacent repeat stays so |
| Logs.FavoritesAdd | app.py:1401-1412 | a text already present changes nothing; otherwise one entry is appended; the text is in the favorites afterwards |
| Logs.FavoritesAddDistinct | app.py:1403-1412 | favorite texts stay pairwise distinct |
| Logs.FavoritesAddRepeat | app.py:1403-1407 | the second add of a text changes nothing |
| Logs.LoadData | app.py:540-551 | a missing or unparsable file gives []; otherwise a truthy max_items below the length keeps the newest max_items entries in order, else all |
| Logs.LoadDataEighty | app.py:74 | a history of 80 entries loads as its newest 50 |
| Logs.LoadDataBound | app.py:547-548 | with a positive max_items, at most max_items entries are loaded |
| Logs.RemoveAt | app.py:1372-1373 | `del` at a position in range removes exactly that element and keeps the others in order; out of range nothing changes |
| Logs.RemoveAtMultiset | app.py:1396-1397 | deleting removes one occurrence of the element and nothing else |
| Logs.RemoveAtDistinct | app.py:1396-1397 | deleting keeps favorite texts distinct |
| Logs.RemoveAtBreaksWellFormed | app.py:1371-1373 | deleting can leave two equal texts adjacent in the history |
| Logs.RowLabel | app.py:1280 | a row reads "timestamp: preview"; used by `Logs.Rows` |
| Logs.HistoryView | app.py:1275-1281 | the full history listing, all positions newest first; `Logs.SelectedPositionFullHistory` ties it to `len-1-index` |
| Logs.FavoritesView | app.py:1283-1289 | the full favorites listing, all positions in order; `Logs.SelectedPositionFullFavorites` ties it to the direct index |
| Logs.FilteredHistoryView | app.py:1291-1300 | the positions passing the search, newest first; `Logs.SelectedPositionFiltered` and `Logs.FilteredHistoryDeletesOtherEntry` are stated over it |
| Logs.FilteredFavoritesView | app.py:1302-1311 | the positions passing the search, in order; `Logs.FilteredFavoritesDeletesOtherEntry` is stated over it |
| Logs.ShownPositions | app.py:1296-1297 | a search lists positions in range whose entries pass it |
| Logs.ShownPositionsExact | app.py:1296-1297 | the positions are increasing and include every passing entry |
| Logs.ShownPositionsAll | app.py:1295-1297 | a search every entry passes lists every entry |
| Logs.AllPositions | app.py:1286 | the full favorites listing is positions 0 to n-1 in order |
| Logs.Reverse | app.py:1277 | the history is listed newest first |
| Logs.Rows | app.py:1277-1280 | each row shows "timestamp: preview" of the entry at its position |
| Logs.HistoryRowToPositionFull | app.py:1345-1348 | on the full listing `len-1-index` is in range exactly for existing rows and names the entry the row shows |
| Logs.HistoryRowToPosition | app.py:1347 | the source's `len(self.history) - 1 - index`; `Logs.HistoryRowToPositionFull` says where it is right |
| Logs.HistoryDeleteAsWritten | app.py:1369-1373 | the as-written delete removes position `len-1-index` if in range, else nothing |
| Logs.FilteredHistoryDeletesOtherEntry | app.py:1291-1300 | after a search, deleting the only visible row removes a different, hidden entry |
| Logs.FilteredFavoritesDeletesOtherEntry | app.py:1302-1311 | likewise in the favorites: row 0 deletes favorite 0, which is hidden |
| Logs.FavoritesDeleteAsWritten | app.py:1395-1397 | the as-written favorites delete: the row index used directly as the position, through `Logs.RemoveAt` |
| Logs.SelectedPosition | app.py:1345-1348 | the corrected lookup: the position the selected row shows, or none |
| Logs.SelectedPositionShowsRow | app.py:1345-1348 | the corrected lookup picks the entry the selected row displays, in any view |
| Logs.SelectedPositionFullHistory | app.py:1345-1348 | on the full history listing, the corrected lookup is exactly `len-1-index` with the range check |
| Logs.SelectedPositionFullFavorites | app.py:1383-1384 | on the full favorites listing, it is exactly the direct index with the range check |
| Logs.SelectedPositionFiltered | app.py:1296-1297 | after a search it picks an entry that passes the search |
| Hotkeys.Assignments | app.py:1120-1121 | one assignment per form row: the stripped field and the description |
| Hotkeys.BuildHotkeys | app.py:1119-1123 | the map the form builds; its contents are stated by `Hotkeys.BuildHotkeysContents` |
| Hotkeys.SavedHotkeys | app.py:1125-1126 | the stored map after saving; `Hotkeys.SavedHotkeysReplaces` states when it is replaced |
| Hotkeys.BuildMapKeys | app.py:1120-1123 | the keys of the built map are exactly the non-empty keys assigned |
| Hotkeys.BuildMapValues | app.py:1120-1123 | each key holds the value of the last assignment to it |
| Hotkeys.BuildHotkeysContents | app.py:1119-1123 | the keys are exactly the non-blank stripped fields, each holding the description of the last row with that key |
| Hotkeys.BuildMapStep | app.py:1122-1123 | one more row sets its key if it is non-empty and otherwise changes nothing |
| Hotkeys.CollectHotkeys | app.py:1119-1123 | the loop's map equals `BuildHotkeys` of the rows |
| Hotkeys.SavedHotkeysReplaces | app.py:1125-1126 | the stored map is replaced exactly when some field is non-blank; otherwise it is kept |
| Hotkeys.BuildHotkeysLaterWins | app.py:1123 | of two rows with the same key, the later description wins |
| Hotkeys.BuildHotkeysStripsKeys | app.py:1121-1122 | every key is non-empty and already stripped |
| Hotkeys.LoadHotkeys | app.py:562-588 | the parsed file's map, or the defaults when missing or unparsable |
| Hotkeys.DefaultKeys | app.py:565-578 | the default keys are exactly F1 to F12 |
| Calculator.DropLast | app.py:411 | `[:-1]` drops the last character, and "" stays "" |
| Calculator.Click | app.py:404-439 | one press of calc_button_click: C, ←, = and √ (the evaluation outcome passed in), any other button appended; stated by `Calculator.ClearEmpties`, `Calculator.BackspaceDropsLast`, `Calculator.AppendExtends`, `Calculator.BackspaceUndoesAppend` and `Calculator.OnlyEqualsRecords` |
| Calculator.ClearEmpties | app.py:408-409 | C empties the input and records nothing |
| Calculator.BackspaceDropsLast | app.py:410-411 | ← gives a prefix one character shorter, or "" for "" |
| Calculator.AppendExtends | app.py:438-439 | any other button but =, √ appends exactly its text |
| Calculator.BackspaceUndoesAppend | app.py:408-439 | ← undoes a one-character append |
| Calculator.GridAppendsOneChar | app.py:378-384 | every appending button of the grid is one character |
| Calculator.OnlyEqualsRecords | app.py:412-436 | only a successful = records "expr = result", which also becomes the input; a failed = or √ shows "Ошибка" |
| Calculator.TypingConcatenates | app.py:438-439 | a run of appending presses types their texts in order |
| Calculator.CalculatorWindow.ButtonClick | app.py:404-439 | the input and calculation history change as `Click` says |
| Emoji.InEmojiClass | app.py:1603-1622 | the character class of `emoji_pattern`, range by range; `Emoji.EmojiClassCollapses` gives its union |
| Emoji.EmojiClassCollapses | app.py:1603-1622 | the class is U+200D, U+231A, U+23CF, U+23E9 and everything from U+24C2 up |
| Emoji.EmojiClassExamples | app.py:1603-1622 | everything below U+200D is kept; the CJK ideograph U+4E2D and U+1F600 are removed |
| Emoji.DropEmojiChars | app.py:1630 | no class character remains; others keep their multiplicity |
| Emoji.RemoveEmojisAsWritten | app.py:1625-1630 | remove_emojis as written: `Transforms.RemoveWords` of the backslashed smiley list, then the class removed; `Emoji.AsWrittenKeepsSmiley` is stated over it |
| Emoji.AsWrittenKeepsSmiley | app.py:1625-1630 | as written, `":)"` comes out unchanged |
| Emoji.RemoveEmojis | app.py:1598-1630 | the corrected removal leaves no class character and never lengthens the text |
| Emoji.RemoveEmojisKeepsPlain | app.py:1625-1630 | a text with no smiley and no class character is unchanged |
| Emoji.RemovesSmiley | app.py:1625-1627 | with the corrected list, `":)"` is removed |
| Editor.Pick | app.py:1341-1348 | the corrected lookup: no selection or a row beyond the listing selects nothing, otherwise the position the row shows (the source computes `len-1-index`; see "## Left out") |
| Editor.TextEditor.constructor | app.py:74-75 | history loaded and cut to 50, favorites loaded, hotkeys loaded or defaulted (app.py:100), both listings full |
| Editor.TextEditor.GetText | app.py:929-931 | the text area's contents stripped |
| Editor.TextEditor.SelectTab | app.py:1174-1179 | changing tab refills nothing |
| Editor.TextEditor.PopulateHistory | app.py:1275-1281 | the history listing becomes all entries newest first |
| Editor.TextEditor.PopulateFavorites | app.py:1283-1289 | the favorites listing becomes all favorites in order |
| Editor.TextEditor.FilterHistory | app.py:1291-1300 | the history listing becomes the passing entries, newest first |
| Editor.TextEditor.FilterFavorites | app.py:1302-1311 | the favorites listing becomes the passing favorites |
| Editor.TextEditor.AddToHistory | app.py:1323-1337 | history as `HistoryAdd`; the listing is refilled only after an append while the history tab is shown |
| Editor.TextEditor.SetText | app.py:933-937 | the text area holds the text and the history records it |
| Editor.TextEditor.OnFocusOut | app.py:532-537 | the stripped text is recorded when it differs from the last recorded text, which it then becomes; the history listing is refilled only after an append on the history tab |
| Editor.TextEditor.OnTextModified | app.py:523-530 | the same guard and listing refill, only when the text area reports a modification |
| Editor.TextEditor.AddToFavorites | app.py:1401-1415 | favorites as `FavoritesAdd`, returns whether it appended, keeps favorites distinct |
| Editor.TextEditor.RestoreFromHistory | app.py:1339-1349 | the text of the entry the selected row shows goes to the text area and the history; the history listing is refilled as `AddToHistory` says |
| Editor.TextEditor.AddToFavoritesFromHistory | app.py:1351-1361 | the text of the entry the selected row shows is added to the favorites, and the favorites listing is refilled exactly when it was appended |
| Editor.TextEditor.DeleteFromHistory | app.py:1363-1375 | the entry the selected row shows is deleted and the listing refilled; no selection changes nothing |
| Editor.TextEditor.CopyFromFavorites | app.py:1377-1387 | the text of the favorite the selected row shows, or nothing |
| Editor.TextEditor.DeleteFromFavorites | app.py:1389-1399 | the favorite the selected row shows is deleted, the listing refilled, favorites stay distinct |
| Editor.TextEditor.DeleteWords | app.py:959-971 | a cancelled or empty dialog changes nothing; otherwise the words are removed from the stripped text, which is stored and recorded, the history listing refilled only after an append on the history tab |
| Editor.TextEditor.DeleteCharacters | app.py:973-995 | a cancelled or empty dialog changes nothing; otherwise the given characters are dropped from the stripped text, which is stored and recorded, the history listing refilled only after an append on the history tab |
| Editor.TextEditor.RemoveAllOf | app.py:997-1009 | the class's characters are dropped from the stripped text, which is stored and recorded; the history listing is refilled only after an append on the history tab |
| Editor.TextEditor.ChangeLayout | app.py:1034-1046 | the stripped text is swapped, stored and recorded; the history listing is refilled only after an append on the history tab |
| Editor.TextEditor.RemoveEmojis | app.py:1598-1633 | the stripped text loses its smileys and class characters, and is stored and recorded; the history listing is refilled only after an append on the history tab |
| Editor.TextEditor.ShowStats | app.py:1554-1568 | the counts of the stripped text |
| Editor.StaleListingDeletes | app.py:1336-1337 | from history [a], recording b off the history tab leaves the one row showing a; deleting it leaves [b] with the corrected lookup, where the source's `len-1-index` leaves [a] |
| Editor.TextEditor.SaveSettings | app.py:1117-1129 | the map rebuilt from the form is stored exactly when it is non-empty |

## Left out

- The Tkinter interface: widgets, menus, dialogs, status messages, listbox colours and the context menus. Only the listing layout and the preview carry logic.
- The Win32 clipboard capture, `pyperclip`, the paste and copy buttons. These are calls into the operating system. `Editor.TextEditor.CopyFromFavorites` returns the text instead of copying it.
- Global hotkey registration through the `keyboard` library, and the tray icon thread (foreign libraries and concurrency).
- `bind_hotkeys` binds fixed F1 to F12 keys and never reads the stored map. The model therefore only stores the map that `save_settings` builds.
- The settings form is taken as its rows in order. The `entries` dict keyed by description, which would merge two actions with the same description, is not modelled.
- `save_data`, `save_hotkeys` and JSON parsing or dumping: file contents are `Option` parameters, and a save is an effect with no modelled result.
- `calculate_expression` and the evaluation inside `=` and `√` (Python `eval`, floats, `round`, `math.sqrt`). The result text or the failure is a parameter of `Calculator.Click`.
- `VolumeControl`, file conversion, `find_replace`, QR codes, encoding detection, translation and the word frequency list. These are foreign libraries, the regex engine, floating point, or the tie order of `Counter.most_common`.
- `to_uppercase` and `to_lowercase`: Unicode case mapping can change length and is not modelled.
- Editor.TextEditor.RemoveAllOf: Python's `str.isdigit` and `str.isalpha` are predicate parameters, not the Unicode tables. `Stats.SpecialIsOtherChars` requires them to be disjoint and reject space and newline.
- Editor.TextEditor.FilterHistory: `query in text.lower()` is a predicate parameter `shown`, since Unicode lower-casing is not modelled.
- Editor.TextEditor.SetText: the `<<Modified>>` event that inserting text raises is not chained into `OnTextModified` automatically. A caller composes the two.
- Editor.TextEditor.AddToHistory: the timestamp is the parameter `now` (`get_current_time`, app.py:1417-1420).
- Emoji.DropEmojiChars: removes class characters one at a time. This matches removing runs of them, since the replacement is empty.
- Editor.TextEditor.RemoveEmojis: uses the corrected smiley list of the first finding; the code as written is `Emoji.RemoveEmojisAsWritten`.
- Editor.Pick: is the corrected lookup of the second finding, the position the selected row shows. The source computes `len(history)-1-index` for the history (`Logs.HistoryRowToPosition`) and uses the index directly for the favorites; the two agree only on a full, freshly filled listing (`Logs.SelectedPositionFullHistory`, `Logs.SelectedPositionFullFavorites`).
- Editor.TextEditor.RestoreFromHistory: restores the entry the selected row shows, not the one at `len-1-index` (app.py:1347); see Editor.Pick.
- Editor.TextEditor.AddToFavoritesFromHistory: adds the entry the selected row shows, not the one at `len-1-index` (app.py:1359); see Editor.Pick.
- Editor.TextEditor.DeleteFromHistory: deletes the entry the selected row shows, not the one at `len-1-index` (app.py:1371-1373); the as-written delete is `Logs.HistoryDeleteAsWritten`.
- Editor.TextEditor.CopyFromFavorites: copies the favorite the selected row shows, not the one at the row index (app.py:1384-1385); see Editor.Pick.
- Editor.TextEditor.DeleteFromFavorites: deletes the favorite the selected row shows, not the one at the row index (app.py:1396-1397); the as-written delete is `Logs.FavoritesDeleteAsWritten`.

## Findings

| source | as written | input that shows it | evidently intended | confidence | as-written member | corrected member |
|---|---|---|---|---|---|---|
| app.py:1625-1627 | the smileys are written as `":\)"`, `":\("` etc. in non-raw literals, so they hold a backslash; `re.escape` then matches the backslash literally | the text `:)` comes out of `remove_emojis` unchanged | the typed smileys `:)`, `:(=`, `;)`, `:|`, `:/`, `:*`, `:'(` are removed | high; not executed | Emoji.AsWrittenKeepsSmiley | Emoji.RemovesSmiley |
| app.py:1339-1399 | the selected row is turned into a position by `len(history)-1-index` (history) or used directly (favorites), which holds only while the listbox shows the full, current log; a filtered listing (filter_history, filter_favorites) or a listing not refilled after add_to_history shows other rows | history `["x", "y"]` filtered to show only "x": deleting its only row (index 0) deletes "y" (position 1). With no search at all: history `[a]`, then `b` recorded on the editor tab, where add_to_history does not refill the listing (app.py:1336-1337); the one row still shows `a`, and deleting it deletes `b` | the entry the selected row shows is acted on | high; not executed | Logs.FilteredHistoryDeletesOtherEntry, Editor.StaleListingDeletes | Logs.SelectedPositionShowsRow |

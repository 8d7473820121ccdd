/** The hotkey settings: the default table of load_hotkeys and the map that
    save_settings rebuilds from the settings form. */
module Hotkeys {
  import opened Opt
  import opened Strings

  /** One row of the settings form: the action's description and what the
      user typed into its key field. */
  datatype SettingsRow = SettingsRow(description: string, typed: string)

  /** The key a row contributes: its typed value, stripped. Empty means none. */
  function RowKey(row: SettingsRow): string {
    Strip(row.typed)
  }

  /** Each row of the form as the assignment save_settings makes from it:
      the stripped key field and the description. */
  function Assignments(rows: seq<SettingsRow>): (ps: seq<(string, string)>)
    ensures |ps| == |rows|
    ensures forall i :: 0 <= i < |rows| ==> ps[i] == (RowKey(rows[i]), rows[i].description)
  {
    seq(|rows|, i requires 0 <= i < |rows| => (RowKey(rows[i]), rows[i].description))
  }

  /** The map the assignments build, one after another: an assignment with a
      non-blank key sets that key, any other is skipped. */
  function BuildMap(ps: seq<(string, string)>): map<string, string>
    decreases |ps|
  {
    if ps == [] then map[]
    else
      var n := |ps| - 1;
      if ps[n].0 != [] then BuildMap(ps[..n])[ps[n].0 := ps[n].1]
      else BuildMap(ps[..n])
  }

  /** Row i's stripped key field is k, and no later row's is. */
  ghost predicate LastRowFor(rows: seq<SettingsRow>, k: string, i: int) {
    0 <= i < |rows| && RowKey(rows[i]) == k
    && forall j :: i < j < |rows| ==> RowKey(rows[j]) != k
  }

  /** The map save_settings builds from the form. */
  function BuildHotkeys(rows: seq<SettingsRow>): map<string, string> {
    BuildMap(Assignments(rows))
  }

  /** Some assignment sets key k. */
  ghost predicate SomeFor(ps: seq<(string, string)>, k: string) {
    exists i :: 0 <= i < |ps| && ps[i].0 == k
  }

  /** Assignment i sets key k, and no later one does. */
  ghost predicate LastFor(ps: seq<(string, string)>, k: string, i: int) {
    0 <= i < |ps| && ps[i].0 == k
    && forall j :: i < j < |ps| ==> ps[j].0 != k
  }

  /** The keys of the map are exactly the non-blank keys assigned. */
  lemma {:induction false} BuildMapKeys(ps: seq<(string, string)>)
    ensures forall k :: k in BuildMap(ps) <==> k != [] && SomeFor(ps, k)
    decreases |ps|
  {
    if ps != [] {
      var n := |ps| - 1;
      BuildMapKeys(ps[..n]);
      forall k ensures k in BuildMap(ps) <==> k != [] && SomeFor(ps, k) {
        if SomeFor(ps[..n], k) {
          var i :| 0 <= i < n && ps[..n][i].0 == k;
          assert ps[i].0 == k;
        }
        if SomeFor(ps, k) && ps[n].0 != k {
          var i :| 0 <= i < |ps| && ps[i].0 == k;
          assert ps[..n][i] == ps[i];
        }
      }
    }
  }

  /** Each key holds the description of the last assignment to it: a later
      assignment to the same key overwrites an earlier one. */
  lemma {:induction false} BuildMapValues(ps: seq<(string, string)>)
    ensures forall k :: k in BuildMap(ps) ==>
      exists i :: LastFor(ps, k, i) && BuildMap(ps)[k] == ps[i].1
    decreases |ps|
  {
    if ps != [] {
      var n := |ps| - 1;
      var m := BuildMap(ps);
      BuildMapKeys(ps);
      BuildMapValues(ps[..n]);
      forall k | k in m
        ensures exists i :: LastFor(ps, k, i) && m[k] == ps[i].1
      {
        if ps[n].0 == k {
          assert k != [];
          assert LastFor(ps, k, n);
        } else {
          var i :| LastFor(ps[..n], k, i) && BuildMap(ps[..n])[k] == ps[..n][i].1;
          assert ps[..n][i] == ps[i];
          forall j | i < j < |ps| ensures ps[j].0 != k {
            if j < n {
              assert ps[..n][j] == ps[j];
            }
          }
          assert m[k] == BuildMap(ps[..n])[k];
          assert LastFor(ps, k, i);
        }
      }
    }
  }

  /** The keys of the new hotkey map are exactly the non-blank stripped key
      fields of the form, and each holds the description of the last row
      whose stripped key field it is. */
  lemma BuildHotkeysContents(rows: seq<SettingsRow>)
    ensures forall k :: k in BuildHotkeys(rows) <==>
      k != [] && exists i :: 0 <= i < |rows| && RowKey(rows[i]) == k
    ensures forall k :: k in BuildHotkeys(rows) ==>
      exists i :: LastRowFor(rows, k, i) && BuildHotkeys(rows)[k] == rows[i].description
  {
    var ps := Assignments(rows);
    BuildMapKeys(ps);
    BuildMapValues(ps);
    forall k ensures SomeFor(ps, k) <==> exists i :: 0 <= i < |rows| && RowKey(rows[i]) == k {
      if exists i :: 0 <= i < |rows| && RowKey(rows[i]) == k {
        var i :| 0 <= i < |rows| && RowKey(rows[i]) == k;
        assert ps[i].0 == k;
      }
    }
    forall k | k in BuildHotkeys(rows)
      ensures exists i :: LastRowFor(rows, k, i) && BuildHotkeys(rows)[k] == rows[i].description
    {
      var i :| LastFor(ps, k, i) && BuildMap(ps)[k] == ps[i].1;
      assert forall j :: i < j < |rows| ==> RowKey(rows[j]) == ps[j].0;
      assert LastRowFor(rows, k, i);
    }
  }

  lemma BuildMapStep(ps: seq<(string, string)>, i: nat)
    requires i < |ps|
    ensures BuildMap(ps[..i + 1]) ==
      if ps[i].0 != [] then BuildMap(ps[..i])[ps[i].0 := ps[i].1] else BuildMap(ps[..i])
  {
    assert ps[..i + 1][..i] == ps[..i];
  }

  /** The loop of save_settings that fills new_hotkeys. */
  method CollectHotkeys(rows: seq<SettingsRow>) returns (newHotkeys: map<string, string>)
    ensures newHotkeys == BuildHotkeys(rows)
  {
    ghost var ps := Assignments(rows);
    newHotkeys := map[];
    for i := 0 to |rows|
      invariant newHotkeys == BuildMap(ps[..i])
    {
      var hotkey := Strip(rows[i].typed);
      BuildMapStep(ps, i);
      assert ps[i] == (hotkey, rows[i].description);
      if hotkey != [] {
        newHotkeys := newHotkeys[hotkey := rows[i].description];
      }
    }
    assert ps[..|rows|] == ps;
  }

  /** The stored map after save_settings: replaced by the new map only when
      that is not empty. */
  function SavedHotkeys(current: map<string, string>, rows: seq<SettingsRow>): map<string, string> {
    var m := BuildHotkeys(rows);
    if m != map[] then m else current
  }

  /** The stored map is replaced exactly when some row has a non-blank key;
      a form whose every key field is blank changes nothing. */
  lemma SavedHotkeysReplaces(current: map<string, string>, rows: seq<SettingsRow>)
    ensures (exists i :: 0 <= i < |rows| && RowKey(rows[i]) != []) ==>
      SavedHotkeys(current, rows) == BuildHotkeys(rows)
    ensures (forall i :: 0 <= i < |rows| ==> RowKey(rows[i]) == []) ==>
      SavedHotkeys(current, rows) == current
  {
    var m := BuildHotkeys(rows);
    BuildHotkeysContents(rows);
    if exists i :: 0 <= i < |rows| && RowKey(rows[i]) != [] {
      var i :| 0 <= i < |rows| && RowKey(rows[i]) != [];
      assert RowKey(rows[i]) in m;
    } else {
      assert forall k :: k !in m;
      assert m == map[];
    }
  }

  /** Two rows with the same typed key: only the later description survives. */
  lemma BuildHotkeysLaterWins(a: string, b: string, key: string)
    requires Strip(key) != []
    ensures BuildHotkeys([SettingsRow(a, key), SettingsRow(b, key)]) == map[Strip(key) := b]
  {
    var ps := Assignments([SettingsRow(a, key), SettingsRow(b, key)]);
    assert ps == [(Strip(key), a), (Strip(key), b)];
    BuildMapStep(ps, 0);
    BuildMapStep(ps, 1);
    assert ps[..0] == [];
    assert ps[..2] == ps;
  }

  /** Every key of the new map is non-blank and already stripped. */
  lemma BuildHotkeysStripsKeys(rows: seq<SettingsRow>)
    ensures forall k :: k in BuildHotkeys(rows) ==> Strip(k) == k && k != []
  {
    BuildHotkeysContents(rows);
    forall k | k in BuildHotkeys(rows) ensures Strip(k) == k && k != [] {
      var i :| 0 <= i < |rows| && RowKey(rows[i]) == k;
      StripIdempotent(rows[i].typed);
    }
  }

  /** The twelve function keys and the action each is described with. */
  const DefaultHotkeys: map<string, string> := map[
    "F1" := "Вставить из буфера",
    "F2" := "Копировать в буфер",
    "F3" := "Удалить слова",
    "F4" := "Удалить буквы",
    "F5" := "Удалить цифры",
    "F6" := "Удалить ВСЕ цифры",
    "F7" := "Удалить ВСЕ буквы",
    "F8" := "Верхний регистр",
    "F9" := "Нижний регистр",
    "F10" := "Сменить раскладку",
    "F11" := "Перевести",
    "F12" := "Свернуть в трей"]

  /** load_hotkeys: the parsed hotkeys.json, or the defaults when the file is
      missing or cannot be parsed. */
  function LoadHotkeys(file: Option<map<string, string>>): (r: map<string, string>)
    ensures file.Some? ==> r == file.value
    ensures file.None? ==> r == DefaultHotkeys
  {
    if file.Some? then file.value else DefaultHotkeys
  }

  /** Without a settings file, the keys are exactly F1 to F12. */
  lemma DefaultKeys()
    ensures LoadHotkeys(None).Keys ==
      {"F1", "F2", "F3", "F4", "F5", "F6", "F7", "F8", "F9", "F10", "F11", "F12"}
    ensures LoadHotkeys(None)["F10"] == "Сменить раскладку"
  {
  }
}

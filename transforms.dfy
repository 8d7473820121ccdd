/** The text transforms and checks of the editor that work on the stripped
    text of the text area: is_math_expression, delete_words, delete_letters,
    delete_digits, remove_all_digits, remove_all_letters and the one-line
    preview shown in the history and favorites lists. */
module Transforms {
  import opened Strings

  // ---------------------------------------------------------------------------
  // is_math_expression

  /** The characters whose presence makes a text look like arithmetic. */
  const Operators: string := "+-*/^%()"

  /** The only characters an arithmetic text may consist of. */
  const AllowedChars: string := "0123456789.+-*/^%()eπ"

  /** is_math_expression: after removing the spaces, the text holds at least
      one operator and nothing but allowed characters. Said of the text itself:
      some character is an operator, and every character is a space or allowed. */
  function IsMathExpression(text: string): (r: bool)
    ensures r <==>
      && (exists i :: 0 <= i < |text| && text[i] in Operators)
      && (forall i :: 0 <= i < |text| ==> text[i] == ' ' || text[i] in AllowedChars)
  {
    var clean := DropChars(text, " ");
    MathCharsOfClean(text, clean);
    && (exists k :: 0 <= k < |Operators| && Operators[k] in clean)
    && (forall j :: 0 <= j < |clean| ==> clean[j] in AllowedChars)
  }

  /** The space-free text holds exactly the non-space characters of the text. */
  lemma CleanMembership(text: string, clean: string)
    requires clean == DropChars(text, " ")
    ensures forall c :: c in clean <==> c in text && c != ' '
  {
    forall c ensures c in clean <==> c in text && c != ' ' {
      if c != ' ' {
        assert multiset(clean)[c] == multiset(text)[c];
      } else {
        assert c !in clean;
      }
    }
  }

  /** The two checks of is_math_expression, moved from the space-free text to the text. */
  lemma MathCharsOfClean(text: string, clean: string)
    requires clean == DropChars(text, " ")
    ensures (exists k :: 0 <= k < |Operators| && Operators[k] in clean)
        <==> (exists i :: 0 <= i < |text| && text[i] in Operators)
    ensures (forall j :: 0 <= j < |clean| ==> clean[j] in AllowedChars)
        <==> (forall i :: 0 <= i < |text| ==> text[i] == ' ' || text[i] in AllowedChars)
  {
    CleanMembership(text, clean);
    assert ' ' !in Operators;
    if exists k :: 0 <= k < |Operators| && Operators[k] in clean {
      var k :| 0 <= k < |Operators| && Operators[k] in clean;
      var i :| 0 <= i < |text| && text[i] == Operators[k];
    }
    if exists i :: 0 <= i < |text| && text[i] in Operators {
      var i :| 0 <= i < |text| && text[i] in Operators;
      var k :| 0 <= k < |Operators| && Operators[k] == text[i];
      assert Operators[k] in clean;
    }
    if forall j :: 0 <= j < |clean| ==> clean[j] in AllowedChars {
      forall i | 0 <= i < |text| && text[i] != ' ' ensures text[i] in AllowedChars {
        assert text[i] in clean;
      }
    }
    if forall i :: 0 <= i < |text| ==> text[i] == ' ' || text[i] in AllowedChars {
      forall j | 0 <= j < |clean| ensures clean[j] in AllowedChars {
        assert clean[j] in text;
      }
    }
  }

  /** A text of digits alone is not an arithmetic expression: an operator is required. */
  lemma DigitsOnlyIsNotMath(text: string)
    requires forall i :: 0 <= i < |text| ==> '0' <= text[i] <= '9'
    ensures !IsMathExpression(text)
  {
  }

  // ---------------------------------------------------------------------------
  // delete_letters / delete_digits

  /** The loop of delete_letters and delete_digits: every character the user
      typed is replaced by nothing, one after another. */
  method DeleteChars(text: string, chars: string) returns (r: string)
    ensures r == DropChars(text, chars)
    ensures forall i :: 0 <= i < |r| ==> r[i] !in chars
  {
    RemoveWhereNone(text, c => c in []);
    r := text;
    for i := 0 to |chars|
      invariant r == DropChars(text, chars[..i])
    {
      RemoveAllChar(r, chars[i]);
      DropCharsTwice(text, chars[..i], [chars[i]]);
      assert chars[..i] + [chars[i]] == chars[..i + 1];
      r := RemoveAll(r, [chars[i]]);
    }
    assert chars[..|chars|] == chars;
  }

  // ---------------------------------------------------------------------------
  // delete_words

  /** The words delete_words removes, in order: each comma-separated piece of
      the input, stripped, and skipped when nothing is left of it. */
  function CleanedWords(pieces: seq<string>): (ws: seq<string>)
    ensures |ws| <= |pieces|
    ensures forall k :: 0 <= k < |ws| ==> ws[k] != [] && Strip(ws[k]) == ws[k]
    decreases |pieces|
  {
    if pieces == [] then []
    else
      var w := Strip(pieces[|pieces| - 1]);
      StripIdempotent(pieces[|pieces| - 1]);
      CleanedWords(pieces[..|pieces| - 1]) + (if w != [] then [w] else [])
  }

  /** text.replace(w, '') for each word of ws in turn. */
  function RemoveWords(text: string, ws: seq<string>): (r: string)
    ensures |r| <= |text|
    decreases |ws|
  {
    if ws == [] then text
    else RemoveAll(RemoveWords(text, ws[..|ws| - 1]), ws[|ws| - 1])
  }

  /** One more piece adds its stripped form, unless that is empty. */
  lemma CleanedWordsStep(pieces: seq<string>, i: nat)
    requires i < |pieces|
    ensures CleanedWords(pieces[..i + 1]) ==
      CleanedWords(pieces[..i]) + (if Strip(pieces[i]) != [] then [Strip(pieces[i])] else [])
  {
    assert pieces[..i + 1][..i] == pieces[..i];
  }

  /** One more word is one more replace on the result so far. */
  lemma RemoveWordsStep(text: string, ws: seq<string>, w: string)
    ensures RemoveWords(text, ws + [w]) == RemoveAll(RemoveWords(text, ws), w)
  {
    assert (ws + [w])[..|ws|] == ws;
  }

  /** The loop of delete_words. */
  method DeleteWords(text: string, words: string) returns (r: string)
    ensures r == RemoveWords(text, CleanedWords(Split(words, ',')))
  {
    var pieces := Split(words, ',');
    r := text;
    for i := 0 to |pieces|
      invariant r == RemoveWords(text, CleanedWords(pieces[..i]))
    {
      var cleaned := Strip(pieces[i]);
      CleanedWordsStep(pieces, i);
      ghost var before := CleanedWords(pieces[..i]);
      if cleaned != [] {
        RemoveWordsStep(text, before, cleaned);
        assert CleanedWords(pieces[..i + 1]) == before + [cleaned];
        r := RemoveAll(r, cleaned);
      } else {
        assert CleanedWords(pieces[..i + 1]) == before;
      }
    }
    assert pieces[..|pieces|] == pieces;
  }

  /** Words that do not occur in the text leave it unchanged. */
  lemma {:induction false} RemoveWordsAbsent(text: string, ws: seq<string>)
    requires forall k :: 0 <= k < |ws| ==> !Occurs(ws[k], text)
    ensures RemoveWords(text, ws) == text
    decreases |ws|
  {
    if ws != [] {
      RemoveWordsAbsent(text, ws[..|ws| - 1]);
      RemoveAllAbsent(text, ws[|ws| - 1]);
    }
  }

  /** The result of delete_words can still contain a removed word. */
  lemma DeleteWordsCanLeaveWord()
    ensures RemoveWords("aabb", ["ab"]) == "ab"
  {
    RemoveAllCanLeaveWord();
    assert ["ab"][..0] == [];
  }

  // ---------------------------------------------------------------------------
  // remove_all_digits / remove_all_letters

  /** remove_all_digits: keeps exactly the characters that are not digits,
      in order. isDigit stands for Python's str.isdigit. */
  function RemoveAllDigits(text: string, isDigit: char -> bool): (r: string)
    ensures forall i :: 0 <= i < |r| ==> !isDigit(r[i])
    ensures forall c :: !isDigit(c) ==> multiset(r)[c] == multiset(text)[c]
  {
    RemoveWhere(text, isDigit)
  }

  /** remove_all_letters: keeps exactly the characters that are not letters,
      in order. isAlpha stands for Python's str.isalpha. */
  function RemoveAllLetters(text: string, isAlpha: char -> bool): (r: string)
    ensures forall i :: 0 <= i < |r| ==> !isAlpha(r[i])
    ensures forall c :: !isAlpha(c) ==> multiset(r)[c] == multiset(text)[c]
  {
    RemoveWhere(text, isAlpha)
  }

  /** Both filters are idempotent. */
  lemma RemoveAllIdempotent(text: string, isDigit: char -> bool, isAlpha: char -> bool)
    ensures RemoveAllDigits(RemoveAllDigits(text, isDigit), isDigit) == RemoveAllDigits(text, isDigit)
    ensures RemoveAllLetters(RemoveAllLetters(text, isAlpha), isAlpha) == RemoveAllLetters(text, isAlpha)
  {
    RemoveWhereIdempotent(text, isDigit);
    RemoveWhereIdempotent(text, isAlpha);
  }

  // ---------------------------------------------------------------------------
  // The list preview

  /** The preview populate_history and populate_favorites show: the first 100
      characters, followed by "..." when the text is longer than that. */
  function Preview(text: string): (p: string)
    ensures |p| <= 103
    ensures |text| <= 100 ==> p == text
    ensures |text| > 100 ==> |p| == 103 && p[..100] == text[..100] && p[100..] == "..."
  {
    if |text| > 100 then text[..100] + "..." else text
  }
}

/** The keyboard-layout swap of the editor (init_layout_dicts / change_layout):
    text typed with the wrong input language selected is remapped character by
    character between the Latin QWERTY keys and the Russian keys in the same
    positions. */
module Layout {

  /** The four tables of init_layout_dicts, one keyboard row after another. */
  const EnLower: string := "qwertyuiop[]" + "asdfghjkl;'" + "zxcvbnm,."
  const RuLower: string := "йцукенгшщзхъ" + "фывапролджэ" + "ячсмитьбю"
  const EnUpper: string := "QWERTYUIOP{}" + "ASDFGHJKL:\"" + "ZXCVBNM<>"
  const RuUpper: string := "ЙЦУКЕНГШЩЗХЪ" + "ФЫВАПРОЛДЖЭ" + "ЯЧСМИТЬБЮ"

  /** The key sides of en_to_ru and ru_to_en: zip pairs En[i] with Ru[i]. */
  const En: string := EnLower + EnUpper
  const Ru: string := RuLower + RuUpper

  ghost predicate Distinct(s: string) {
    forall i, j :: 0 <= i < j < |s| ==> s[i] != s[j]
  }

  ghost predicate Disjoint(a: string, b: string) {
    forall i, j :: 0 <= i < |a| && 0 <= j < |b| ==> a[i] != b[j]
  }

  /** The first position of c in s. */
  function IndexOf(s: string, c: char): (k: nat)
    requires c in s
    ensures k < |s| && s[k] == c
    ensures forall j :: 0 <= j < k ==> s[j] != c
  {
    if s[0] == c then 0 else 1 + IndexOf(s[1..], c)
  }

  /** In a table without repeats, the position of a character is unique. */
  lemma IndexOfDistinct(s: string, k: nat)
    requires Distinct(s) && k < |s|
    ensures IndexOf(s, s[k]) == k
  {
  }

  /** One step of change_layout: a character of en_to_ru's keys becomes its
      Russian partner, otherwise one of ru_to_en's keys becomes its Latin
      partner, and every other character is kept. */
  function SwapChar(c: char): char {
    if c in En then Ru[IndexOf(En, c)]
    else if c in Ru then En[IndexOf(Ru, c)]
    else c
  }

  /** change_layout's result: the text with SwapChar applied to every character. */
  function Swap(s: string): (r: string)
    ensures |r| == |s|
    ensures forall i :: 0 <= i < |s| ==> r[i] == SwapChar(s[i])
  {
    seq(|s|, i requires 0 <= i < |s| => SwapChar(s[i]))
  }

  /** Converting one more character extends the converted text by its swap. */
  lemma SwapAppend(s: string, c: char)
    ensures Swap(s + [c]) == Swap(s) + [SwapChar(c)]
  {
    assert (s + [c])[..|s|] == s;
    forall i | 0 <= i < |s| ensures Swap(s + [c])[i] == Swap(s)[i] {
      assert (s + [c])[i] == s[i];
    }
  }

  /** change_layout's loop: appends the converted form of each character in turn. */
  method ChangeLayout(text: string) returns (converted: string)
    ensures converted == Swap(text)
  {
    converted := [];
    for i := 0 to |text|
      invariant converted == Swap(text[..i])
    {
      var c := text[i];
      var d: char;
      if c in En {
        d := Ru[IndexOf(En, c)];
      } else if c in Ru {
        d := En[IndexOf(Ru, c)];
      } else {
        d := c;
      }
      SwapAppend(text[..i], c);
      assert text[..i + 1] == text[..i] + [c];
      converted := converted + [d];
    }
    assert text[..|text|] == text;
  }

  // ---------------------------------------------------------------------------
  // The tables are a bijection

  lemma EnLowerDistinct() ensures Distinct(EnLower) {}
  lemma EnUpperDistinct() ensures Distinct(EnUpper) {}
  lemma RuLowerDistinct() ensures Distinct(RuLower) {}
  lemma RuUpperDistinct() ensures Distinct(RuUpper) {}

  /** Every character of s has property p. */
  ghost predicate Every(s: string, p: char -> bool) {
    forall i :: 0 <= i < |s| ==> p(s[i])
  }

  /** Two tables are apart when a property holds on all of one and none of the other. */
  lemma Separated(a: string, b: string, p: char -> bool)
    requires Every(a, p) && Every(b, c => !p(c))
    ensures Disjoint(a, b)
  {
    forall i, j | 0 <= i < |a| && 0 <= j < |b| ensures a[i] != b[j] {
      assert p(a[i]) && !p(b[j]);
    }
  }

  lemma {:induction false} EveryConcat(a: string, b: string, p: char -> bool)
    requires Every(a, p) && Every(b, p)
    ensures Every(a + b, p)
  {
    forall i | 0 <= i < |a + b| ensures p((a + b)[i]) {
      if i >= |a| {
        assert (a + b)[i] == b[i - |a|];
      }
    }
  }

  /** The lower-case Latin keys: letters and the punctuation of their keys. */
  predicate LowerLatinKey(c: char) {
    ('a' <= c <= 'z') || c == '[' || c == ']' || c == ';' || c == '\'' || c == ',' || c == '.'
  }

  lemma EnCasesDisjoint() ensures Disjoint(EnLower, EnUpper) {
    assert Every(EnLower, LowerLatinKey);
    assert Every(EnUpper, c => !LowerLatinKey(c));
    Separated(EnLower, EnUpper, LowerLatinKey);
  }

  /** The lower-case Cyrillic letters lie at U+0430 and above, the capitals below. */
  lemma RuCasesDisjoint() ensures Disjoint(RuLower, RuUpper) {
    var p := (c: char) => c >= '\U{0430}';
    assert Every(RuLower, p);
    assert Every(RuUpper, c => !p(c));
    Separated(RuLower, RuUpper, p);
  }

  lemma {:induction false} DistinctConcat(a: string, b: string)
    requires Distinct(a) && Distinct(b) && Disjoint(a, b)
    ensures Distinct(a + b)
  {
    forall i, j | 0 <= i < j < |a + b| ensures (a + b)[i] != (a + b)[j] {
      if j >= |a| {
        assert (a + b)[j] == b[j - |a|];
        if i >= |a| {
          assert (a + b)[i] == b[i - |a|];
        }
      }
    }
  }

  lemma EnDistinct() ensures Distinct(En) {
    EnLowerDistinct(); EnUpperDistinct(); EnCasesDisjoint();
    DistinctConcat(EnLower, EnUpper);
  }

  lemma RuDistinct() ensures Distinct(Ru) {
    RuLowerDistinct(); RuUpperDistinct(); RuCasesDisjoint();
    DistinctConcat(RuLower, RuUpper);
  }

  predicate IsAscii(c: char) {
    c < '\U{0080}'
  }

  /** All Latin keys are ASCII. */
  lemma LatinIsAscii() ensures Every(En, IsAscii) {
    assert Every(EnLower, IsAscii);
    assert Every(EnUpper, IsAscii);
    EveryConcat(EnLower, EnUpper, IsAscii);
  }

  /** All Cyrillic keys lie at U+0400 or above. */
  lemma CyrillicIsNotAscii() ensures Every(Ru, c => !IsAscii(c)) {
    assert Every(RuLower, c => !IsAscii(c));
    assert Every(RuUpper, c => !IsAscii(c));
    EveryConcat(RuLower, RuUpper, c => !IsAscii(c));
  }

  lemma LatinCyrillicApart() ensures Disjoint(En, Ru) {
    LatinIsAscii();
    CyrillicIsNotAscii();
    Separated(En, Ru, IsAscii);
  }

  /** Every table has 64 entries, no repeated character, and the Latin and the
      Cyrillic keys are apart, so en_to_ru and ru_to_en are inverse bijections. */
  lemma TablesAreBijection()
    ensures |En| == 64 && |Ru| == 64
    ensures Distinct(En) && Distinct(Ru)
    ensures Disjoint(En, Ru)
  {
    EnDistinct();
    RuDistinct();
    LatinCyrillicApart();
  }

  /** Swapping a character twice gives it back. */
  lemma SwapCharInvolution(c: char)
    ensures SwapChar(SwapChar(c)) == c
  {
    TablesAreBijection();
    if c in En {
      var k := IndexOf(En, c);
      assert Ru[k] !in En;
      IndexOfDistinct(Ru, k);
    } else if c in Ru {
      var k := IndexOf(Ru, c);
      IndexOfDistinct(En, k);
    }
  }

  /** The layout swap is an involution on every text, and it preserves length. */
  lemma SwapInvolution(s: string)
    ensures |Swap(s)| == |s|
    ensures Swap(Swap(s)) == s
  {
    forall i | 0 <= i < |s| ensures Swap(Swap(s))[i] == s[i] {
      SwapCharInvolution(s[i]);
    }
  }

  /** A character in neither table passes through unchanged. */
  lemma SwapKeepsUnmapped(s: string, i: nat)
    requires i < |s| && s[i] !in En && s[i] !in Ru
    ensures Swap(s)[i] == s[i]
  {
  }

  /** Latin keys become Cyrillic keys and back: the swap maps each table onto
      the other. */
  lemma SwapMapsTables(c: char)
    ensures c in En <==> SwapChar(c) in Ru
    ensures c in Ru <==> SwapChar(c) in En
  {
    TablesAreBijection();
    SwapCharInvolution(c);
    if c in En {
      assert SwapChar(c) == Ru[IndexOf(En, c)];
    } else if c in Ru {
      assert SwapChar(c) == En[IndexOf(Ru, c)];
    }
  }
}

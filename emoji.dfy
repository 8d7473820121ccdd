/** remove_emojis: literal removal of a list of text smileys, then removal of
    every character in the emoji character class. */
module Emoji {
  import opened Strings
  import Transforms

  /** The character class of emoji_pattern, range by range as written. */
  predicate InEmojiClass(c: char) {
    || ('\U{1F600}' <= c <= '\U{1F64F}')
    || ('\U{1F300}' <= c <= '\U{1F5FF}')
    || ('\U{1F680}' <= c <= '\U{1F6FF}')
    || ('\U{1F1E0}' <= c <= '\U{1F1FF}')
    || ('\U{2500}' <= c <= '\U{2BEF}')
    || ('\U{2702}' <= c <= '\U{27B0}')
    || ('\U{24C2}' <= c <= '\U{1F251}')
    || ('\U{1F926}' <= c <= '\U{1F937}')
    || ('\U{10000}' <= c <= '\U{10FFFF}')
    || ('\U{2640}' <= c <= '\U{2642}')
    || ('\U{2600}' <= c <= '\U{2B55}')
    || c == '\U{200D}' || c == '\U{23CF}' || c == '\U{23E9}' || c == '\U{231A}'
    || c == '\U{FE0F}' || c == '\U{3030}'
  }

  /** The ranges overlap so much that the class is four single characters and
      everything from U+24C2 up. */
  lemma EmojiClassCollapses(c: char)
    ensures InEmojiClass(c) <==>
      c == '\U{200D}' || c == '\U{231A}' || c == '\U{23CF}' || c == '\U{23E9}' || c >= '\U{24C2}'
  {
  }

  /** The class therefore spares every character below U+200D (Latin,
      Cyrillic and the rest) and takes, among others, CJK ideographs. */
  lemma EmojiClassExamples()
    ensures forall c: char :: c < '\U{200D}' ==> !InEmojiClass(c)
    ensures InEmojiClass('\U{4E2D}') && InEmojiClass('\U{1F600}')
  {
  }

  /** emoji_pattern.sub('', text): the pattern matches runs of class
      characters, so every class character goes and all others stay in order. */
  function DropEmojiChars(text: string): (r: string)
    ensures forall i :: 0 <= i < |r| ==> !InEmojiClass(r[i])
    ensures forall c :: !InEmojiClass(c) ==> multiset(r)[c] == multiset(text)[c]
  {
    RemoveWhere(text, InEmojiClass)
  }

  /** The smiley list as written. In a non-raw Python literal an unknown
      escape such as \) keeps its backslash, so most of these strings hold a
      backslash before the punctuation. */
  const SmileysAsWritten: seq<string> :=
    [":\\)", ":D", ":\\(=", ":P", ";\\)", ":\\|", ":\\/", ":O", ":\\*", ":'\\("]

  /** The same smileys without the stray backslashes. */
  const Smileys: seq<string> :=
    [":)", ":D", ":(=", ":P", ";)", ":|", ":/", ":O", ":*", ":'("]

  /** remove_emojis as written. Each re.sub(re.escape(smile), '', text)
      matches its smiley literally, so the smiley loop is str.replace of each
      smiley in turn, which is Transforms.RemoveWords. */
  function RemoveEmojisAsWritten(text: string): string {
    DropEmojiChars(Transforms.RemoveWords(text, SmileysAsWritten))
  }

  /** remove_emojis with the smileys as they are typed. */
  function RemoveEmojis(text: string): (r: string)
    ensures forall i :: 0 <= i < |r| ==> !InEmojiClass(r[i])
    ensures |r| <= |text|
  {
    var t := Transforms.RemoveWords(text, Smileys);
    RemoveWhereLength(t, InEmojiClass);
    DropEmojiChars(t)
  }

  /** A text with no smiley in it and no character of the class comes out unchanged. */
  lemma RemoveEmojisKeepsPlain(text: string)
    requires forall k :: 0 <= k < |Smileys| ==> !Occurs(Smileys[k], text)
    requires forall i :: 0 <= i < |text| ==> !InEmojiClass(text[i])
    ensures RemoveEmojis(text) == text
  {
    Transforms.RemoveWordsAbsent(text, Smileys);
    RemoveWhereNone(text, InEmojiClass);
  }

  /** As written, the typed smiley ":)" survives remove_emojis. */
  lemma AsWrittenKeepsSmiley()
    ensures RemoveEmojisAsWritten(":)") == ":)"
  {
    var t: string := ":)";
    forall k | 0 <= k < |SmileysAsWritten| ensures !Occurs(SmileysAsWritten[k], t) {
      var w := SmileysAsWritten[k];
      forall i | 0 <= i <= |t| ensures !(w <= t[i..]) {
        assert |w| > 2 || w[1] != ')';
        if |w| <= |t[i..]| {
          assert t[i..][1] == ')';
        }
      }
    }
    Transforms.RemoveWordsAbsent(t, SmileysAsWritten);
    RemoveWhereNone(t, InEmojiClass);
  }

  /** With the smileys as typed, ":)" is removed. */
  lemma RemovesSmiley()
    ensures RemoveEmojis(":)") == []
  {
    var t: string := ":)";
    assert RemoveAll(t, ":)") == [] by {
      assert t[..2] == ":)";
      assert t[2..] == [];
    }
    assert RemoveAll([], ":D") == [];
    var ws := Smileys;
    Transforms.RemoveWordsStep(t, [], ":)");
    assert Transforms.RemoveWords(t, [":)"]) == [];
    assert forall k :: 1 <= k < |ws| ==> RemoveAll([], ws[k]) == [];
    assert ws[..1] == [":)"];
    var k := 1;
    while k < |ws|
      invariant 1 <= k <= |ws|
      invariant Transforms.RemoveWords(t, ws[..k]) == []
    {
      Transforms.RemoveWordsStep(t, ws[..k], ws[k]);
      assert ws[..k + 1] == ws[..k] + [ws[k]];
      k := k + 1;
    }
    assert ws[..|ws|] == ws;
  }
}

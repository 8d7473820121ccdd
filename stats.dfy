/** The counts of show_stats. The character classes of Python's str.isdigit
    and str.isalpha are passed in as predicates. */
module Stats {
  import opened Strings

  datatype TextStats = TextStats(
    chars: nat,
    charsNoSpace: nat,
    words: nat,
    lines: nat,
    digits: nat,
    letters: nat,
    special: int)

  /** len(s.split()): the number of maximal runs of non-whitespace characters.
      prevSpace says whether the character before s was whitespace (or s starts
      the text). */
  function WordsFrom(s: string, prevSpace: bool): nat
    decreases |s|
  {
    if s == [] then 0
    else (if prevSpace && !IsSpace(s[0]) then 1 else 0) + WordsFrom(s[1..], IsSpace(s[0]))
  }

  function WordCount(s: string): nat {
    WordsFrom(s, true)
  }

  /** The statistics dialog, field for field as show_stats computes them. */
  function ShowStats(text: string, isDigit: char -> bool, isAlpha: char -> bool): TextStats {
    var chars := |text|;
    var digits := CountWhere(text, isDigit);
    var letters := CountWhere(text, isAlpha);
    TextStats(
      chars,
      |DropChars(text, " ")|,
      WordCount(text),
      Count(text, '\n') + 1,
      digits,
      letters,
      chars - digits - letters - Count(text, ' ') - Count(text, '\n'))
  }

  /** What the special-character count needs of Python's classes: no
      character is both a digit and a letter, and neither space nor newline is
      either. */
  ghost predicate ClassesApart(isDigit: char -> bool, isAlpha: char -> bool) {
    && (forall c :: !(isDigit(c) && isAlpha(c)))
    && !isDigit(' ') && !isAlpha(' ') && !isDigit('\n') && !isAlpha('\n')
  }

  /** The characters show_stats calls special: none of digit, letter, space, newline. */
  function OtherChar(isDigit: char -> bool, isAlpha: char -> bool): char -> bool {
    c => !isDigit(c) && !isAlpha(c) && c != ' ' && c != '\n'
  }

  /** Every character is a digit, a letter, a space, a newline or special. */
  lemma {:induction false} CountPartition(s: string, isDigit: char -> bool, isAlpha: char -> bool)
    requires ClassesApart(isDigit, isAlpha)
    ensures |s| == CountWhere(s, isDigit) + CountWhere(s, isAlpha) + Count(s, ' ') + Count(s, '\n')
                   + CountWhere(s, OtherChar(isDigit, isAlpha))
    decreases |s|
  {
    if s != [] {
      CountPartition(s[1..], isDigit, isAlpha);
      assert s == [s[0]] + s[1..];
    }
  }

  /** The space-free length is the length less the number of spaces. */
  lemma CharsNoSpace(text: string, isDigit: char -> bool, isAlpha: char -> bool)
    ensures ShowStats(text, isDigit, isAlpha).charsNoSpace == |text| - Count(text, ' ')
  {
    RemoveWhereLength(text, c => c in " ");
    CountWhereOne(text, c => c in " ", ' ');
  }

  /** When the classes are apart, the special count is exactly the number of
      other characters, so it is never negative. */
  lemma SpecialIsOtherChars(text: string, isDigit: char -> bool, isAlpha: char -> bool)
    requires ClassesApart(isDigit, isAlpha)
    ensures ShowStats(text, isDigit, isAlpha).special == CountWhere(text, OtherChar(isDigit, isAlpha))
    ensures ShowStats(text, isDigit, isAlpha).special >= 0
  {
    CountPartition(text, isDigit, isAlpha);
  }

  /** The word count is zero exactly for blank text: a leading non-whitespace
      character starts a word, and leading whitespace is skipped. */
  lemma {:induction false} WordCountZero(s: string)
    ensures WordCount(s) == 0 <==> AllSpace(s)
    decreases |s|
  {
    if s != [] && IsSpace(s[0]) {
      WordCountZero(s[1..]);
      assert AllSpace(s) <==> AllSpace(s[1..]);
    }
  }

  /** There is always at least one line, and one more per newline. */
  lemma LinesCount(text: string, isDigit: char -> bool, isAlpha: char -> bool)
    ensures ShowStats(text, isDigit, isAlpha).lines >= 1
    ensures ShowStats(text, isDigit, isAlpha).lines == |Split(text, '\n')|
  {
    SplitPieces(text, '\n');
  }
}

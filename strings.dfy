/** String primitives of Python that the editor's transforms are built from:
    str.isspace, str.strip, str.split(sep), str.count, str.replace(w, "")
    and character filters written as join comprehensions. */
module Strings {

  /** Python's str.isspace() for one character: the ASCII controls TAB..CR and
      FS..US, SPACE, NEL, NO-BREAK SPACE and the Unicode space separators. */
  predicate IsSpace(c: char) {
    || c == ' '
    || ('\t' <= c <= '\r')
    || ('\U{1C}' <= c <= '\U{1F}')
    || c == '\U{85}' || c == '\U{A0}' || c == '\U{1680}'
    || ('\U{2000}' <= c <= '\U{200A}')
    || c == '\U{2028}' || c == '\U{2029}' || c == '\U{202F}' || c == '\U{205F}'
    || c == '\U{3000}'
  }

  ghost predicate AllSpace(s: string) {
    forall i :: 0 <= i < |s| ==> IsSpace(s[i])
  }

  /** Python's s.count(c) for a one-character c. */
  function Count(s: string, c: char): nat {
    multiset(s)[c]
  }

  /** w occurs in s as a contiguous substring (Python's `w in s`). */
  ghost predicate Occurs(w: string, s: string) {
    exists i :: 0 <= i <= |s| && w <= s[i..]
  }

  // ---------------------------------------------------------------------------
  // Character filters

  /** ''.join(c for c in s if not drop(c)): the characters of s that drop
      rejects are removed, the others are kept in their original order. */
  function RemoveWhere(s: string, drop: char -> bool): (r: string)
    ensures |r| <= |s|
    ensures forall i :: 0 <= i < |r| ==> !drop(r[i])
    ensures forall c :: multiset(r)[c] == if drop(c) then 0 else multiset(s)[c]
    decreases |s|
  {
    if s == [] then []
    else
      assert s == [s[0]] + s[1..];
      (if drop(s[0]) then [] else [s[0]]) + RemoveWhere(s[1..], drop)
  }

  /** A filter that rejects nothing it sees returns its input. */
  lemma {:induction false} RemoveWhereNone(s: string, drop: char -> bool)
    requires forall i :: 0 <= i < |s| ==> !drop(s[i])
    ensures RemoveWhere(s, drop) == s
    decreases |s|
  {
    if s != [] {
      RemoveWhereNone(s[1..], drop);
    }
  }

  /** Filtering by p and then by q is filtering by "p or q". */
  lemma {:induction false} RemoveWhereTwice(s: string, p: char -> bool, q: char -> bool, both: char -> bool)
    requires forall c :: both(c) == (p(c) || q(c))
    ensures RemoveWhere(RemoveWhere(s, p), q) == RemoveWhere(s, both)
    decreases |s|
  {
    if s != [] {
      RemoveWhereTwice(s[1..], p, q, both);
      var t := RemoveWhere(s[1..], p);
      if p(s[0]) {
        assert RemoveWhere(s, p) == t;
      } else {
        assert RemoveWhere(s, p) == [s[0]] + t;
        assert ([s[0]] + t)[1..] == t;
      }
    }
  }

  /** A filter is idempotent. */
  lemma RemoveWhereIdempotent(s: string, drop: char -> bool)
    ensures RemoveWhere(RemoveWhere(s, drop), drop) == RemoveWhere(s, drop)
  {
    RemoveWhereTwice(s, drop, drop, drop);
  }

  /** sum(p(c) for c in s): how many characters of s satisfy p. */
  function CountWhere(s: string, p: char -> bool): (n: nat)
    ensures n <= |s|
    decreases |s|
  {
    if s == [] then 0 else (if p(s[0]) then 1 else 0) + CountWhere(s[1..], p)
  }

  /** Removing the characters of a class shortens the text by their count. */
  lemma {:induction false} RemoveWhereLength(s: string, p: char -> bool)
    ensures |RemoveWhere(s, p)| == |s| - CountWhere(s, p)
    decreases |s|
  {
    if s != [] {
      RemoveWhereLength(s[1..], p);
    }
  }

  /** Counting the characters equal to c is Python's count(c). */
  lemma {:induction false} CountWhereOne(s: string, p: char -> bool, c: char)
    requires forall x :: p(x) == (x == c)
    ensures CountWhere(s, p) == Count(s, c)
    decreases |s|
  {
    if s != [] {
      CountWhereOne(s[1..], p, c);
      assert s == [s[0]] + s[1..];
    }
  }

  /** Drops every character of s that occurs in cs, keeping the others in order. */
  function DropChars(s: string, cs: string): (r: string)
    ensures |r| <= |s|
    ensures forall i :: 0 <= i < |r| ==> r[i] !in cs
    ensures forall c :: c !in cs ==> multiset(r)[c] == multiset(s)[c]
  {
    RemoveWhere(s, c => c in cs)
  }

  /** Dropping the characters of a and then those of b drops those of a + b. */
  lemma DropCharsTwice(s: string, a: string, b: string)
    ensures DropChars(DropChars(s, a), b) == DropChars(s, a + b)
  {
    RemoveWhereTwice(s, c => c in a, c => c in b, c => c in a + b);
  }

  // ---------------------------------------------------------------------------
  // str.replace(w, "")

  /** Python's s.replace(w, ""): scans s left to right and deletes each
      non-overlapping occurrence of w; replacing the empty string changes nothing. */
  function RemoveAll(s: string, w: string): (r: string)
    ensures |r| <= |s|
    decreases |s|
  {
    if w == [] || |s| < |w| then s
    else if s[..|w|] == w then RemoveAll(s[|w|..], w)
    else [s[0]] + RemoveAll(s[1..], w)
  }

  /** Where w does not occur, replace leaves the text as it is. */
  lemma {:induction false} RemoveAllAbsent(s: string, w: string)
    requires !Occurs(w, s)
    ensures RemoveAll(s, w) == s
    decreases |s|
  {
    if w != [] && |s| >= |w| {
      assert !(w <= s[0..]);
      assert !Occurs(w, s[1..]) by {
        forall i | 0 <= i <= |s[1..]| ensures !(w <= s[1..][i..]) {
          assert s[1..][i..] == s[i + 1..];
        }
      }
      RemoveAllAbsent(s[1..], w);
    }
  }

  /** Replacing a one-character string deletes every occurrence of that
      character, and only those. */
  lemma {:induction false} RemoveAllChar(s: string, c: char)
    ensures RemoveAll(s, [c]) == DropChars(s, [c])
    decreases |s|
  {
    if s != [] {
      RemoveAllChar(s[1..], c);
      assert s[..1] == [s[0]];
      assert DropChars(s, [c]) == (if s[0] == c then [] else [s[0]]) + DropChars(s[1..], [c]);
    }
  }

  /** Replace is not a removal of every occurrence: an occurrence can be formed
      by what is left around a deleted one. */
  lemma RemoveAllCanLeaveWord()
    ensures RemoveAll("aabb", "ab") == "ab"
    ensures Occurs("ab", RemoveAll("aabb", "ab"))
  {
    assert "aabb"[..2] == "aa";
    assert "aabb"[1..] == "abb";
    assert "abb"[..2] == "ab";
    assert "abb"[2..] == "b";
    assert RemoveAll("b", "ab") == "b";
    assert RemoveAll("abb", "ab") == "b";
    assert "ab" <= "ab"[0..];
  }

  // ---------------------------------------------------------------------------
  // str.split(sep) and sep.join

  /** sep.join(parts). */
  function Join(parts: seq<string>, sep: char): string
    requires |parts| >= 1
    decreases |parts|
  {
    if |parts| == 1 then parts[0] else parts[0] + [sep] + Join(parts[1..], sep)
  }

  /** Python's s.split(sep) for a one-character separator: the maximal pieces
      between separators, empty pieces included; "" gives [""]. */
  function Split(s: string, sep: char): (parts: seq<string>)
    ensures |parts| >= 1
    ensures forall k :: 0 <= k < |parts| ==> sep !in parts[k]
    ensures Join(parts, sep) == s
    decreases |s|
  {
    if s == [] then [[]]
    else
      assert s == [s[0]] + s[1..];
      var rest := Split(s[1..], sep);
      if s[0] == sep then [[]] + rest
      else [[s[0]] + rest[0]] + rest[1..]
  }

  /** There is one more piece than there are separators. */
  lemma {:induction false} SplitPieces(s: string, sep: char)
    ensures |Split(s, sep)| == Count(s, sep) + 1
    decreases |s|
  {
    if s != [] {
      SplitPieces(s[1..], sep);
      assert s == [s[0]] + s[1..];
    }
  }

  /** How Split treats the first character of its input. */
  lemma SplitCons(c: char, s: string, sep: char)
    ensures Split([c] + s, sep) ==
      if c == sep then [[]] + Split(s, sep)
      else [[c] + Split(s, sep)[0]] + Split(s, sep)[1..]
  {
    assert ([c] + s)[1..] == s;
  }

  /** Splitting a join of separator-free pieces gives the pieces back. */
  lemma {:induction false} SplitJoin(parts: seq<string>, sep: char)
    requires |parts| >= 1
    requires forall k :: 0 <= k < |parts| ==> sep !in parts[k]
    ensures Split(Join(parts, sep), sep) == parts
    decreases |parts|, |parts[0]|
  {
    var p := parts[0];
    if p == [] {
      if |parts| > 1 {
        var rest := parts[1..];
        SplitJoin(rest, sep);
        assert Join(parts, sep) == [sep] + Join(rest, sep);
        SplitCons(sep, Join(rest, sep), sep);
        assert parts == [[]] + rest;
      }
    } else {
      var shorter := [p[1..]] + parts[1..];
      assert shorter[1..] == parts[1..];
      assert p[0] != sep;
      SplitJoin(shorter, sep);
      var j := Join(shorter, sep);
      assert Join(parts, sep) == [p[0]] + j;
      SplitCons(p[0], j, sep);
      assert [p[0]] + p[1..] == p;
      assert parts == [p] + parts[1..];
    }
  }

  // ---------------------------------------------------------------------------
  // str.strip()

  /** s.lstrip(): drops leading whitespace. */
  function TrimStart(s: string): (r: string)
    ensures |r| <= |s| && r == s[|s| - |r|..]
    ensures r == [] || !IsSpace(r[0])
    decreases |s|
  {
    if s != [] && IsSpace(s[0]) then TrimStart(s[1..]) else s
  }

  /** s.rstrip(): drops trailing whitespace. */
  function TrimEnd(s: string): (r: string)
    ensures |r| <= |s| && r == s[..|r|]
    ensures r == [] || !IsSpace(r[|r| - 1])
    decreases |s|
  {
    if s != [] && IsSpace(s[|s| - 1]) then TrimEnd(s[..|s| - 1]) else s
  }

  /** What lstrip drops is whitespace. */
  lemma {:induction false} TrimStartDropsSpace(s: string)
    ensures AllSpace(s[..|s| - |TrimStart(s)|])
    decreases |s|
  {
    if s != [] && IsSpace(s[0]) {
      var t := s[1..];
      TrimStartDropsSpace(t);
      var k := |t| - |TrimStart(t)|;
      forall i | 0 <= i < k + 1 ensures IsSpace(s[i]) {
        if i > 0 {
          assert s[i] == t[..k][i - 1];
        }
      }
    }
  }

  /** What rstrip drops is whitespace. */
  lemma {:induction false} TrimEndDropsSpace(s: string)
    ensures AllSpace(s[|TrimEnd(s)|..])
    decreases |s|
  {
    if s != [] && IsSpace(s[|s| - 1]) {
      var t := s[..|s| - 1];
      TrimEndDropsSpace(t);
      var m := |TrimEnd(t)|;
      forall i | m <= i < |s| ensures IsSpace(s[i]) {
        if i < |t| {
          assert s[i] == t[m..][i - m];
        }
      }
    }
  }

  /** Python's s.strip(): s without its leading and trailing whitespace. */
  function Strip(s: string): (r: string)
    ensures |r| <= |s|
    ensures r == [] || (!IsSpace(r[0]) && !IsSpace(r[|r| - 1]))
    decreases |s|
  {
    if s == [] then s
    else if IsSpace(s[0]) then Strip(s[1..])
    else if IsSpace(s[|s| - 1]) then Strip(s[..|s| - 1])
    else s
  }

  /** Stripping both ends at once is stripping the front, then the back. */
  lemma {:induction false} StripTrims(s: string)
    ensures Strip(s) == TrimEnd(TrimStart(s))
    decreases |s|
  {
    if s != [] {
      if IsSpace(s[0]) {
        StripTrims(s[1..]);
      } else if IsSpace(s[|s| - 1]) {
        var t := s[..|s| - 1];
        StripTrims(t);
        TrimStartNoop(t);
        TrimStartNoop(s);
      } else {
        TrimStartNoop(s);
        TrimEndNoop(s);
      }
    }
  }

  /** s holds r at position k, with only whitespace before and after. */
  ghost predicate IsSliceWithSpaceAround(s: string, k: int, r: string) {
    0 <= k <= |s| - |r| && s[k..k + |r|] == r && AllSpace(s[..k]) && AllSpace(s[k + |r|..])
  }

  /** A whitespace-framed prefix r of a whitespace-framed suffix t of s is a
      whitespace-framed slice of s. */
  lemma SliceOfSuffix(s: string, t: string, r: string)
    requires |t| <= |s| && t == s[|s| - |t|..] && AllSpace(s[..|s| - |t|])
    requires |r| <= |t| && r == t[..|r|] && AllSpace(t[|r|..])
    ensures IsSliceWithSpaceAround(s, |s| - |t|, r)
  {
    var k := |s| - |t|;
    assert s[k..k + |r|] == r;
    assert s[k + |r|..] == t[|r|..];
  }

  /** The stripped text is a slice of s, and everything around it is
      whitespace. */
  lemma StripSlice(s: string)
    ensures var r := Strip(s);
      exists k :: IsSliceWithSpaceAround(s, k, r)
  {
    var t := TrimStart(s);
    var r := TrimEnd(t);
    StripTrims(s);
    TrimStartDropsSpace(s);
    TrimEndDropsSpace(t);
    SliceOfSuffix(s, t, r);
  }

  lemma {:induction false} TrimStartNoop(s: string)
    requires s == [] || !IsSpace(s[0])
    ensures TrimStart(s) == s
  {
  }

  lemma {:induction false} TrimEndNoop(s: string)
    requires s == [] || !IsSpace(s[|s| - 1])
    ensures TrimEnd(s) == s
  {
  }

  /** Stripping twice is stripping once. */
  lemma StripIdempotent(s: string)
    ensures Strip(Strip(s)) == Strip(s)
  {
  }

  /** A whitespace-only text strips to the empty string. */
  lemma {:induction false} StripAllSpace(s: string)
    requires AllSpace(s)
    ensures Strip(s) == []
    decreases |s|
  {
    if s != [] {
      assert AllSpace(s[1..]) by {
        forall i | 0 <= i < |s[1..]| ensures IsSpace(s[1..][i]) {
          assert s[1..][i] == s[i + 1];
        }
      }
      StripAllSpace(s[1..]);
    }
  }
}

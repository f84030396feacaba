/**
 * The few Python string operations the transcoder relies on, on `string`
 * (a sequence of code points): `needle in hay`, `str.strip()`,
 * `str.split(" ")`, `str.replace(old, new)` and `str.lower()`.
 */
module Text {

  /** Python's `str.isspace()` for one character. */
  predicate IsSpace(c: char) {
    var n := c as int;
    n == 0x20 || (0x09 <= n <= 0x0D) || (0x1C <= n <= 0x1F) || n == 0x85 || n == 0xA0
    || n == 0x1680 || (0x2000 <= n <= 0x200A) || n == 0x2028 || n == 0x2029
    || n == 0x202F || n == 0x205F || n == 0x3000
  }

  /** `needle` occurs in `hay` starting at index `i`. */
  predicate OccursAt(hay: string, needle: string, i: int) {
    0 <= i && i + |needle| <= |hay| && hay[i..i + |needle|] == needle
  }

  lemma ShiftOccurs(hay: string, needle: string)
    requires |hay| > 0 && !OccursAt(hay, needle, 0)
    ensures (exists i :: OccursAt(hay, needle, i)) <==> (exists i :: OccursAt(hay[1..], needle, i))
  {
    forall i | OccursAt(hay, needle, i)
      ensures OccursAt(hay[1..], needle, i - 1)
    {
      assert hay[1..][i - 1..i - 1 + |needle|] == hay[i..i + |needle|];
    }
    forall i | OccursAt(hay[1..], needle, i)
      ensures OccursAt(hay, needle, i + 1)
    {
      assert hay[1..][i..i + |needle|] == hay[i + 1..i + 1 + |needle|];
    }
  }

  /** Python's `needle in hay` on two strings: a substring test. */
  function Contains(hay: string, needle: string): (r: bool)
    ensures r <==> exists i :: OccursAt(hay, needle, i)
    decreases |hay|
  {
    if |needle| > |hay| then
      false
    else if hay[..|needle|] == needle then
      assert OccursAt(hay, needle, 0);
      true
    else
      ShiftOccurs(hay, needle);
      Contains(hay[1..], needle)
  }

  /** The empty string is in every string, and a longer string is in none. */
  lemma ContainsByLength(hay: string, needle: string)
    ensures needle == "" ==> Contains(hay, needle)
    ensures |needle| > |hay| ==> !Contains(hay, needle)
    ensures |needle| == |hay| ==> (Contains(hay, needle) <==> needle == hay)
  {
    if needle == "" {
      assert OccursAt(hay, needle, 0);
    }
    if |needle| == |hay| && Contains(hay, needle) {
      var i :| OccursAt(hay, needle, i);
      assert i == 0;
      assert hay[0..|hay|] == hay;
    }
  }

  /** The string without its leading whitespace. */
  function TrimStart(s: string): (r: string)
    ensures |r| <= |s| && r == s[|s| - |r|..]
    ensures r == [] || !IsSpace(r[0])
    ensures forall i :: 0 <= i < |s| - |r| ==> IsSpace(s[i])
  {
    if s != [] && IsSpace(s[0]) then TrimStart(s[1..]) else s
  }

  /** The string without its trailing whitespace. */
  function TrimEnd(s: string): (r: string)
    ensures |r| <= |s| && r == s[..|r|]
    ensures r == [] || !IsSpace(r[|r| - 1])
    ensures forall i :: |r| <= i < |s| ==> IsSpace(s[i])
  {
    if s != [] && IsSpace(s[|s| - 1]) then TrimEnd(s[..|s| - 1]) else s
  }

  /** `r` is the slice of `s` at `i`, and everything of `s` around it is whitespace. */
  predicate Inside(s: string, r: string, i: int) {
    0 <= i <= |s| - |r| && r == s[i..i + |r|]
    && (forall k :: 0 <= k < i ==> IsSpace(s[k]))
    && (forall k :: i + |r| <= k < |s| ==> IsSpace(s[k]))
  }

  lemma StripInside(s: string, t: string, r: string)
    requires |t| <= |s| && t == s[|s| - |t|..] && forall k :: 0 <= k < |s| - |t| ==> IsSpace(s[k])
    requires |r| <= |t| && r == t[..|r|] && forall k :: |r| <= k < |t| ==> IsSpace(t[k])
    ensures Inside(s, r, |s| - |t|)
  {
    var i := |s| - |t|;
    forall k | i + |r| <= k < |s| ensures IsSpace(s[k]) {
      assert s[k] == t[k - i];
    }
    assert r == s[i..i + |r|];
  }

  /**
   * Python's `str.strip()` with no argument: the part of `s` left when the
   * whitespace at both ends is dropped.
   */
  function Strip(s: string): (r: string)
    ensures |r| <= |s|
    ensures r == [] || (!IsSpace(r[0]) && !IsSpace(r[|r| - 1]))
    ensures exists i :: Inside(s, r, i)
  {
    var t := TrimStart(s);
    var r := TrimEnd(t);
    StripInside(s, t, r);
    r
  }

  /** Joins `parts` with `sep` between consecutive parts: Python's `sep.join(parts)`. */
  function JoinWith(parts: seq<string>, sep: char): string
    requires |parts| > 0
  {
    if |parts| == 1 then parts[0] else parts[0] + [sep] + JoinWith(parts[1..], sep)
  }

  /**
   * Python's `s.split(sep)` for a one-character separator: the pieces between
   * separators, empty pieces included, so that joining them back with the
   * separator gives `s` again.
   */
  function Split(s: string, sep: char): (r: seq<string>)
    ensures |r| > 0
    ensures forall i :: 0 <= i < |r| ==> sep !in r[i]
    ensures JoinWith(r, sep) == s
  {
    if s == [] then
      [""]
    else
      var rest := Split(s[1..], sep);
      if s[0] == sep then
        assert ([""] + rest)[1..] == rest;
        [""] + rest
      else
        var r := [[s[0]] + rest[0]] + rest[1..];
        assert r[1..] == rest[1..];
        assert s == [s[0]] + s[1..];
        r
  }

  /** All parts written one after the other. */
  function Concat(parts: seq<string>): string {
    if parts == [] then "" else parts[0] + Concat(parts[1..])
  }

  /**
   * Python's `list(filter(lambda a: a != '', parts))`: every non-empty part
   * is kept, as often as it occurs, and no empty one.
   */
  function NonEmpty(parts: seq<string>): (r: seq<string>)
    ensures forall i :: 0 <= i < |r| ==> r[i] != ""
    ensures forall i :: 0 <= i < |r| ==> r[i] in parts
    ensures forall x :: x != "" ==> multiset(r)[x] == multiset(parts)[x]
    ensures Concat(r) == Concat(parts)
  {
    if parts == [] then []
    else
      var rest := NonEmpty(parts[1..]);
      var r := if parts[0] == "" then rest else [parts[0]] + rest;
      NonEmptyCounts(parts, rest, r);
      r
  }

  lemma NonEmptyCounts(parts: seq<string>, rest: seq<string>, r: seq<string>)
    requires |parts| > 0
    requires forall x :: x != "" ==> multiset(rest)[x] == multiset(parts[1..])[x]
    requires r == if parts[0] == "" then rest else [parts[0]] + rest
    ensures forall x :: x != "" ==> multiset(r)[x] == multiset(parts)[x]
  {
    assert parts == [parts[0]] + parts[1..];
  }

  /** The filter keeps the order of the parts: it distributes over concatenation. */
  lemma {:induction false} NonEmptyAppend(a: seq<string>, b: seq<string>)
    ensures NonEmpty(a + b) == NonEmpty(a) + NonEmpty(b)
    decreases |a|
  {
    if a == [] {
      assert a + b == b;
    } else {
      assert (a + b)[0] == a[0];
      assert (a + b)[1..] == a[1..] + b;
      NonEmptyAppend(a[1..], b);
    }
  }

  /** Parts that are all non-empty pass the filter unchanged. */
  lemma {:induction false} NonEmptyKeepsWords(parts: seq<string>)
    requires forall i :: 0 <= i < |parts| ==> parts[i] != ""
    ensures NonEmpty(parts) == parts
    decreases |parts|
  {
    if parts != [] {
      NonEmptyKeepsWords(parts[1..]);
    }
  }

  /**
   * Python's `s.replace(pat, rep)`: every occurrence of `pat`, scanning from
   * the left and without overlaps, is replaced by `rep`.
   */
  function ReplaceAll(s: string, pat: string, rep: string): (r: string)
    requires |pat| > 0
    ensures rep == "" ==> |r| <= |s|
    decreases |s|
  {
    if |s| < |pat| then
      s
    else if s[..|pat|] == pat then
      rep + ReplaceAll(s[|pat|..], pat, rep)
    else
      [s[0]] + ReplaceAll(s[1..], pat, rep)
  }

  /** Where the pattern does not start the string, its first character is kept. */
  lemma ReplaceAllPrepend(c: char, s: string, pat: string, rep: string)
    requires |pat| > 0 && |s| + 1 >= |pat| && ([c] + s)[..|pat|] != pat
    ensures ReplaceAll([c] + s, pat, rep) == [c] + ReplaceAll(s, pat, rep)
  {
    var t := [c] + s;
    assert t[1..] == s;
  }

  /**
   * A character equal to the head of a pattern that starts the string, put in
   * front, is kept when the pattern's second character differs from its head.
   */
  lemma ReplaceAllPrependHead(c: char, s: string, pat: string, rep: string)
    requires |pat| >= 2 && |s| >= |pat| && s[..|pat|] == pat
    requires c == pat[0] && pat[1] != pat[0]
    ensures ReplaceAll([c] + s, pat, rep) == [c] + ReplaceAll(s, pat, rep)
  {
    assert s[0] == s[..|pat|][0];
    assert ([c] + s)[..|pat|][1] == s[0];
    ReplaceAllPrepend(c, s, pat, rep);
  }

  /** Where the pattern starts the string, it is replaced. */
  lemma ReplaceAllMatch(s: string, pat: string, rep: string)
    requires |pat| > 0
    ensures ReplaceAll(pat + s, pat, rep) == rep + ReplaceAll(s, pat, rep)
  {
    var t := pat + s;
    assert t[..|pat|] == pat;
    assert t[|pat|..] == s;
  }

  /** Removing a pattern leaves the string as it was exactly when the pattern is not in it. */
  lemma {:induction false} RemoveAllUnchangedIff(s: string, pat: string)
    requires |pat| > 0
    ensures ReplaceAll(s, pat, "") == s <==> !Contains(s, pat)
    decreases |s|
  {
    if |s| >= |pat| {
      if s[..|pat|] == pat {
        assert OccursAt(s, pat, 0);
        assert |ReplaceAll(s[|pat|..], pat, "")| <= |s| - |pat|;
      } else {
        ShiftOccurs(s, pat);
        RemoveAllUnchangedIff(s[1..], pat);
        assert s == [s[0]] + s[1..];
      }
    } else {
      assert !Contains(s, pat);
    }
  }

  /** Removing one character distributes over concatenation. */
  lemma {:induction false} RemoveCharAppend(a: string, b: string, c: char)
    ensures ReplaceAll(a + b, [c], "") == ReplaceAll(a, [c], "") + ReplaceAll(b, [c], "")
    decreases |a|
  {
    if a == [] {
      assert a + b == b;
    } else {
      assert (a + b)[1..] == a[1..] + b;
      assert (a + b)[..1] == a[..1];
      RemoveCharAppend(a[1..], b, c);
    }
  }

  /** Removing the separator from the joined parts concatenates them. */
  lemma {:induction false} RemoveSeparatorOfJoin(parts: seq<string>, sep: char)
    requires |parts| > 0
    requires forall i :: 0 <= i < |parts| ==> sep !in parts[i]
    ensures ReplaceAll(JoinWith(parts, sep), [sep], "") == Concat(parts)
    decreases |parts|
  {
    NoCharUnchanged(parts[0], sep);
    if |parts| == 1 {
      assert Concat(parts[1..]) == "";
    } else {
      var rest := parts[1..];
      assert forall i :: 0 <= i < |rest| ==> sep !in rest[i] by {
        forall i | 0 <= i < |rest| ensures sep !in rest[i] {
          assert rest[i] == parts[i + 1];
        }
      }
      RemoveSeparatorOfJoin(rest, sep);
      RemoveSeparatorStep(parts, sep);
    }
  }

  lemma RemoveSeparatorStep(parts: seq<string>, sep: char)
    requires |parts| > 1 && sep !in parts[0]
    requires ReplaceAll(JoinWith(parts[1..], sep), [sep], "") == Concat(parts[1..])
    ensures ReplaceAll(JoinWith(parts, sep), [sep], "") == Concat(parts)
  {
    var p0, j := parts[0], JoinWith(parts[1..], sep);
    calc {
      ReplaceAll(JoinWith(parts, sep), [sep], "");
      { assert JoinWith(parts, sep) == p0 + ([sep] + j); }
      ReplaceAll(p0 + ([sep] + j), [sep], "");
      { RemoveCharAppend(p0, [sep] + j, sep); }
      ReplaceAll(p0, [sep], "") + ReplaceAll([sep] + j, [sep], "");
      { NoCharUnchanged(p0, sep); RemoveLeadingChar(j, sep); }
      p0 + Concat(parts[1..]);
    }
  }

  lemma RemoveLeadingChar(s: string, c: char)
    ensures ReplaceAll([c] + s, [c], "") == ReplaceAll(s, [c], "")
  {
    var t := [c] + s;
    assert t[..1] == [c];
    assert t[1..] == s;
  }

  lemma NoCharUnchanged(s: string, c: char)
    requires c !in s
    ensures ReplaceAll(s, [c], "") == s
  {
    forall i | 0 <= i < |s| ensures !OccursAt(s, [c], i) {
      assert s[i..i + 1][0] == s[i];
    }
    RemoveAllUnchangedIff(s, [c]);
  }

  /**
   * The tokens of an argument string, as the encoder command line takes
   * them at tabarnak/tabarnak.py:589-590: strip, split on single spaces,
   * drop the empty pieces.
   */
  function Tokens(s: string): seq<string> {
    NonEmpty(Split(Strip(s), ' '))
  }

  /**
   * Every token is non-empty and holds no space, and the tokens written one
   * after the other, in order, are the stripped string without its spaces.
   */
  lemma TokensShape(s: string)
    ensures forall i :: 0 <= i < |Tokens(s)| ==> Tokens(s)[i] != "" && ' ' !in Tokens(s)[i]
    ensures Concat(Tokens(s)) == ReplaceAll(Strip(s), " ", "")
  {
    var pieces := Split(Strip(s), ' ');
    RemoveSeparatorOfJoin(pieces, ' ');
    forall i | 0 <= i < |Tokens(s)| ensures ' ' !in Tokens(s)[i] {
      var t := Tokens(s)[i];
      assert t in pieces;
    }
  }

  /** A word of an argument string: non-empty and without whitespace. */
  predicate Word(w: string) {
    w != "" && forall i :: 0 <= i < |w| ==> !IsSpace(w[i])
  }

  /**
   * Words joined by single spaces are tokenised back into the same words:
   * the token boundaries are exactly the spaces between them.
   */
  lemma TokensOfWords(words: seq<string>)
    requires |words| > 0
    requires forall i :: 0 <= i < |words| ==> Word(words[i])
    ensures Tokens(JoinWith(words, ' ')) == words
  {
    var line := JoinWith(words, ' ');
    JoinWithEnds(words, ' ');
    StripUnchanged(line);
    assert IsSpace(' ');
    SplitOfJoin(words, ' ');
    NonEmptyKeepsWords(words);
  }

  /** A string whose ends are not whitespace is its own strip. */
  lemma StripUnchanged(s: string)
    requires s != [] && !IsSpace(s[0]) && !IsSpace(s[|s| - 1])
    ensures Strip(s) == s
  {
    var r := Strip(s);
    var i :| Inside(s, r, i);
    assert i == 0 && i + |r| == |s|;
    assert r == s[0..|s|];
  }

  /** Joined non-empty parts start with the first part's head and end with the last part's end. */
  lemma {:induction false} JoinWithEnds(parts: seq<string>, sep: char)
    requires |parts| > 0
    requires forall i :: 0 <= i < |parts| ==> parts[i] != ""
    ensures var j := JoinWith(parts, sep);
      j != [] && j[0] == parts[0][0] && j[|j| - 1] == parts[|parts| - 1][|parts[|parts| - 1]| - 1]
    decreases |parts|
  {
    if |parts| > 1 {
      JoinWithEnds(parts[1..], sep);
    }
  }

  /** Splitting joined parts that hold no separator gives the parts back. */
  lemma {:induction false} SplitOfJoin(parts: seq<string>, sep: char)
    requires |parts| > 0
    requires forall i :: 0 <= i < |parts| ==> sep !in parts[i]
    ensures Split(JoinWith(parts, sep), sep) == parts
    decreases |parts|
  {
    if |parts| == 1 {
      SplitPrefix(parts[0], "", sep);
      assert parts[0] + "" == parts[0];
    } else {
      var rest := parts[1..];
      assert forall i :: 0 <= i < |rest| ==> sep !in rest[i] by {
        forall i | 0 <= i < |rest| ensures sep !in rest[i] {
          assert rest[i] == parts[i + 1];
        }
      }
      SplitOfJoin(rest, sep);
      var t := [sep] + JoinWith(rest, sep);
      SplitAtSeparator(JoinWith(rest, sep), sep);
      SplitPrefix(parts[0], t, sep);
      assert JoinWith(parts, sep) == parts[0] + t;
      assert parts[0] + "" == parts[0];
      assert parts == [parts[0]] + rest;
    }
  }

  /** A leading separator splits off an empty piece. */
  lemma SplitAtSeparator(s: string, sep: char)
    ensures Split([sep] + s, sep) == [""] + Split(s, sep)
  {
    assert ([sep] + s)[1..] == s;
  }

  /** A separator-free prefix is glued to the first piece of the rest. */
  lemma {:induction false} SplitPrefix(w: string, t: string, sep: char)
    requires sep !in w
    ensures Split(w + t, sep) == [w + Split(t, sep)[0]] + Split(t, sep)[1..]
    decreases |w|
  {
    if w == [] {
      assert w + t == t;
      assert w + Split(t, sep)[0] == Split(t, sep)[0];
      assert Split(t, sep) == [Split(t, sep)[0]] + Split(t, sep)[1..];
    } else {
      SplitPrefix(w[1..], t, sep);
      var rest := Split(w[1..] + t, sep);
      assert (w + t)[0] == w[0] != sep;
      assert (w + t)[1..] == w[1..] + t;
      assert Split(w + t, sep) == [[w[0]] + rest[0]] + rest[1..];
      assert [w[0]] + (w[1..] + Split(t, sep)[0]) == w + Split(t, sep)[0];
    }
  }

  /** Python's `str.lower()` on one character, restricted to ASCII letters. */
  function LowerChar(c: char): char {
    if 'A' <= c <= 'Z' then (c as int + 32) as char else c
  }

  /** Python's `str.lower()`, with case mapping restricted to ASCII letters. */
  function Lower(s: string): (r: string)
    ensures |r| == |s|
    ensures forall i :: 0 <= i < |s| ==> r[i] == LowerChar(s[i])
  {
    if s == [] then [] else [LowerChar(s[0])] + Lower(s[1..])
  }

  /** Lower-casing twice is lower-casing once. */
  lemma LowerIdempotent(s: string)
    ensures Lower(Lower(s)) == Lower(s)
  {
  }

  /** A string with no upper-case ASCII letter is its own lower case. */
  lemma LowerOfLowerCase(s: string)
    requires forall i :: 0 <= i < |s| ==> !('A' <= s[i] <= 'Z')
    ensures Lower(s) == s
  {
  }
}

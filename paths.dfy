/**
 * The POSIX path operations the transcoder uses (`os.path.join` with two
 * arguments, `os.path.basename`, `os.path.splitext`), on plain strings.
 */
module Paths {
  import opened Wrappers

  predicate EndsWith(s: string, suffix: string) {
    |suffix| <= |s| && s[|s| - |suffix|..] == suffix
  }

  /**
   * `os.path.join(a, b)`: an absolute `b` replaces `a`; otherwise `b` follows
   * `a`, with a '/' put between them exactly when `a` is non-empty and does
   * not already end in one, so that a non-empty `a` is always followed by '/'.
   */
  function Join(a: string, b: string): (r: string)
    ensures EndsWith(r, b)
    ensures b != [] && b[0] == '/' ==> r == b
    ensures (b == [] || b[0] != '/') ==>
      var head := r[..|r| - |b|];
      (head == a || head == a + "/") && (head == a + "/" <==> a != [] && a[|a| - 1] != '/')
    ensures (b == [] || b[0] != '/') && a != [] ==> r[|r| - |b| - 1] == '/'
  {
    if b != [] && b[0] == '/' then b
    else if a == [] || a[|a| - 1] == '/' then a + b
    else a + "/" + b
  }

  /**
   * `os.path.basename(p)`: the longest suffix of `p` without a '/',
   * which is all of `p` or follows its last '/'.
   */
  function Basename(p: string): (r: string)
    ensures '/' !in r
    ensures EndsWith(p, r)
    ensures |r| < |p| ==> p[|p| - |r| - 1] == '/'
  {
    if p == [] then []
    else if p[|p| - 1] == '/' then []
    else
      var r := Basename(p[..|p| - 1]) + [p[|p| - 1]];
      assert p[..|p| - 1][|p| - 1 - (|r| - 1)..] + [p[|p| - 1]] == p[|p| - |r|..];
      r
  }

  /** Appending a '/'-free string to a path extends its base name by that string. */
  lemma {:induction false} BasenameAppend(p: string, s: string)
    requires '/' !in s
    ensures Basename(p + s) == Basename(p) + s
    decreases |s|
  {
    if s == [] {
      assert p + s == p;
    } else {
      var q := p + s[..|s| - 1];
      assert p + s == q + [s[|s| - 1]];
      assert (p + s)[..|p + s| - 1] == q;
      assert s[..|s| - 1] + [s[|s| - 1]] == s;
      BasenameAppend(p, s[..|s| - 1]);
    }
  }

  /** The base name of a joined path is the base name of its last component. */
  lemma BasenameOfJoin(a: string, b: string)
    ensures Basename(Join(a, b)) == Basename(b)
  {
    if b != [] && b[0] == '/' {
    } else if a == [] || a[|a| - 1] == '/' {
      BasenameAfterSlash(a, b);
    } else {
      assert a + "/" + b == (a + "/") + b;
      BasenameAfterSlash(a + "/", b);
    }
  }

  /** Past a prefix that is empty or ends in '/', the base name only looks at the rest. */
  lemma {:induction false} BasenameAfterSlash(a: string, b: string)
    requires a == [] || a[|a| - 1] == '/'
    ensures Basename(a + b) == Basename(b)
    decreases |b|
  {
    if b == [] {
      assert a + b == a;
    } else {
      var q := a + b[..|b| - 1];
      assert (a + b)[..|a + b| - 1] == q;
      BasenameAfterSlash(a, b[..|b| - 1]);
    }
  }

  /** The index of the last '.' in `s`, if any. */
  function LastDot(s: string): (r: Option<nat>)
    ensures r.None? ==> '.' !in s
    ensures r.Some? ==> r.value < |s| && s[r.value] == '.' && '.' !in s[r.value + 1..]
  {
    if s == [] then None
    else if s[|s| - 1] == '.' then Some(|s| - 1)
    else
      var r := LastDot(s[..|s| - 1]);
      assert r.Some? ==> s[r.value + 1..] == s[..|s| - 1][r.value + 1..] + [s[|s| - 1]];
      assert r.None? ==> s == s[..|s| - 1] + [s[|s| - 1]];
      r
  }

  /** The shape of an extension: a '.' followed by no '.' nor '/'. */
  predicate ExtShaped(e: string) {
    |e| > 0 && e[0] == '.' && '.' !in e[1..] && '/' !in e
  }

  /** Some character of the base name of `p` before its suffix `e` is not a '.'. */
  predicate NonDotBefore(p: string, e: string)
    requires |e| <= |p|
  {
    exists j :: |p| - |Basename(p)| <= j < |p| - |e| && p[j] != '.'
  }

  /** Some character of `s` is not a '.'. */
  predicate HasNonDot(s: string) {
    exists i :: 0 <= i < |s| && s[i] != '.'
  }

  /** Some '.' of `b` other than its first character has a non-dot before it. */
  predicate DotAfterName(b: string) {
    exists i :: 0 < i < |b| && b[i] == '.' && HasNonDot(b[..i])
  }

  /** Such a dot exists exactly when the last dot of `b` has a non-dot before it. */
  lemma DotAfterNameIff(b: string)
    ensures DotAfterName(b) <==> LastDot(b).Some? && HasNonDot(b[..LastDot(b).value])
  {
    var d := LastDot(b);
    if DotAfterName(b) {
      var i :| 0 < i < |b| && b[i] == '.' && HasNonDot(b[..i]);
      assert d.Some? by {
        assert b[i] in b;
      }
      assert d.value >= i;
      var j :| 0 <= j < i && b[..i][j] != '.';
      assert b[..d.value][j] != '.';
    }
    if d.Some? && HasNonDot(b[..d.value]) {
      var j :| 0 <= j < d.value && b[..d.value][j] != '.';
      assert j < d.value;
    }
  }

  /**
   * `os.path.splitext(p)` as `(root, ext)`: `ext` runs from the last '.' of
   * the base name to the end, provided that some character before that dot in
   * the base name is not a dot (so ".bashrc" and "..." have no extension);
   * otherwise `ext` is empty and `root` is all of `p`.
   */
  function SplitExt(p: string): (r: (string, string))
    ensures r.0 + r.1 == p
    ensures r.1 == [] || ExtShaped(r.1)
    ensures r.1 != [] ==> NonDotBefore(p, r.1)
    ensures r.1 != [] <==> DotAfterName(Basename(p))
  {
    var b := Basename(p);
    var d := LastDot(b);
    DotAfterNameIff(b);
    if d.Some? && HasNonDot(b[..d.value]) then
      ExtensionShape(p, b, d.value);
      (p[..|p| - |b| + d.value], p[|p| - |b| + d.value..])
    else
      (p, "")
  }

  /** Cutting the path at the last dot of its base name gives the shape `SplitExt` promises. */
  lemma ExtensionShape(p: string, b: string, d: nat)
    requires |b| <= |p| && p[|p| - |b|..] == b && '/' !in b
    requires d < |b| && b[d] == '.' && '.' !in b[d + 1..]
    requires HasNonDot(b[..d])
    ensures var k := |p| - |b| + d;
      var e := p[k..];
      p[..k] + e == p && ExtShaped(e) && NonDotBefore(p, e)
  {
    var k := |p| - |b| + d;
    var e := p[k..];
    assert e == b[d..];
    assert e[1..] == b[d + 1..];
    assert forall c :: c in e ==> c in b;
    var i :| 0 <= i < d && b[..d][i] != '.';
    assert p[|p| - |b| + i] == b[i];
  }

  /**
   * The extension of a path that ends with `e`, an extension-shaped suffix
   * (a '.' followed by no '.' or '/'), is either `e` itself or empty.
   */
  lemma ExtOfDottedSuffix(p: string, e: string)
    requires EndsWith(p, e)
    requires ExtShaped(e)
    ensures SplitExt(p).1 == e || SplitExt(p).1 == ""
  {
    var ext := SplitExt(p).1;
    if ext != "" && |ext| != |e| {
      assert false;
    }
  }
}

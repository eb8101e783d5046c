/**
 * Character classes and string helpers with Python semantics: the whitespace
 * set of `\s` / `str.strip()`, the `normalize` helper of the extraction
 * scripts, `str.replace`, `str.find` and slicing with clamped bounds.
 */
module Text {

  /** The characters Python's `\s` (on `str` patterns) and `str.strip()` treat as whitespace. */
  predicate IsSpace(c: char) {
    var n := c as int;
    (9 <= n <= 13) || (0x1c <= n <= 0x20) || n == 0x85 || n == 0xa0 || n == 0x1680
    || (0x2000 <= n <= 0x200a) || n == 0x2028 || n == 0x2029 || n == 0x202f
    || n == 0x205f || n == 0x3000
  }

  predicate IsDigit(c: char) {
    '0' <= c <= '9'
  }

  predicate AllDigits(s: string) {
    forall i :: 0 <= i < |s| ==> IsDigit(s[i])
  }

  /** Characters of `\w`: ASCII letters and digits, '_', and the Latin letters up to U+017F. */
  predicate IsWordChar(c: char) {
    var n := c as int;
    ('a' <= c <= 'z') || ('A' <= c <= 'Z') || IsDigit(c) || c == '_'
    || n == 0xaa || n == 0xb2 || n == 0xb3 || n == 0xb5 || n == 0xb9 || n == 0xba
    || (0xbc <= n <= 0xbe) || (0xc0 <= n <= 0x17f && n != 0xd7 && n != 0xf7)
  }

  /** Lower-casing of ASCII and Latin-1 capitals, as `str.lower()` and `re.IGNORECASE` do. */
  function Lower(c: char): char {
    var n := c as int;
    if ('A' <= c <= 'Z') || (0xc0 <= n <= 0xde && n != 0xd7) then (n + 32) as char else c
  }

  /** Lower-casing neither makes nor unmakes whitespace or digits. */
  lemma LowerKeepsClass(c: char)
    ensures IsSpace(Lower(c)) <==> IsSpace(c)
    ensures IsDigit(Lower(c)) <==> IsDigit(c)
  {
  }

  function LowerString(s: string): (r: string)
    ensures |r| == |s| && forall i {:trigger r[i]} :: 0 <= i < |s| ==> r[i] == Lower(s[i])
  {
    if s == [] then [] else [Lower(s[0])] + LowerString(s[1..])
  }

  // ---------------------------------------------------------------------------
  // strip() and the whitespace-collapsing normalize()
  // ---------------------------------------------------------------------------

  /** `s.lstrip()`. */
  function TrimLeft(s: string): (r: string)
    ensures |r| <= |s| && r == s[|s| - |r|..]
    ensures r == [] || !IsSpace(r[0])
    ensures forall i :: 0 <= i < |s| - |r| ==> IsSpace(s[i])
    ensures s != [] && IsSpace(s[0]) ==> |r| < |s|
  {
    if s == [] || !IsSpace(s[0]) then s else TrimLeft(s[1..])
  }

  /** `s.rstrip()`. */
  function TrimRight(s: string): (r: string)
    ensures |r| <= |s| && r == s[..|r|]
    ensures r == [] || !IsSpace(r[|r| - 1])
    ensures forall i :: |r| <= i < |s| ==> IsSpace(s[i])
  {
    if s == [] || !IsSpace(s[|s| - 1]) then s else TrimRight(s[..|s| - 1])
  }

  /** The number of whitespace characters `lstrip()` removes. */
  function LeadingSpaces(s: string): nat {
    |s| - |TrimLeft(s)|
  }

  /** `s.strip()`: the slice of `s` left when its outer whitespace is cut away. */
  function Strip(s: string): (r: string)
    ensures r == [] || (!IsSpace(r[0]) && !IsSpace(r[|r| - 1]))
    ensures LeadingSpaces(s) + |r| <= |s|
    ensures r == s[LeadingSpaces(s)..LeadingSpaces(s) + |r|]
  {
    var t := TrimLeft(s);
    var r := TrimRight(t);
    assert t == s[|s| - |t|..];
    assert r == t[..|r|];
    r
  }

  /** Every character of `s[lo..hi]` is whitespace. */
  predicate AllSpace(s: string, lo: nat, hi: nat)
    requires lo <= hi <= |s|
  {
    forall i :: lo <= i < hi ==> IsSpace(s[i])
  }

  /** What `strip()` cuts away is whitespace, at both ends. */
  lemma StripCutsSpace(s: string)
    ensures AllSpace(s, 0, LeadingSpaces(s))
    ensures AllSpace(s, LeadingSpaces(s) + |Strip(s)|, |s|)
  {
    assert AllSpace(s, 0, LeadingSpaces(s));
    StripCutsTrailingSpace(s);
  }

  lemma StripCutsTrailingSpace(s: string)
    ensures AllSpace(s, LeadingSpaces(s) + |Strip(s)|, |s|)
  {
    var t := TrimLeft(s);
    var r := TrimRight(t);
    assert Strip(s) == r;
    var a := |s| - |t|;
    assert t == s[a..];
    forall i | a + |r| <= i < |s| ensures IsSpace(s[i]) {
      assert t[i - a] == s[i];
    }
  }

  /** The characters of `s` that are not whitespace, in order. */
  function Squeeze(s: string): (r: string)
    ensures forall i :: 0 <= i < |r| ==> !IsSpace(r[i])
  {
    if s == [] then [] else if IsSpace(s[0]) then Squeeze(s[1..]) else [s[0]] + Squeeze(s[1..])
  }

  /** Every whitespace character is a single ' ' followed by a non-whitespace character or the end. */
  ghost predicate SingleSpaced(s: string) {
    forall i :: 0 <= i < |s| && IsSpace(s[i]) ==> s[i] == ' ' && (i + 1 < |s| ==> !IsSpace(s[i + 1]))
  }

  /** What `normalize` promises: no outer whitespace and no run of two whitespace characters. */
  ghost predicate Normalized(s: string) {
    (s == [] || (!IsSpace(s[0]) && !IsSpace(s[|s| - 1]))) && SingleSpaced(s)
  }

  /** `re.sub(r"\s+", " ", s)`: every maximal run of whitespace becomes one ' '. */
  function Collapse(s: string): (r: string)
    ensures r == [] <==> s == []
    ensures r != [] ==> (IsSpace(r[0]) <==> IsSpace(s[0]))
    ensures SingleSpaced(r)
    decreases |s|
  {
    if s == [] then []
    else if IsSpace(s[0]) then " " + Collapse(TrimLeft(s))
    else [s[0]] + Collapse(s[1..])
  }

  /** `normalize` of src/12 and src/11: collapse whitespace runs, then strip. */
  function Normalize(s: string): (r: string)
    ensures Normalized(r)
  {
    var c := Collapse(s);
    var r := Strip(c);
    SliceKeepsSingleSpaced(c, LeadingSpaces(c), LeadingSpaces(c) + |r|);
    r
  }

  lemma SliceKeepsSingleSpaced(c: string, a: nat, b: nat)
    requires a <= b <= |c|
    requires SingleSpaced(c)
    ensures SingleSpaced(c[a..b])
  {
    var r := c[a..b];
    forall i | 0 <= i < |r| && IsSpace(r[i])
      ensures r[i] == ' ' && (i + 1 < |r| ==> !IsSpace(r[i + 1]))
    {
      assert r[i] == c[a + i];
      assert i + 1 < |r| ==> r[i + 1] == c[a + i + 1];
    }
  }

  lemma {:induction false} CollapseFixesSingleSpaced(s: string)
    requires SingleSpaced(s)
    ensures Collapse(s) == s
    decreases |s|
  {
    if s != [] {
      var t := s[1..];
      SliceKeepsSingleSpaced(s, 1, |s|);
      CollapseFixesSingleSpaced(t);
      assert s == [s[0]] + t;
      if IsSpace(s[0]) {
        assert s[0] == ' ';
        assert t == [] || !IsSpace(t[0]);
        assert TrimLeft(t) == t;
        assert TrimLeft(s) == t;
        assert Collapse(s) == " " + Collapse(t);
      } else {
        assert Collapse(s) == [s[0]] + Collapse(t);
      }
    }
  }

  /** `normalize` leaves an already normalized string unchanged. */
  lemma NormalizeFixesNormalized(s: string)
    requires Normalized(s)
    ensures Normalize(s) == s
  {
    CollapseFixesSingleSpaced(s);
    assert TrimLeft(s) == s;
    assert TrimRight(s) == s;
  }

  /** `normalize` is idempotent. */
  lemma NormalizeIdempotent(s: string)
    ensures Normalize(Normalize(s)) == Normalize(s)
  {
    NormalizeFixesNormalized(Normalize(s));
  }

  lemma {:induction false} SqueezeAppend(a: string, b: string)
    ensures Squeeze(a + b) == Squeeze(a) + Squeeze(b)
    decreases |a|
  {
    if a == [] {
      assert a + b == b;
    } else {
      assert (a + b)[0] == a[0];
      assert (a + b)[1..] == a[1..] + b;
      SqueezeAppend(a[1..], b);
      if IsSpace(a[0]) {
        assert Squeeze(a + b) == Squeeze(a[1..] + b);
      } else {
        assert Squeeze(a + b) == [a[0]] + Squeeze(a[1..] + b);
        assert Squeeze(a) == [a[0]] + Squeeze(a[1..]);
      }
    }
  }

  lemma {:induction false} SqueezeAllSpace(s: string)
    requires forall i :: 0 <= i < |s| ==> IsSpace(s[i])
    ensures Squeeze(s) == []
    decreases |s|
  {
    if s != [] { SqueezeAllSpace(s[1..]); }
  }

  lemma SplitThree(s: string, a: nat, b: nat)
    requires a <= b <= |s|
    ensures s == s[..a] + s[a..b] + s[b..]
  {
    assert s[..b] == s[..a] + s[a..b];
    assert s == s[..b] + s[b..];
  }

  lemma SqueezeSpacePrefix(s: string, a: nat)
    requires a <= |s| && AllSpace(s, 0, a)
    ensures Squeeze(s[..a]) == []
  {
    var p := s[..a];
    assert forall i :: 0 <= i < |p| ==> p[i] == s[i];
    SqueezeAllSpace(p);
  }

  lemma SqueezeSpaceSuffix(s: string, b: nat)
    requires b <= |s| && AllSpace(s, b, |s|)
    ensures Squeeze(s[b..]) == []
  {
    var q := s[b..];
    forall i | 0 <= i < |q| ensures IsSpace(q[i]) {
      assert q[i] == s[b + i];
    }
    SqueezeAllSpace(q);
  }

  lemma SqueezeOuterSpace(s: string, a: nat, b: nat)
    requires a <= b <= |s| && AllSpace(s, 0, a) && AllSpace(s, b, |s|)
    ensures Squeeze(s[a..b]) == Squeeze(s)
  {
    SplitThree(s, a, b);
    SqueezeAppend(s[..a] + s[a..b], s[b..]);
    SqueezeAppend(s[..a], s[a..b]);
    SqueezeSpacePrefix(s, a);
    SqueezeSpaceSuffix(s, b);
  }

  lemma {:induction false} SqueezeCollapse(s: string)
    ensures Squeeze(Collapse(s)) == Squeeze(s)
    decreases |s|
  {
    if s != [] {
      if IsSpace(s[0]) {
        var t := TrimLeft(s);
        SqueezeCollapse(t);
        SqueezeOuterSpace(s, |s| - |t|, |s|);
        assert s[|s| - |t|..|s|] == t;
        assert Squeeze(" " + Collapse(t)) == Squeeze(Collapse(t));
      } else {
        SqueezeCollapse(s[1..]);
        assert ([s[0]] + Collapse(s[1..]))[1..] == Collapse(s[1..]);
      }
    }
  }

  lemma SqueezeWindow(c: string, a: nat, r: string)
    requires a + |r| <= |c| && r == c[a..a + |r|]
    requires AllSpace(c, 0, a) && AllSpace(c, a + |r|, |c|)
    ensures Squeeze(r) == Squeeze(c)
  {
    SqueezeOuterSpace(c, a, a + |r|);
  }

  lemma StripKeepsText(c: string)
    ensures Squeeze(Strip(c)) == Squeeze(c)
  {
    StripCutsSpace(c);
    SqueezeWindow(c, LeadingSpaces(c), Strip(c));
  }

  /** `lstrip()` of a concatenation: the right part is cut only when the left part was all whitespace. */
  lemma {:induction false} TrimLeftAppend(x: string, z: string)
    ensures TrimLeft(x + z) == if TrimLeft(x) == [] then TrimLeft(z) else TrimLeft(x) + z
    decreases |x|
  {
    if x == [] {
      assert x + z == z;
    } else {
      assert (x + z)[0] == x[0];
      if IsSpace(x[0]) {
        assert (x + z)[1..] == x[1..] + z;
        TrimLeftAppend(x[1..], z);
      }
    }
  }

  /** `rstrip()` of a concatenation: the left part is cut only when the right part was all whitespace. */
  lemma {:induction false} TrimRightAppend(x: string, z: string)
    ensures TrimRight(x + z) == if TrimRight(z) == [] then TrimRight(x) else x + TrimRight(z)
    decreases |z|
  {
    if z == [] {
      assert x + z == x;
    } else {
      assert (x + z)[|x + z| - 1] == z[|z| - 1];
      if IsSpace(z[|z| - 1]) {
        assert (x + z)[..|x + z| - 1] == x + z[..|z| - 1];
        TrimRightAppend(x, z[..|z| - 1]);
      }
    }
  }

  /** The sequence algebra of one `CollapseAppend` step, kept apart from `Collapse` itself. */
  lemma Regroup(h: string, a: string, b: string, c: string, d: string, x: string)
    requires a == h + b && b == c + d && x == h + c
    ensures a == x + d
  {
  }

  /**
   * A whitespace run never crosses a non-whitespace character, so when the
   * two sides do not meet in whitespace, collapsing works piece by piece.
   */
  lemma {:induction false} CollapseAppend(x: string, z: string)
    requires x == [] || z == [] || !IsSpace(x[|x| - 1]) || !IsSpace(z[0])
    ensures Collapse(x + z) == Collapse(x) + Collapse(z)
    decreases |x|, 1
  {
    if x == [] {
      assert x + z == z;
    } else if IsSpace(x[0]) {
      CollapseAppendRun(x, z);
    } else {
      CollapseLeadingChar(x, z);
      CollapseAppend(x[1..], z);
      Regroup([x[0]], Collapse(x + z), Collapse(x[1..] + z), Collapse(x[1..]), Collapse(z), Collapse(x));
    }
  }

  /** `CollapseAppend` when `x` starts with whitespace: its leading run is one ' ' on both sides. */
  lemma {:induction false} CollapseAppendRun(x: string, z: string)
    requires x != [] && IsSpace(x[0])
    requires z == [] || !IsSpace(x[|x| - 1]) || !IsSpace(z[0])
    ensures Collapse(x + z) == Collapse(x) + Collapse(z)
    decreases |x|, 0
  {
    var t := TrimLeft(x);
    CollapseLeadingRun(x, z);
    if t != [] {
      CollapseAppend(t, z);
      Regroup(" ", Collapse(x + z), Collapse(t + z), Collapse(t), Collapse(z), Collapse(x));
    }
  }

  /** The other step of `CollapseAppend`: a leading non-whitespace character is copied. */
  lemma CollapseLeadingChar(x: string, z: string)
    requires x != [] && !IsSpace(x[0])
    ensures Collapse(x + z) == [x[0]] + Collapse(x[1..] + z)
    ensures Collapse(x) == [x[0]] + Collapse(x[1..])
  {
    assert (x + z)[0] == x[0];
    assert (x + z)[1..] == x[1..] + z;
  }

  /** One step of `CollapseAppend`: the leading run of `x` becomes one ' ', and what follows it keeps the last character of `x`. */
  lemma CollapseLeadingRun(x: string, z: string)
    requires x != [] && IsSpace(x[0])
    requires z == [] || !IsSpace(x[|x| - 1]) || !IsSpace(z[0])
    ensures var t := TrimLeft(x);
      && Collapse(x) == " " + Collapse(t)
      && (t == [] ==> Collapse(x + z) == " " + Collapse(z) && Collapse(x) == " ")
      && (t != [] ==> |t| < |x| && t[|t| - 1] == x[|x| - 1] && Collapse(x + z) == " " + Collapse(t + z))
  {
    LeadingRunAlone(x, z);
    LeadingRunBefore(x, z);
    LeadingRunRest(x);
  }

  lemma LeadingRunAlone(x: string, z: string)
    requires x != [] && IsSpace(x[0])
    requires z == [] || !IsSpace(x[|x| - 1]) || !IsSpace(z[0])
    ensures TrimLeft(x) == [] ==> Collapse(x + z) == " " + Collapse(z)
  {
    assert Collapse(x + z) == " " + Collapse(TrimLeft(x + z)) by {
      assert (x + z)[0] == x[0];
    }
    TrimLeftAppend(x, z);
    if TrimLeft(x) == [] {
      assert IsSpace(x[|x| - 1]);
      assert TrimLeft(z) == z;
    }
  }

  lemma LeadingRunBefore(x: string, z: string)
    requires x != [] && IsSpace(x[0])
    ensures var t := TrimLeft(x); t != [] ==> Collapse(x + z) == " " + Collapse(t + z)
  {
    assert Collapse(x + z) == " " + Collapse(TrimLeft(x + z)) by {
      assert (x + z)[0] == x[0];
    }
    TrimLeftAppend(x, z);
  }

  lemma LeadingRunRest(x: string)
    requires x != [] && IsSpace(x[0])
    ensures var t := TrimLeft(x);
      && Collapse(x) == " " + Collapse(t)
      && (t == [] ==> Collapse(x) == " ")
      && (t != [] ==> |t| < |x| && t[|t| - 1] == x[|x| - 1])
  {
    TrimLeftKeepsLast(x);
  }

  /** What `lstrip()` leaves of a string ends as the string did. */
  lemma TrimLeftKeepsLast(x: string)
    requires x != [] && IsSpace(x[0])
    ensures var t := TrimLeft(x); t != [] ==> |t| < |x| && t[|t| - 1] == x[|x| - 1]
  {
    var t := TrimLeft(x);
    assert t == x[|x| - |t|..];
  }

  /** A whitespace run with non-whitespace on both sides collapses to exactly one ' '. */
  lemma CollapseInnerRun(x: string, w: string, y: string)
    requires w != [] && forall i :: 0 <= i < |w| ==> IsSpace(w[i])
    requires x == [] || !IsSpace(x[|x| - 1])
    requires y == [] || !IsSpace(y[0])
    ensures Collapse(x + w + y) == Collapse(x) + " " + Collapse(y)
  {
    ConcatAssoc(x, w, y);
    CollapseAppend(x, w + y);
    CollapseAppend(w, y);
    CollapseAllSpace(w);
    ConcatAssoc(Collapse(x), " ", Collapse(y));
  }

  lemma ConcatAssoc(a: string, b: string, c: string)
    ensures a + b + c == a + (b + c)
  {
  }

  /** A non-empty run of whitespace alone collapses to one ' '. */
  lemma CollapseAllSpace(w: string)
    requires w != [] && forall i :: 0 <= i < |w| ==> IsSpace(w[i])
    ensures Collapse(w) == " "
  {
    var r := TrimLeft(w);
    if r != [] {
      assert r[0] == w[|w| - |r|];
    }
  }

  /** Collapsing keeps a final non-whitespace character at the end. */
  lemma CollapseLast(x: string)
    requires x != [] && !IsSpace(x[|x| - 1])
    ensures Collapse(x) != [] && Collapse(x)[|Collapse(x)| - 1] == x[|x| - 1]
  {
    var c := x[|x| - 1];
    assert x == x[..|x| - 1] + [c];
    CollapseAppend(x[..|x| - 1], [c]);
  }

  /**
   * Inside the text, a whitespace run between two non-whitespace characters
   * becomes exactly one ' ': words are never glued together nor kept apart
   * by more than one space.
   */
  lemma NormalizeInnerRun(x: string, w: string, y: string)
    requires w != [] && forall i :: 0 <= i < |w| ==> IsSpace(w[i])
    requires x != [] && !IsSpace(x[|x| - 1])
    requires y != [] && !IsSpace(y[0])
    ensures Normalize(x + w + y) == Normalize(x) + " " + Normalize(y)
  {
    CollapseInnerRun(x, w, y);
    CollapseLast(x);
    StripAroundSpace(Collapse(x), Collapse(y));
  }

  /** One ' ' between two non-whitespace characters survives `strip()`, which then works on each side. */
  lemma StripAroundSpace(a: string, b: string)
    requires a != [] && !IsSpace(a[|a| - 1])
    requires b != [] && !IsSpace(b[0])
    ensures Strip(a + " " + b) == Strip(a) + " " + Strip(b)
  {
    var l := TrimLeft(a);
    assert l != [] && l[|l| - 1] == a[|a| - 1] by {
      if l == [] {
        assert IsSpace(a[|a| - 1]);
      }
      assert l == a[|a| - |l|..];
    }
    ConcatAssoc(a, " ", b);
    TrimLeftAppend(a, " " + b);
    ConcatAssoc(l, " ", b);
    assert TrimRight(b) != [] by {
      if TrimRight(b) == [] {
        assert IsSpace(b[0]);
      }
    }
    TrimRightAppend(l + " ", b);
    assert TrimRight(l) == l;
    assert TrimLeft(b) == b;
  }

  /** `normalize` only rewrites whitespace: every other character is kept, in order. */
  lemma NormalizeKeepsText(s: string)
    ensures Squeeze(Normalize(s)) == Squeeze(s)
  {
    SqueezeCollapse(s);
    StripKeepsText(Collapse(s));
    assert Normalize(s) == Strip(Collapse(s));
  }

  // ---------------------------------------------------------------------------
  // str.replace, str.find and slicing
  // ---------------------------------------------------------------------------

  /** `s.replace(a, b)` for one-character `a` and `b`. */
  function ReplaceChar(s: string, a: char, b: char): (r: string)
    ensures |r| == |s|
    ensures forall i :: 0 <= i < |s| ==> r[i] == (if s[i] == a then b else s[i])
  {
    if s == [] then [] else [if s[0] == a then b else s[0]] + ReplaceChar(s[1..], a, b)
  }

  /** `s.replace(a, "")`. */
  function DeleteChar(s: string, a: char): (r: string)
    ensures a !in r && |r| <= |s|
    ensures forall c :: c != a ==> (c in r <==> c in s)
    ensures a !in s ==> r == s
    ensures multiset(r) == multiset(s)[a := 0]
  {
    if s == [] then []
    else
      assert s == [s[0]] + s[1..];
      if s[0] == a then DeleteChar(s[1..], a) else [s[0]] + DeleteChar(s[1..], a)
  }

  /** Deleting a character works piece by piece, so it keeps the order of what remains. */
  lemma {:induction false} DeleteCharAppend(s1: string, s2: string, a: char)
    ensures DeleteChar(s1 + s2, a) == DeleteChar(s1, a) + DeleteChar(s2, a)
  {
    if s1 != [] {
      assert (s1 + s2)[1..] == s1[1..] + s2;
      DeleteCharAppend(s1[1..], s2, a);
    } else {
      assert s1 + s2 == s2;
    }
  }

  predicate OccursAt(s: string, sub: string, i: nat) {
    i + |sub| <= |s| && s[i..i + |sub|] == sub
  }

  /** `s.find(sub)`: the first position where `sub` occurs, or -1. */
  function Find(s: string, sub: string): (r: int)
    ensures -1 <= r <= |s|
    ensures r == -1 <==> forall i: nat :: !OccursAt(s, sub, i)
    ensures r >= 0 ==> OccursAt(s, sub, r) && forall i: nat :: i < r ==> !OccursAt(s, sub, i)
  {
    FindFrom(s, sub, 0)
  }

  function FindFrom(s: string, sub: string, k: nat): (r: int)
    requires k <= |s| + 1
    requires forall i: nat :: i < k ==> !OccursAt(s, sub, i)
    ensures -1 <= r <= |s|
    ensures r == -1 <==> forall i: nat :: !OccursAt(s, sub, i)
    ensures r >= 0 ==> OccursAt(s, sub, r) && forall i: nat :: i < r ==> !OccursAt(s, sub, i)
    decreases |s| + 1 - k
  {
    if k + |sub| > |s| then
      assert forall i: nat :: !OccursAt(s, sub, i) by {
        forall i: nat ensures !OccursAt(s, sub, i) {
          if i >= k { assert i + |sub| > |s|; }
        }
      }
      -1
    else if s[k..k + |sub|] == sub then
      assert OccursAt(s, sub, k);
      k
    else FindFrom(s, sub, k + 1)
  }

  /** `s[a:b]` for non-negative bounds: both are clamped to the length, and b < a gives "". */
  function Slice(s: string, a: nat, b: nat): (r: string)
    ensures |r| <= |s|
    ensures b <= a ==> r == []
    ensures a <= b ==> |r| <= b - a
    ensures a <= |s| ==> r == s[a..if b < a then a else if b <= |s| then b else |s|]
    ensures a > |s| ==> r == []
  {
    var lo := if a <= |s| then a else |s|;
    var hi := if b <= lo then lo else if b <= |s| then b else |s|;
    s[lo..hi]
  }

  // ---------------------------------------------------------------------------
  // Python's string order and `sorted(...)[-1]`
  // ---------------------------------------------------------------------------

  /** `a <= b` on Python strings: lexicographic by code point, a prefix first. */
  predicate LexLe(a: string, b: string) {
    a == [] || (b != [] && (a[0] < b[0] || (a[0] == b[0] && LexLe(a[1..], b[1..]))))
  }

  lemma {:induction false} LexLeReflexive(a: string)
    ensures LexLe(a, a)
    decreases |a|
  {
    if a != [] { LexLeReflexive(a[1..]); }
  }

  lemma {:induction false} LexLeTotal(a: string, b: string)
    ensures LexLe(a, b) || LexLe(b, a)
    decreases |a|
  {
    if a != [] && b != [] && a[0] == b[0] { LexLeTotal(a[1..], b[1..]); }
  }

  lemma {:induction false} LexLeTrans(a: string, b: string, c: string)
    requires LexLe(a, b) && LexLe(b, c)
    ensures LexLe(a, c)
    decreases |a|
  {
    if a != [] && b != [] && c != [] && a[0] == b[0] && b[0] == c[0] {
      LexLeTrans(a[1..], b[1..], c[1..]);
    }
  }

  lemma {:induction false} LexLeAntisymmetric(a: string, b: string)
    requires LexLe(a, b) && LexLe(b, a)
    ensures a == b
    decreases |a|
  {
    if a != [] {
      LexLeAntisymmetric(a[1..], b[1..]);
      assert a == [a[0]] + a[1..] && b == [b[0]] + b[1..];
    }
  }

  /** `sorted(names)[-1]`: the greatest name in Python's string order. */
  function Greatest(names: seq<string>): (r: string)
    requires names != []
    ensures r in names
    ensures forall n :: n in names ==> LexLe(n, r)
  {
    if |names| == 1 then
      LexLeReflexive(names[0]);
      names[0]
    else
      var rest := Greatest(names[1..]);
      LexLeTotal(names[0], rest);
      assert forall n :: n in names ==> n == names[0] || n in names[1..];
      if LexLe(names[0], rest) then rest
      else
        forall n | n in names[1..] ensures LexLe(n, names[0]) {
          LexLeTrans(n, rest, names[0]);
        }
        LexLeReflexive(names[0]);
        names[0]
  }
}

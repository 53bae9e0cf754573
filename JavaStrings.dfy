/** Models of the java.lang.String, java.util.StringTokenizer and java.lang.Integer
    operations the MibTeX core relies on. A Java string is a sequence of UTF-16 code
    units; here it is a `string`, a sequence of Unicode scalar values. The searches and
    slices below work on whole chars; `length()` and `compareTo` see the code units,
    and `Utf16` gives them. */
module JavaStrings {

  datatype Option<+T> = None | Some(value: T)

  /* ---------------------------------------------------------------- UTF-16 */

  /** A high surrogate: the first unit of a char outside the Basic Multilingual Plane. */
  predicate HighSurrogate(u: int) {
    0xD800 <= u < 0xDC00
  }

  /** The UTF-16 code units of one char: the char itself inside the Basic Multilingual
      Plane, a surrogate pair outside it. */
  function Units(c: char): (u: seq<int>)
    ensures 1 <= |u| <= 2 && (HighSurrogate(u[0]) <==> |u| == 2)
    ensures forall i :: 0 <= i < |u| ==> 0 <= u[i] < 0x1_0000
  {
    if c as int < 0x1_0000 then [c as int]
    else [0xD800 + (c as int - 0x1_0000) / 0x400, 0xDC00 + (c as int - 0x1_0000) % 0x400]
  }

  /** The code units of a string, char by char. */
  function Utf16(s: string): seq<int> {
    if s == [] then [] else Units(s[0]) + Utf16(s[1..])
  }

  /** `s.length()`: the number of UTF-16 code units. */
  function Length(s: string): nat {
    |Utf16(s)|
  }

  /** A char is given back by its units. */
  lemma {:induction false} UnitsInjective(c: char, d: char)
    requires Units(c) == Units(d)
    ensures c == d
  {
    if c as int >= 0x1_0000 {
      var v, w := c as int - 0x1_0000, d as int - 0x1_0000;
      assert v == 0x400 * (v / 0x400) + v % 0x400;
      assert w == 0x400 * (w / 0x400) + w % 0x400;
    }
  }

  /** Distinct strings have distinct code units: the first unit tells a surrogate pair
      from a single unit. */
  lemma {:induction false} Utf16Injective(a: string, b: string)
    requires Utf16(a) == Utf16(b)
    ensures a == b
  {
    if a != [] && b != [] {
      var ua, ub := Units(a[0]), Units(b[0]);
      assert ua[0] == Utf16(a)[0] == Utf16(b)[0] == ub[0];
      assert |ua| == |ub|;
      assert ua == Utf16(a)[..|ua|] && ub == Utf16(b)[..|ub|];
      UnitsInjective(a[0], b[0]);
      assert Utf16(a[1..]) == Utf16(a)[|ua|..] && Utf16(b[1..]) == Utf16(b)[|ub|..];
      Utf16Injective(a[1..], b[1..]);
      assert a == [a[0]] + a[1..] && b == [b[0]] + b[1..];
    }
  }

  /** The units of a concatenation are the units of its parts. */
  lemma {:induction false} Utf16Append(a: string, b: string)
    ensures Utf16(a + b) == Utf16(a) + Utf16(b)
  {
    if a == [] {
      assert a + b == b;
    } else {
      assert (a + b)[0] == a[0] && (a + b)[1..] == a[1..] + b;
      Utf16Append(a[1..], b);
    }
  }

  /** `length()` counts a char of the Basic Multilingual Plane once and any other char
      twice, so it equals the number of chars exactly when every char is in that plane. */
  lemma {:induction false} LengthBounds(s: string)
    ensures |s| <= Length(s) <= 2 * |s|
    ensures Length(s) == |s| <==> forall i :: 0 <= i < |s| ==> s[i] as int < 0x1_0000
  {
    if s != [] {
      LengthBounds(s[1..]);
      if forall i :: 0 <= i < |s| ==> s[i] as int < 0x1_0000 {
        assert forall i :: 0 <= i < |s[1..]| ==> s[1..][i] as int < 0x1_0000 by {
          forall i | 0 <= i < |s[1..]| ensures s[1..][i] as int < 0x1_0000 { assert s[1..][i] == s[i + 1]; }
        }
      }
      if Length(s) == |s| {
        forall i | 0 <= i < |s| ensures s[i] as int < 0x1_0000 {
          if i > 0 { assert s[i] == s[1..][i - 1]; }
        }
      }
    }
  }

  /* ---------------------------------------------------------------- search */

  /** `s.startsWith(p)`, compared char by char. */
  predicate StartsWith(s: string, p: string)
    ensures StartsWith(s, p) ==> |p| <= |s|
  {
    p == [] || (s != [] && s[0] == p[0] && StartsWith(s[1..], p[1..]))
  }

  lemma {:induction false} StartsWithSlice(s: string, p: string)
    ensures StartsWith(s, p) <==> |p| <= |s| && s[..|p|] == p
  {
    if p != [] && s != [] {
      StartsWithSlice(s[1..], p[1..]);
      if |p| <= |s| && s[..|p|] == p {
        assert s[1..][..|p| - 1] == s[..|p|][1..];
      }
      if StartsWith(s, p) {
        assert s[..|p|] == [s[0]] + s[1..][..|p| - 1];
        assert p == [p[0]] + p[1..];
      }
    }
  }

  predicate EndsWith(s: string, p: string) {
    |p| <= |s| && StartsWith(s[|s| - |p|..], p)
  }

  /** A suffix test is a comparison with the tail of the text. */
  lemma {:induction false} EndsWithSlice(s: string, p: string)
    ensures EndsWith(s, p) <==> |p| <= |s| && s[|s| - |p|..] == p
  {
    if |p| <= |s| {
      StartsWithSlice(s[|s| - |p|..], p);
    }
  }

  /** A concatenation starts with its first part and ends with its second. */
  lemma {:induction false} AppendEnds(b: string, suffix: string)
    ensures (b + suffix)[..|b|] == b && EndsWith(b + suffix, suffix)
  {
    var s := b + suffix;
    assert s[|s| - |suffix|..] == suffix;
    StartsWithSlice(suffix, suffix);
  }

  /** `p` occurs in `s` starting at index `i`. */
  predicate OccursAt(s: string, p: string, i: int) {
    0 <= i <= |s| && StartsWith(s[i..], p)
  }

  lemma {:induction false} OccursAtSingle(s: string, c: char, i: int)
    ensures OccursAt(s, [c], i) <==> 0 <= i < |s| && s[i] == c
  {
    if 0 <= i <= |s| {
      assert StartsWith(s[i..], [c]) <==> s[i..] != [] && s[i..][0] == c;
    }
  }

  /** `s.indexOf(p, from)`: the first occurrence of `p` at or after `from`, or -1. */
  function IndexOfFrom(s: string, p: string, from: nat): (r: int)
    requires from <= |s|
    ensures r == -1 || (from <= r && OccursAt(s, p, r))
    ensures forall i :: from <= i && (r == -1 || i < r) ==> !OccursAt(s, p, i)
    decreases |s| - from
  {
    if from + |p| > |s| then -1
    else if OccursAt(s, p, from) then from
    else IndexOfFrom(s, p, from + 1)
  }

  /** `s.indexOf(p)`. */
  function IndexOf(s: string, p: string): int {
    IndexOfFrom(s, p, 0)
  }

  /** `s.contains(p)`. */
  predicate Contains(s: string, p: string) {
    IndexOf(s, p) >= 0
  }

  lemma {:induction false} ContainsSingle(s: string, c: char)
    ensures Contains(s, [c]) <==> c in s
  {
    if c in s {
      var i :| 0 <= i < |s| && s[i] == c;
      OccursAtSingle(s, c, i);
    }
    if Contains(s, [c]) {
      OccursAtSingle(s, c, IndexOf(s, [c]));
    }
  }

  /** A text holds a pattern only if it holds the pattern's first char. */
  lemma {:induction false} ContainsHead(s: string, p: string)
    requires p != []
    ensures Contains(s, p) ==> p[0] in s
  {
    if Contains(s, p) {
      var i := IndexOf(s, p);
      assert s[i..][0] == p[0];
    }
  }

  /** The first occurrence of a single char is where it first appears. */
  lemma {:induction false} IndexOfSingle(s: string, c: char, k: int)
    requires 0 <= k < |s| && s[k] == c && c !in s[..k]
    ensures IndexOf(s, [c]) == k
  {
    assert forall i :: 0 <= i < k ==> s[i] != c by {
      forall i | 0 <= i < k ensures s[i] != c { assert s[..k][i] == s[i]; }
    }
    OccursAtSingle(s, c, k);
    OccursAtSingle(s, c, IndexOf(s, [c]));
  }

  /** `s.indexOf(c, from)` for a char `c`: the first position at or after `from` that
      holds `c`, or -1. */
  lemma {:induction false} IndexOfChar(s: string, c: char, from: nat)
    requires from <= |s|
    ensures var r := IndexOfFrom(s, [c], from);
      (r == -1 || (from <= r < |s| && s[r] == c)) &&
      forall i :: from <= i < |s| && (r == -1 || i < r) ==> s[i] != c
  {
    var r := IndexOfFrom(s, [c], from);
    if r != -1 {
      OccursAtSingle(s, c, r);
    }
    forall i | from <= i < |s| && (r == -1 || i < r) ensures s[i] != c {
      OccursAtSingle(s, c, i);
    }
  }

  /** `s.lastIndexOf(p, from)`: the last occurrence of `p` starting at or before `from`,
      or -1. */
  function LastIndexOfFrom(s: string, p: string, from: int): (r: int)
    ensures r == -1 || (r <= from && OccursAt(s, p, r))
    ensures forall i :: r < i <= from ==> !OccursAt(s, p, i)
    decreases if from < 0 then 0 else from + 1
  {
    if from < 0 then -1
    else if OccursAt(s, p, from) then from
    else LastIndexOfFrom(s, p, from - 1)
  }

  /** The first occurrence at or after `from` is at `k` when nothing before `k` starts
      like the pattern; with `k == |s|`, there is none. */
  lemma {:induction false} IndexOfFromFirst(s: string, p: string, from: nat, k: int)
    requires p != [] && from <= k <= |s| && p[0] !in s[from..k]
    requires k == |s| || OccursAt(s, p, k)
    ensures IndexOfFrom(s, p, from) == if k == |s| then -1 else k
  {
    var r := IndexOfFrom(s, p, from);
    NotInSlice(s, p[0], from, k);
    if r != -1 {
      StartsWithSlice(s[r..], p);
      assert s[r] == p[0];
    }
  }

  /** The last occurrence at or before `from` is at `k` when nothing after `k` up to
      `from` starts like the pattern; with `k == -1`, there is none. */
  lemma {:induction false} LastIndexOfFromLast(s: string, p: string, from: int, k: int)
    requires p != [] && -1 <= k <= from < |s| && p[0] !in s[k + 1..from + 1]
    requires k == -1 || OccursAt(s, p, k)
    ensures LastIndexOfFrom(s, p, from) == k
  {
    var r := LastIndexOfFrom(s, p, from);
    NotInSlice(s, p[0], k + 1, from + 1);
    if r != -1 {
      StartsWithSlice(s[r..], p);
      assert s[r] == p[0];
    }
  }

  /** A char missing from a slice is at none of the slice's indices. */
  lemma {:induction false} NotInSlice(s: string, c: char, lo: int, hi: int)
    requires 0 <= lo <= hi <= |s| && c !in s[lo..hi]
    ensures forall i :: lo <= i < hi ==> s[i] != c
  {
    forall i | lo <= i < hi ensures s[i] != c {
      assert s[lo..hi][i - lo] == s[i];
    }
  }

  /* ---------------------------------------------------------------- replace */

  /** `s.replace("", rep)`: Java inserts `rep` before every char and at the end. */
  function InsertEverywhere(s: string, rep: string): (r: string)
    ensures |r| == |s| + (|s| + 1) * |rep|
    ensures forall c :: c in r ==> c in s || c in rep
  {
    if s == [] then rep else rep + [s[0]] + InsertEverywhere(s[1..], rep)
  }

  /** `s.replace(pat, rep)`: every occurrence of `pat`, scanning left to right without
      overlap, is replaced by `rep`. */
  function Replace(s: string, pat: string, rep: string): string
    decreases |s|
  {
    if |pat| == 0 then InsertEverywhere(s, rep)
    else if |s| < |pat| then s
    else if StartsWith(s, pat) then rep + Replace(s[|pat|..], pat, rep)
    else [s[0]] + Replace(s[1..], pat, rep)
  }

  /** A lone occurrence of the pattern is replaced and nothing else changes. */
  lemma {:induction false} ReplaceOnce(a: string, pat: string, b: string, rep: string)
    requires pat != [] && pat[0] !in a && pat[0] !in b
    ensures Replace(a + pat + b, pat, rep) == a + rep + b
  {
    assert a + pat + b == a + (pat + b);
    ReplacePeel(a, pat + b, pat, rep);
    ReplaceHead(b, pat, rep);
    ReplaceFree(b, pat, rep);
    assert a + (rep + b) == a + rep + b;
  }

  /** Replacing a one-char pattern by nothing drops a lone occurrence of it from the
      middle part and leaves everything around it. */
  lemma {:induction false} DropLone(a: string, l: string, c: char, r: string, b: string)
    requires c !in a && c !in l && c !in r && c !in b
    ensures Replace(a + (l + [c] + r) + b, [c], "") == a + (l + r) + b
  {
    Wrap(a, l, [c], r, b);
    assert c !in a + l && c !in r + b;
    ReplaceOnce(a + l, [c], r + b, "");
    Wrap(a, l, "", r, b);
    assert l + "" + r == l + r;
  }

  /** Moves the boundary between the middle pieces of a concatenation. */
  lemma {:induction false} Regroup(a: string, x: string, y: string, b: string)
    ensures a + (x + y) + b == a + x + (y + b)
  {
  }

  /** Moves the pieces around a middle part into it. */
  lemma {:induction false} Wrap(a: string, l: string, x: string, r: string, b: string)
    ensures (a + l) + x + (r + b) == a + (l + x + r) + b
  {
  }

  /** A char in neither the text nor the replacement is not in the result. */
  lemma {:induction false} ReplaceKeepsAbsent(s: string, pat: string, rep: string, c: char)
    requires c !in s && c !in rep
    ensures c !in Replace(s, pat, rep)
    decreases |s|
  {
    if |pat| != 0 && |s| >= |pat| {
      if StartsWith(s, pat) {
        assert forall x :: x in s[|pat|..] ==> x in s;
        ReplaceKeepsAbsent(s[|pat|..], pat, rep, c);
      } else {
        assert s[0] in s;
        ReplaceKeepsAbsent(s[1..], pat, rep, c);
      }
    }
  }

  /** Replacing a one-char pattern by text without that char removes the char. */
  lemma {:induction false} ReplaceRemovesChar(s: string, c: char, rep: string)
    requires c !in rep
    ensures c !in Replace(s, [c], rep)
    decreases |s|
  {
    if |s| >= 1 {
      if StartsWith(s, [c]) {
        ReplaceRemovesChar(s[1..], c, rep);
      } else {
        assert s[0] != c by { OccursAtSingle(s, c, 0); assert s[0..] == s; }
        ReplaceRemovesChar(s[1..], c, rep);
      }
    }
  }

  /** A pattern in the tail is in the text. */
  lemma {:induction false} ContainsTail(s: string, pat: string)
    requires s != [] && Contains(s[1..], pat)
    ensures Contains(s, pat)
  {
    var i := IndexOf(s[1..], pat);
    assert s[1..][i..] == s[i + 1..];
    assert OccursAt(s, pat, i + 1);
  }

  /** Where the pattern does not occur, `replace` is the identity. */
  lemma {:induction false} ReplaceAbsent(s: string, pat: string, rep: string)
    requires pat != []
    requires !Contains(s, pat)
    ensures Replace(s, pat, rep) == s
    decreases |s|
  {
    if s != [] {
      assert !OccursAt(s, pat, 0);
      assert s[0..] == s;
      if Contains(s[1..], pat) {
        ContainsTail(s, pat);
      }
      ReplaceAbsent(s[1..], pat, rep);
      ReplaceStep(s, pat, rep);
      assert [s[0]] + s[1..] == s;
    }
  }

  /** A text free of the pattern's first char is left alone. */
  lemma {:induction false} ReplaceFree(s: string, pat: string, rep: string)
    requires pat != [] && pat[0] !in s
    ensures Replace(s, pat, rep) == s
    decreases |s|
  {
    if |s| >= |pat| {
      ReplaceFree(s[1..], pat, rep);
    }
  }

  /** A prefix free of the pattern's first char passes through unchanged. */
  lemma {:induction false} ReplacePeel(a: string, t: string, pat: string, rep: string)
    requires pat != [] && pat[0] !in a
    ensures Replace(a + t, pat, rep) == a + Replace(t, pat, rep)
    decreases |a|
  {
    if a != [] {
      assert (a + t)[1..] == a[1..] + t;
      if |a + t| >= |pat| {
        ReplacePeel(a[1..], t, pat, rep);
        assert a == [a[0]] + a[1..];
      }
    } else {
      assert a + t == t;
    }
  }

  /** An occurrence at the front is replaced, and the scan goes on after it. */
  lemma {:induction false} ReplaceHead(t: string, pat: string, rep: string)
    requires pat != []
    ensures Replace(pat + t, pat, rep) == rep + Replace(t, pat, rep)
  {
    StartsWithSlice(pat + t, pat);
    assert (pat + t)[..|pat|] == pat;
    assert (pat + t)[|pat|..] == t;
  }

  /** Where the pattern does not start, the scan moves on by one char. */
  lemma {:induction false} ReplaceStep(t: string, pat: string, rep: string)
    requires pat != [] && t != [] && !StartsWith(t, pat)
    ensures Replace(t, pat, rep) == [t[0]] + Replace(t[1..], pat, rep)
  {
    if |t| < |pat| {
      assert [t[0]] + t[1..] == t;
    }
  }

  /** A text that does not start with the pattern, and whose rest lacks the pattern's
      first char, is left alone. */
  lemma {:induction false} ReplaceMiss(t: string, pat: string, rep: string)
    requires pat != [] && t != [] && !StartsWith(t, pat) && pat[0] !in t[1..]
    ensures Replace(t, pat, rep) == t
  {
    ReplaceStep(t, pat, rep);
    ReplaceFree(t[1..], pat, rep);
    assert [t[0]] + t[1..] == t;
  }

  /** A char that differs from the pattern's first char is passed over. */
  lemma {:induction false} ReplaceSkip(c: char, t: string, pat: string, rep: string)
    requires pat != [] && pat[0] != c
    ensures Replace([c] + t, pat, rep) == [c] + Replace(t, pat, rep)
  {
    ReplaceStep([c] + t, pat, rep);
    assert ([c] + t)[1..] == t;
  }

  /** The pattern starts at none of the first `k` positions of `s`. */
  predicate NoMatchBefore(s: string, pat: string, k: int) {
    forall i :: 0 <= i < k && i <= |s| ==> !StartsWith(s[i..], pat)
  }

  /** A prefix at none of whose positions the pattern starts passes through unchanged. */
  lemma {:induction false} ReplacePrefixFree(s: string, k: nat, pat: string, rep: string)
    requires pat != [] && k <= |s| && NoMatchBefore(s, pat, k)
    ensures Replace(s, pat, rep) == s[..k] + Replace(s[k..], pat, rep)
  {
    if k > 0 {
      assert s[0..] == s;
      ReplaceStep(s, pat, rep);
      NoMatchTail(s, pat, k);
      ReplacePrefixFree(s[1..], k - 1, pat, rep);
      HeadTailSlices(s, k);
    }
  }

  /** Dropping the first char shifts the match-free prefix by one. */
  lemma {:induction false} NoMatchTail(s: string, pat: string, k: nat)
    requires 0 < k <= |s| && NoMatchBefore(s, pat, k)
    ensures NoMatchBefore(s[1..], pat, k - 1)
  {
    var t := s[1..];
    forall i | 0 <= i < k - 1 && i <= |t| ensures !StartsWith(t[i..], pat) {
      assert t[i..] == s[i + 1..];
    }
  }

  /** The slices of the tail put back together with the head. */
  lemma {:induction false} HeadTailSlices(s: string, k: nat)
    requires 0 < k <= |s|
    ensures s[1..][k - 1..] == s[k..] && [s[0]] + s[1..][..k - 1] == s[..k]
  {
    assert [s[0]] + s[1..][..k - 1] == s[..k];
  }

  /* ---------------------------------------------------------------- whitespace */

  /** The characters Java's regular-expression class `\s` matches. */
  predicate IsSpace(c: char) {
    c == ' ' || c == '\t' || c == '\n' || c == '\U{000B}' || c == '\U{000C}' || c == '\r'
  }

  /** No two adjacent whitespace characters, and the only whitespace is ' '. */
  ghost predicate Collapsed(s: string) {
    && (forall i :: 0 <= i < |s| && IsSpace(s[i]) ==> s[i] == ' ')
    && (forall i :: 0 <= i < |s| - 1 ==> !(IsSpace(s[i]) && IsSpace(s[i + 1])))
  }

  function DropSpaces(s: string): (r: string)
    ensures |r| <= |s|
    ensures r == [] || !IsSpace(r[0])
    ensures forall c :: c in r ==> c in s
  {
    if s != [] && IsSpace(s[0]) then DropSpaces(s[1..]) else s
  }

  /** `s.replaceAll("\\s+", " ")`: every maximal run of whitespace becomes one space. */
  function CollapseWhitespace(s: string): (r: string)
    ensures Collapsed(r)
    ensures forall c :: c in r ==> c in s || c == ' '
    ensures s == [] <==> r == []
    ensures s != [] ==> (IsSpace(s[0]) <==> IsSpace(r[0]))
    decreases |s|
  {
    if s == [] then []
    else if IsSpace(s[0]) then " " + CollapseWhitespace(DropSpaces(s[1..]))
    else [s[0]] + CollapseWhitespace(s[1..])
  }

  /** Collapsing already collapsed text changes nothing. */
  lemma {:induction false} CollapseCollapsed(s: string)
    requires Collapsed(s)
    ensures CollapseWhitespace(s) == s
    decreases |s|
  {
    if s != [] {
      assert Collapsed(s[1..]);
      if IsSpace(s[0]) {
        assert s[1..] == [] || !IsSpace(s[1]);
        assert DropSpaces(s[1..]) == s[1..];
      }
      CollapseCollapsed(s[1..]);
    }
  }

  /** Joining two collapsed texts with one space keeps the text collapsed when the
      space meets no other whitespace. */
  lemma {:induction false} CollapsedJoin(x: string, y: string)
    requires Collapsed(x) && Collapsed(y)
    requires x != [] && !IsSpace(x[|x| - 1]) && y != [] && !IsSpace(y[0])
    ensures Collapsed(x + " " + y)
  {
    var s := x + " " + y;
    forall i | 0 <= i < |s| && IsSpace(s[i]) ensures s[i] == ' ' {
      if i > |x| { assert s[i] == y[i - |x| - 1]; }
    }
    forall i | 0 <= i < |s| - 1 ensures !(IsSpace(s[i]) && IsSpace(s[i + 1])) {
      if i > |x| { assert s[i] == y[i - |x| - 1] && s[i + 1] == y[i - |x|]; }
    }
  }

  /* ---------------------------------------------------------------- trim and case */

  /** `String.trim` strips every leading and trailing char whose code is at most U+0020. */
  predicate Trimmed(s: string) {
    s == [] || (s[0] > ' ' && s[|s| - 1] > ' ')
  }

  function TrimStart(s: string): (r: string)
    ensures r == [] || r[0] > ' '
    ensures forall c :: c in r ==> c in s
    ensures |r| <= |s| && r == s[|s| - |r|..]
  {
    if s != [] && s[0] <= ' ' then TrimStart(s[1..]) else s
  }

  function TrimEnd(s: string): (r: string)
    ensures r == [] || r[|r| - 1] > ' '
    ensures forall c :: c in r ==> c in s
    ensures |r| <= |s| && r == s[..|r|]
    ensures s != [] && s[0] > ' ' ==> r != [] && r[0] == s[0]
  {
    if s != [] && s[|s| - 1] <= ' ' then TrimEnd(s[..|s| - 1]) else s
  }

  /** `s.trim()`. */
  function Trim(s: string): (r: string)
    ensures Trimmed(r)
    ensures forall c :: c in r ==> c in s
    ensures Trimmed(s) ==> r == s
  {
    TrimEnd(TrimStart(s))
  }

  /** A leading blank makes no difference to `trim`. */
  lemma {:induction false} TrimBlank(w: string)
    ensures Trim(" " + w) == Trim(w)
  {
    assert (" " + w)[1..] == w;
  }

  function UpperChar(c: char): char {
    if 'a' <= c <= 'z' then (c as int - 32) as char else c
  }

  function LowerChar(c: char): char {
    if 'A' <= c <= 'Z' then (c as int + 32) as char else c
  }

  /** `s.toUpperCase()` on ASCII letters. */
  function ToUpper(s: string): (r: string)
    ensures |r| == |s| && forall i :: 0 <= i < |s| ==> r[i] == UpperChar(s[i])
  {
    seq(|s|, i requires 0 <= i < |s| => UpperChar(s[i]))
  }

  /** `s.toLowerCase()` on ASCII letters. */
  function ToLower(s: string): (r: string)
    ensures |r| == |s| && forall i :: 0 <= i < |s| ==> r[i] == LowerChar(s[i])
  {
    seq(|s|, i requires 0 <= i < |s| => LowerChar(s[i]))
  }

  /** `a.equalsIgnoreCase(b)` on ASCII letters. */
  predicate EqualsIgnoreCase(a: string, b: string) {
    |a| == |b| && forall i :: 0 <= i < |a| ==> UpperChar(a[i]) == UpperChar(b[i])
  }

  /* ---------------------------------------------------------------- split and tokenize */

  /** The number of occurrences of `c` in `s`. */
  function Count(s: string, c: char): nat
    decreases |s|
  {
    if s == [] then 0 else (if s[0] == c then 1 else 0) + Count(s[1..], c)
  }

  /** Counting distributes over concatenation. */
  lemma {:induction false} CountAppend(x: string, y: string, c: char)
    ensures Count(x + y, c) == Count(x, c) + Count(y, c)
    decreases |x|
  {
    if x == [] {
      assert x + y == y;
    } else {
      assert (x + y)[1..] == x[1..] + y;
      CountAppend(x[1..], y, c);
    }
  }

  /** Count is the multiplicity of `c` in the multiset of `s`. */
  lemma {:induction false} CountMultiset(s: string, c: char)
    ensures Count(s, c) == multiset(s)[c]
    decreases |s|
  {
    if s != [] {
      assert s == [s[0]] + s[1..];
      assert multiset(s) == multiset{s[0]} + multiset(s[1..]);
      CountMultiset(s[1..], c);
    }
  }

  lemma {:induction false} CountAbsent(s: string, c: char)
    requires c !in s
    ensures Count(s, c) == 0
  {
    CountMultiset(s, c);
  }

  /** At the first occurrence `i` of `c`, one occurrence is counted and the rest lie after it. */
  lemma {:induction false} CountAround(s: string, c: char, i: int)
    requires 0 <= i < |s| && s[i] == c && c !in s[..i]
    ensures Count(s, c) == 1 + Count(s[i + 1..], c)
  {
    assert s == s[..i] + ([c] + s[i + 1..]);
    CountAppend(s[..i], [c] + s[i + 1..], c);
    CountAppend([c], s[i + 1..], c);
    CountAbsent(s[..i], c);
  }

  /** `s.split(String.valueOf(c), -1)` for a char `c` that is not a regular-expression
      metacharacter: all the pieces between occurrences of `c`, empty ones included. */
  function Split(s: string, c: char): (parts: seq<string>)
    ensures |parts| == Count(s, c) + 1
    ensures forall p :: p in parts ==> c !in p
    decreases |s|
  {
    var i := IndexOf(s, [c]);
    ContainsSingle(s, c);
    if i < 0 then CountAbsent(s, c); [s]
    else
      OccursAtSingle(s, c, i);
      assert c !in s[..i] by {
        forall j | 0 <= j < i ensures s[j] != c { OccursAtSingle(s, c, j); }
      }
      CountAround(s, c, i);
      [s[..i]] + Split(s[i + 1..], c)
  }

  lemma {:induction false} SplitNone(s: string, c: char)
    requires c !in s
    ensures Split(s, c) == [s]
  {
    ContainsSingle(s, c);
  }

  lemma {:induction false} SplitFirst(x: string, c: char, y: string)
    requires c !in x
    ensures Split(x + [c] + y, c) == [x] + Split(y, c)
  {
    var s := x + [c] + y;
    assert s[..|x|] == x && s[|x| + 1..] == y;
    IndexOfSingle(s, c, |x|);
  }

  /** The pieces put back together with `c` between consecutive ones. */
  function Join(parts: seq<string>, c: char): string
    requires parts != []
  {
    if |parts| == 1 then parts[0] else parts[0] + [c] + Join(parts[1..], c)
  }

  /** Splitting loses nothing: the pieces joined with the separator give the text back. */
  lemma {:induction false} SplitJoin(s: string, c: char)
    ensures Join(Split(s, c), c) == s
    decreases |s|
  {
    var i := IndexOf(s, [c]);
    ContainsSingle(s, c);
    if i >= 0 {
      OccursAtSingle(s, c, i);
      SplitJoin(s[i + 1..], c);
      assert s == s[..i] + [c] + s[i + 1..];
    }
  }

  /** Pieces free of the separator come back from splitting their join. */
  lemma {:induction false} JoinSplit(parts: seq<string>, c: char)
    requires parts != []
    requires forall i :: 0 <= i < |parts| ==> c !in parts[i]
    ensures Split(Join(parts, c), c) == parts
    decreases |parts|
  {
    if |parts| == 1 {
      SplitNone(parts[0], c);
    } else {
      JoinSplit(parts[1..], c);
      SplitFirst(parts[0], c, Join(parts[1..], c));
      assert parts == [parts[0]] + parts[1..];
    }
  }

  /** The tokens a `StringTokenizer(s, String.valueOf(c))` returns: the non-empty
      maximal runs free of `c`, in order. */
  function Tokens(s: string, c: char): (ts: seq<string>)
    ensures forall t :: t in ts ==> t != [] && c !in t
  {
    NonEmpty(Split(s, c))
  }

  function NonEmpty(ps: seq<string>): (r: seq<string>)
    ensures forall p :: p in r ==> p in ps && p != []
    ensures forall p :: p in ps && p != [] ==> p in r
  {
    if ps == [] then []
    else if ps[0] == [] then NonEmpty(ps[1..])
    else [ps[0]] + NonEmpty(ps[1..])
  }

  /** Tokens that are all non-empty are all kept. */
  lemma {:induction false} NonEmptyKeeps(ps: seq<string>)
    requires forall i :: 0 <= i < |ps| ==> ps[i] != []
    ensures NonEmpty(ps) == ps
  {
    if ps != [] {
      NonEmptyKeeps(ps[1..]);
      assert ps == [ps[0]] + ps[1..];
    }
  }

  /** Every token trimmed, as `tokenizer.nextToken().trim()` in a loop does. */
  function TrimAll(ts: seq<string>): (r: seq<string>)
    ensures |r| == |ts|
    ensures forall i :: 0 <= i < |ts| ==> r[i] == Trim(ts[i])
  {
    if ts == [] then [] else [Trim(ts[0])] + TrimAll(ts[1..])
  }

  /** Trimming a list element by element distributes over concatenation. */
  lemma {:induction false} TrimAllAppend(a: seq<string>, b: seq<string>)
    ensures TrimAll(a + b) == TrimAll(a) + TrimAll(b)
    decreases |a|
  {
    if a == [] {
      assert a + b == b;
    } else {
      assert (a + b)[1..] == a[1..] + b;
      TrimAllAppend(a[1..], b);
    }
  }

  /** Trimming one more element of a prefix appends its trimmed form. */
  lemma {:induction false} TrimAllPrefix(ts: seq<string>, i: nat)
    requires i < |ts|
    ensures TrimAll(ts[..i + 1]) == TrimAll(ts[..i]) + [Trim(ts[i])]
  {
    assert ts[..i + 1] == ts[..i] + [ts[i]];
    TrimAllAppend(ts[..i], [ts[i]]);
  }

  /* ---------------------------------------------------------------- integers */

  predicate IsDigit(c: char) {
    '0' <= c <= '9'
  }

  function DigitChar(d: nat): char
    requires d < 10
  {
    ('0' as int + d) as char
  }

  /** The decimal text of a non-negative int, as `n + ""` produces it. */
  function NatToString(n: nat): (r: string)
    ensures r != [] && forall c :: c in r ==> IsDigit(c)
  {
    if n < 10 then [DigitChar(n)] else NatToString(n / 10) + [DigitChar(n % 10)]
  }

  function DigitValue(c: char): nat
    requires IsDigit(c)
  {
    c as int - '0' as int
  }

  /** The value of a decimal digit string. */
  function DigitsValue(ds: string): nat
    requires forall c :: c in ds ==> IsDigit(c)
  {
    if ds == [] then 0
    else
      assert ds[|ds| - 1] in ds;
      DigitsValue(ds[..|ds| - 1]) * 10 + DigitValue(ds[|ds| - 1])
  }

  const MIN_INT: int := -0x8000_0000
  const MAX_INT: int := 0x7fff_ffff

  /** `Integer.parseInt(s)` on ASCII digits: an optional sign and at least one digit,
      with the value inside the 32-bit range; anything else is a NumberFormatException,
      here `None`. */
  function ParseInt(s: string): (r: Option<int>)
    ensures r.Some? ==> MIN_INT <= r.value <= MAX_INT
  {
    var neg := s != [] && s[0] == '-';
    var digits := if s != [] && (s[0] == '-' || s[0] == '+') then s[1..] else s;
    if digits == [] || exists c :: c in digits && !IsDigit(c) then None
    else
      var n: int := DigitsValue(digits);
      var v := if neg then -n else n;
      if MIN_INT <= v <= MAX_INT then Some(v) else None
  }

  lemma {:induction false} DigitsValueOfNatToString(n: nat)
    ensures DigitsValue(NatToString(n)) == n
  {
    if n >= 10 {
      var s := NatToString(n);
      assert s[..|s| - 1] == NatToString(n / 10);
      DigitsValueOfNatToString(n / 10);
    }
  }

  /** Reading back the text of a 32-bit year gives the year. */
  lemma {:induction false} ParseIntOfNatToString(n: nat)
    requires n <= MAX_INT
    ensures ParseInt(NatToString(n)) == Some(n)
  {
    var s := NatToString(n);
    assert s[0] in s;
    DigitsValueOfNatToString(n);
  }

  /** The length of the leading run of digits. */
  function DigitRun(t: string): (n: nat)
    ensures n <= |t| && forall i :: 0 <= i < n ==> IsDigit(t[i])
    ensures n < |t| ==> !IsDigit(t[n])
  {
    if t != [] && IsDigit(t[0]) then 1 + DigitRun(t[1..]) else 0
  }

  lemma {:induction false} DigitRunOf(a: string, c: char, x: string)
    requires forall d :: d in a ==> IsDigit(d)
    requires !IsDigit(c)
    ensures DigitRun(a + [c] + x) == |a|
    decreases |a|
  {
    if a != [] {
      assert a[0] in a;
      assert (a + [c] + x)[1..] == a[1..] + [c] + x;
      DigitRunOf(a[1..], c, x);
    }
  }

  /** A digit string followed by a non-digit is determined by the whole text. */
  lemma {:induction false} DigitPrefixUnique(a: string, b: string, x: string, y: string, c: char)
    requires forall d :: d in a ==> IsDigit(d)
    requires forall d :: d in b ==> IsDigit(d)
    requires !IsDigit(c)
    requires a + [c] + x == b + [c] + y
    ensures a == b && x == y
  {
    DigitRunOf(a, c, x);
    DigitRunOf(b, c, y);
    var t := a + [c] + x;
    assert a == t[..|a|] && x == t[|a| + 1..];
    assert b == t[..|b|] && y == t[|b| + 1..];
  }

  /** The text of a positive number does not start with `0`. */
  lemma {:induction false} NatToStringNoLeadingZero(n: nat)
    requires n > 0
    ensures NatToString(n)[0] != '0'
  {
    if n >= 10 {
      NatToStringNoLeadingZero(n / 10);
    }
  }

  lemma {:induction false} NatToStringInjective(m: nat, n: nat)
    requires NatToString(m) == NatToString(n)
    ensures m == n
  {
    DigitsValueOfNatToString(m);
    DigitsValueOfNatToString(n);
  }
}

/** `Collections.sort` on a list whose elements have a natural order (String, Integer).
    Any correct sort gives the same list for such an order (SortedUnique), so the model
    sorts by insertion. */
module Sorting {
  import opened JavaStrings

  /** `le` is a total order: what `compareTo` provides for String and Integer. */
  ghost predicate TotalOrder<T(!new)>(le: (T, T) -> bool) {
    && (forall a, b :: le(a, b) || le(b, a))
    && (forall a, b :: le(a, b) && le(b, a) ==> a == b)
    && (forall a, b, c :: le(a, b) && le(b, c) ==> le(a, c))
  }

  ghost predicate SortedBy<T>(le: (T, T) -> bool, s: seq<T>) {
    forall i, j :: 0 <= i < j < |s| ==> le(s[i], s[j])
  }

  predicate Distinct<T(==)>(s: seq<T>) {
    forall i, j :: 0 <= i < j < |s| ==> s[i] != s[j]
  }

  /** The order of `String.compareTo`: lexicographic on the UTF-16 code units, where a
      proper prefix comes first. */
  predicate StringLe(a: string, b: string) {
    UnitsLe(Utf16(a), Utf16(b))
  }

  predicate UnitsLe(a: seq<int>, b: seq<int>) {
    a == [] || (b != [] && (a[0] < b[0] || (a[0] == b[0] && UnitsLe(a[1..], b[1..]))))
  }

  predicate IntLe(a: int, b: int) {
    a <= b
  }

  /** Inserts `x` before the first element it is not above. */
  function Insert<T>(le: (T, T) -> bool, x: T, s: seq<T>): seq<T> {
    if s == [] then [x]
    else if le(x, s[0]) then [x] + s
    else [s[0]] + Insert(le, x, s[1..])
  }

  /** `Collections.sort(list)` with the natural order `le`. */
  function Sort<T>(le: (T, T) -> bool, s: seq<T>): seq<T> {
    if s == [] then [] else Insert(le, s[0], Sort(le, s[1..]))
  }

  /** Inserting into an ordered list gives an ordered list with one more copy of `x`. */
  lemma {:induction false} InsertSpec<T(!new)>(le: (T, T) -> bool, x: T, s: seq<T>)
    requires TotalOrder(le) && SortedBy(le, s)
    ensures SortedBy(le, Insert(le, x, s))
    ensures multiset(Insert(le, x, s)) == multiset(s) + multiset{x}
  {
    if s == [] {
    } else if le(x, s[0]) {
      BelowHead(le, x, s);
      SortedCons(le, x, s);
    } else {
      SortedTail(le, s);
      InsertSpec(le, x, s[1..]);
      var t := Insert(le, x, s[1..]);
      HeadBelowInserted(le, x, s, t);
      SortedCons(le, s[0], t);
      HeadTail(s);
    }
  }

  /** What lies below the head of an ordered list lies below all of it. */
  lemma {:induction false} BelowHead<T(!new)>(le: (T, T) -> bool, x: T, s: seq<T>)
    requires TotalOrder(le) && SortedBy(le, s) && s != [] && le(x, s[0])
    ensures forall k :: 0 <= k < |s| ==> le(x, s[k])
  {
    forall k | 0 <= k < |s| ensures le(x, s[k]) {
      if k > 0 { assert le(s[0], s[k]); }
    }
  }

  /** An element below all of an ordered list can be put in front of it. */
  lemma {:induction false} SortedCons<T>(le: (T, T) -> bool, h: T, t: seq<T>)
    requires SortedBy(le, t) && forall k :: 0 <= k < |t| ==> le(h, t[k])
    ensures SortedBy(le, [h] + t)
  {
    var s := [h] + t;
    forall i, j | 0 <= i < j < |s| ensures le(s[i], s[j]) {
      assert s[j] == t[j - 1];
      if i > 0 { assert s[i] == t[i - 1]; }
    }
  }

  /** When `x` goes after the head, the head lies below everything of the tail with `x`
      inserted. */
  lemma {:induction false} HeadBelowInserted<T(!new)>(le: (T, T) -> bool, x: T, s: seq<T>, t: seq<T>)
    requires TotalOrder(le) && SortedBy(le, s) && s != [] && !le(x, s[0])
    requires multiset(t) == multiset(s[1..]) + multiset{x}
    ensures forall k :: 0 <= k < |t| ==> le(s[0], t[k])
  {
    forall k | 0 <= k < |t| ensures le(s[0], t[k]) {
      var y := t[k];
      assert y in multiset(t);
      if y != x {
        assert y in multiset(s[1..]);
        var m :| 0 <= m < |s[1..]| && s[1..][m] == y;
        assert le(s[0], s[m + 1]);
      }
    }
  }

  /** The sorted list is ordered and a permutation of the list. */
  lemma {:induction false} SortSpec<T(!new)>(le: (T, T) -> bool, s: seq<T>)
    requires TotalOrder(le)
    ensures SortedBy(le, Sort(le, s))
    ensures multiset(Sort(le, s)) == multiset(s)
  {
    if s != [] {
      SortSpec(le, s[1..]);
      InsertSpec(le, s[0], Sort(le, s[1..]));
      assert s == [s[0]] + s[1..];
    }
  }

  /** Under a total order a list has exactly one ordered permutation. */
  lemma {:induction false} SortedUnique<T(!new)>(le: (T, T) -> bool, r1: seq<T>, r2: seq<T>)
    requires TotalOrder(le)
    requires SortedBy(le, r1) && SortedBy(le, r2)
    requires multiset(r1) == multiset(r2)
    ensures r1 == r2
    decreases |r1|
  {
    if r1 != [] {
      SameHead(le, r1, r2);
      HeadTail(r1);
      HeadTail(r2);
      SortedTail(le, r1);
      SortedTail(le, r2);
      SortedUnique(le, r1[1..], r2[1..]);
      SameHeadSameTail(r1, r2);
    }
  }

  /** Lists with the same head and the same tail are equal. */
  lemma {:induction false} SameHeadSameTail<T>(r1: seq<T>, r2: seq<T>)
    requires r1 != [] && r2 != [] && r1[0] == r2[0] && r1[1..] == r2[1..]
    ensures r1 == r2
  {
    assert r1 == [r1[0]] + r1[1..] && r2 == [r2[0]] + r2[1..];
  }

  /** Two ordered permutations of a non-empty list start with the same element. */
  lemma {:induction false} SameHead<T(!new)>(le: (T, T) -> bool, r1: seq<T>, r2: seq<T>)
    requires TotalOrder(le)
    requires SortedBy(le, r1) && SortedBy(le, r2)
    requires multiset(r1) == multiset(r2) && r1 != []
    ensures r2 != [] && r1[0] == r2[0]
  {
    assert |r2| == |r1| by { assert |multiset(r1)| == |multiset(r2)|; }
    assert r1[0] in multiset(r2);
    assert r2[0] in multiset(r1);
    var i :| 0 <= i < |r2| && r2[i] == r1[0];
    var j :| 0 <= j < |r1| && r1[j] == r2[0];
    assert le(r2[0], r1[0]) by { if i > 0 { assert le(r2[0], r2[i]); } }
    assert le(r1[0], r2[0]) by { if j > 0 { assert le(r1[0], r1[j]); } }
  }

  /** The tail of a list holds its elements but one copy of the head. */
  lemma {:induction false} HeadTail<T>(r: seq<T>)
    requires r != []
    ensures multiset(r[1..]) == multiset(r) - multiset{r[0]}
  {
    assert r == [r[0]] + r[1..];
    assert multiset(r) == multiset{r[0]} + multiset(r[1..]);
  }

  /** The tail of an ordered list is ordered. */
  lemma {:induction false} SortedTail<T>(le: (T, T) -> bool, r: seq<T>)
    requires SortedBy(le, r) && r != []
    ensures SortedBy(le, r[1..])
  {
    forall i, j | 0 <= i < j < |r[1..]| ensures le(r[1..][i], r[1..][j]) {
      assert r[1..][i] == r[i + 1] && r[1..][j] == r[j + 1];
    }
  }

  lemma {:induction false} DistinctMultiset<T>(s: seq<T>)
    ensures Distinct(s) <==> forall x :: multiset(s)[x] <= 1
  {
    if s != [] {
      assert s == [s[0]] + s[1..];
      DistinctMultiset(s[1..]);
      if Distinct(s) {
        assert s[0] !in s[1..];
        assert Distinct(s[1..]) by {
          forall i, j | 0 <= i < j < |s[1..]| ensures s[1..][i] != s[1..][j] {
            assert s[1..][i] == s[i + 1] && s[1..][j] == s[j + 1];
          }
        }
      }
      if forall x :: multiset(s)[x] <= 1 {
        assert multiset(s) == multiset{s[0]} + multiset(s[1..]);
        assert multiset(s)[s[0]] <= 1;
        assert multiset(s[1..])[s[0]] == 0;
        forall x ensures multiset(s[1..])[x] <= 1 {
          assert multiset(s)[x] <= 1;
        }
        assert Distinct(s[1..]);
        forall i, j | 0 <= i < j < |s| ensures s[i] != s[j] {
          if i == 0 {
            assert s[j] in s[1..];
          } else {
            assert s[1..][i - 1] == s[i] && s[1..][j - 1] == s[j];
          }
        }
      }
    }
  }

  /** Sorting a duplicate-free list gives a strictly increasing list. */
  lemma {:induction false} SortDistinct<T(!new)>(le: (T, T) -> bool, s: seq<T>)
    requires TotalOrder(le) && Distinct(s)
    ensures Distinct(Sort(le, s))
  {
    SortSpec(le, s);
    DistinctMultiset(s);
    DistinctMultiset(Sort(le, s));
  }

  lemma {:induction false} StringLeTotal()
    ensures TotalOrder(StringLe)
  {
    forall a, b ensures StringLe(a, b) || StringLe(b, a) { UnitsLeConnected(Utf16(a), Utf16(b)); }
    forall a, b | StringLe(a, b) && StringLe(b, a) ensures a == b {
      UnitsLeAntisymmetric(Utf16(a), Utf16(b));
      Utf16Injective(a, b);
    }
    forall a, b, c | StringLe(a, b) && StringLe(b, c) ensures StringLe(a, c) {
      UnitsLeTransitive(Utf16(a), Utf16(b), Utf16(c));
    }
  }

  /** A char outside the Basic Multilingual Plane sorts before U+FF21, whose code point
      is smaller, because its first unit is a surrogate, 0xD83D. */
  lemma {:induction false} StringLeByUnits()
    ensures StringLe("\U{1F600}", "\U{FF21}") && !StringLe("\U{FF21}", "\U{1F600}")
  {
    assert Utf16("\U{1F600}") == Units('\U{1F600}') == [0xD83D, 0xDE00];
    assert Utf16("\U{FF21}") == Units('\U{FF21}') == [0xFF21];
  }

  lemma {:induction false} UnitsLeConnected(a: seq<int>, b: seq<int>)
    ensures UnitsLe(a, b) || UnitsLe(b, a)
    decreases |a|
  {
    if a != [] && b != [] && a[0] == b[0] { UnitsLeConnected(a[1..], b[1..]); }
  }

  lemma {:induction false} UnitsLeAntisymmetric(a: seq<int>, b: seq<int>)
    requires UnitsLe(a, b) && UnitsLe(b, a)
    ensures a == b
    decreases |a|
  {
    if a != [] {
      UnitsLeAntisymmetric(a[1..], b[1..]);
      assert a == [a[0]] + a[1..] && b == [b[0]] + b[1..];
    }
  }

  lemma {:induction false} UnitsLeTransitive(a: seq<int>, b: seq<int>, c: seq<int>)
    requires UnitsLe(a, b) && UnitsLe(b, c)
    ensures UnitsLe(a, c)
    decreases |a|
  {
    if a != [] && a[0] == b[0] && b[0] == c[0] { UnitsLeTransitive(a[1..], b[1..], c[1..]); }
  }

  lemma {:induction false} IntLeTotal()
    ensures TotalOrder(IntLe)
  {
  }
}

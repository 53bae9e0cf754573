/** The `java.util.List` idioms the exporters are built from: collecting values without
    duplicates with `contains`/`add`, and `remove(Object)`. */
module Lists {
  import opened Sorting

  /** `for (x : xs) if (!list.contains(x)) list.add(x);` on a list that starts as `list`. */
  function AddAll<T(==)>(list: seq<T>, xs: seq<T>): seq<T>
    decreases |xs|
  {
    if xs == [] then list
    else
      var r := AddAll(list, xs[..|xs| - 1]);
      if xs[|xs| - 1] in r then r else r + [xs[|xs| - 1]]
  }

  /** The collected list holds exactly the values of the start list and of `xs`. */
  lemma {:induction false} AddAllElems<T>(list: seq<T>, xs: seq<T>, x: T)
    ensures x in AddAll(list, xs) <==> x in list || x in xs
    decreases |xs|
  {
    if xs != [] {
      var init := xs[..|xs| - 1];
      AddAllElems(list, init, x);
      assert xs == init + [xs[|xs| - 1]];
    }
  }

  /** Collecting into a duplicate-free list keeps it duplicate-free. */
  lemma {:induction false} AddAllDistinct<T>(list: seq<T>, xs: seq<T>)
    requires Distinct(list)
    ensures Distinct(AddAll(list, xs))
    decreases |xs|
  {
    if xs != [] {
      AddAllDistinct(list, xs[..|xs| - 1]);
    }
  }

  /** The values already in the list stay in front, in their order. */
  lemma {:induction false} AddAllPrefix<T>(list: seq<T>, xs: seq<T>)
    ensures |list| <= |AddAll(list, xs)| && AddAll(list, xs)[..|list|] == list
    decreases |xs|
  {
    if xs != [] {
      AddAllPrefix(list, xs[..|xs| - 1]);
    }
  }

  /** Collecting `xs + ys` is collecting `xs`, then `ys`. */
  lemma {:induction false} AddAllAppend<T>(list: seq<T>, xs: seq<T>, ys: seq<T>)
    ensures AddAll(list, xs + ys) == AddAll(AddAll(list, xs), ys)
    decreases |ys|
  {
    if ys == [] {
      assert xs + ys == xs;
    } else {
      assert (xs + ys)[..|xs + ys| - 1] == xs + ys[..|ys| - 1];
      AddAllAppend(list, xs, ys[..|ys| - 1]);
    }
  }

  /** Collecting one more value adds it at the end unless it is already there. */
  lemma {:induction false} AddAllSnoc<T>(list: seq<T>, xs: seq<T>, x: T)
    ensures AddAll(list, xs + [x]) ==
      if x in AddAll(list, xs) then AddAll(list, xs) else AddAll(list, xs) + [x]
  {
    assert (xs + [x])[..|xs|] == xs;
  }

  /** The collecting loop itself. */
  method AddAbsent<T(==)>(list: seq<T>, xs: seq<T>) returns (r: seq<T>)
    ensures r == AddAll(list, xs)
  {
    r := list;
    var i := 0;
    while i < |xs|
      invariant 0 <= i <= |xs|
      invariant r == AddAll(list, xs[..i])
    {
      assert xs[..i + 1][..i] == xs[..i];
      if xs[i] !in r {
        r := r + [xs[i]];
      }
      i := i + 1;
    }
    assert xs[..|xs|] == xs;
  }

  /** `list.remove(x)` for an object `x`: drops the first element equal to `x`, if any. */
  function RemoveFirst<T(==)>(s: seq<T>, x: T): seq<T> {
    if s == [] then []
    else if s[0] == x then s[1..]
    else [s[0]] + RemoveFirst(s[1..], x)
  }

  /** `list.removeAll(Arrays.asList(x))`: drops every element equal to `x`. */
  function RemoveAll<T(==)>(s: seq<T>, x: T): seq<T> {
    if s == [] then []
    else if s[0] == x then RemoveAll(s[1..], x)
    else [s[0]] + RemoveAll(s[1..], x)
  }

  /** After removeAll, `x` is gone and every other element is kept. */
  lemma {:induction false} RemoveAllElems<T>(s: seq<T>, x: T, y: T)
    ensures y in RemoveAll(s, x) <==> y in s && y != x
  {
    if s != [] {
      RemoveAllElems(s[1..], x, y);
      assert s == [s[0]] + s[1..];
    }
  }

  /** remove(x) keeps only elements of the list, and every element other than `x`. */
  lemma {:induction false} RemoveFirstElems<T>(s: seq<T>, x: T, y: T)
    ensures y in RemoveFirst(s, x) ==> y in s
    ensures y != x && y in s ==> y in RemoveFirst(s, x)
  {
    if s != [] {
      RemoveFirstElems(s[1..], x, y);
      assert s == [s[0]] + s[1..];
    }
  }

  /** A list without `x` is left as it is (`remove` returns false). */
  lemma {:induction false} RemoveFirstAbsent<T>(s: seq<T>, x: T)
    requires x !in s
    ensures RemoveFirst(s, x) == s
  {
    if s != [] {
      assert x !in s[1..];
      RemoveFirstAbsent(s[1..], x);
    }
  }

  /** Removing `x` takes exactly one copy of `x` out of the list, if it has one. */
  lemma {:induction false} RemoveFirstMultiset<T>(s: seq<T>, x: T)
    ensures multiset(RemoveFirst(s, x)) == multiset(s) - multiset{x}
  {
    if s != [] {
      assert s == [s[0]] + s[1..];
      if s[0] != x {
        RemoveFirstMultiset(s[1..], x);
      }
    }
  }

  /** Removing the element at index `i` (`List.remove` of an element stored once). */
  lemma {:induction false} RemoveAtMultiset<T>(s: seq<T>, i: int)
    requires 0 <= i < |s|
    ensures multiset(s[..i] + s[i + 1..]) == multiset(s) - multiset{s[i]}
    ensures multiset(s[..i] + s[i + 1..]) <= multiset(s)
  {
    assert s == s[..i] + [s[i]] + s[i + 1..];
  }

  /** Taking `b` out of `a` removes at most |b| elements. */
  lemma {:induction false} MultisetDifferenceSize<T>(a: multiset<T>, b: multiset<T>)
    ensures |a - b| >= |a| - |b|
  {
    var i := a * b;
    assert a == (a - b) + i;
    assert b == (b - a) + i;
  }

  /** A prefix of a prefix is a prefix. */
  lemma {:induction false} PrefixOfPrefix<T>(a: seq<T>, b: seq<T>, c: seq<T>)
    requires |c| <= |b| <= |a| && a[..|b|] == b && b[..|c|] == c
    ensures a[..|c|] == c
  {
    assert a[..|b|][..|c|] == a[..|c|];
  }

  /** Moving `x` from one list to the end of another keeps the two lists' elements together. */
  lemma {:induction false} RemoveFirstMoves<T>(a: seq<T>, s: seq<T>, x: T)
    requires x in a
    ensures multiset(RemoveFirst(a, x)) + multiset(s + [x]) == multiset(a) + multiset(s)
  {
    RemoveFirstMultiset(a, x);
    assert multiset(a) == multiset(a) - multiset{x} + multiset{x};
  }

  /** A list one longer than its prefix `b` is `b` and its last element. */
  lemma {:induction false} PrefixSnoc<T>(a: seq<T>, b: seq<T>)
    requires |a| == |b| + 1 && a[..|b|] == b
    ensures a == b + [a[|b|]]
  {
  }

  /** `r` is `s` with some elements left out, the rest in their order. */
  predicate SubsequenceOf<T(==)>(r: seq<T>, s: seq<T>)
    decreases |s|
  {
    if r == [] then true
    else if s == [] then false
    else if r[|r| - 1] == s[|s| - 1] then SubsequenceOf(r[..|r| - 1], s[..|s| - 1])
    else SubsequenceOf(r, s[..|s| - 1])
  }

  /** A subsequence of `s` is still one of `s + [x]`, and extends to `r + [x]`. */
  lemma {:induction false} SubsequenceSnoc<T>(r: seq<T>, s: seq<T>, x: T)
    requires SubsequenceOf(r, s)
    ensures SubsequenceOf(r, s + [x]) && SubsequenceOf(r + [x], s + [x])
    decreases |s|, 1
  {
    assert (s + [x])[..|s|] == s;
    assert (r + [x])[..|r|] == r;
    if r != [] && r[|r| - 1] == x {
      SubsequenceDropLast(r, s);
    }
  }

  /** Leaving out the last element of a subsequence gives a subsequence. */
  lemma {:induction false} SubsequenceDropLast<T>(r: seq<T>, s: seq<T>)
    requires r != [] && SubsequenceOf(r, s)
    ensures SubsequenceOf(r[..|r| - 1], s)
    decreases |s|, 0
  {
    var init := s[..|s| - 1];
    assert s == init + [s[|s| - 1]];
    if r[|r| - 1] == s[|s| - 1] {
      SubsequenceSnoc(r[..|r| - 1], init, s[|s| - 1]);
    } else {
      SubsequenceDropLast(r, init);
      SubsequenceSnoc(r[..|r| - 1], init, s[|s| - 1]);
    }
  }

  /** An index list of the exporters: the values of `xs` collected without duplicates,
      then sorted with `Collections.sort`. */
  function IndexList<T(==)>(le: (T, T) -> bool, xs: seq<T>): seq<T> {
    Sort(le, AddAll([], xs))
  }

  /** An index list is sorted, duplicate-free, and holds exactly the values of `xs`. */
  lemma {:induction false} IndexListSpec<T(!new)>(le: (T, T) -> bool, xs: seq<T>)
    requires TotalOrder(le)
    ensures SortedBy(le, IndexList(le, xs)) && Distinct(IndexList(le, xs))
    ensures forall x :: x in IndexList(le, xs) <==> x in xs
  {
    var u := AddAll([], xs);
    SortSpec(le, u);
    AddAllDistinct([], xs);
    SortDistinct(le, u);
    forall x ensures x in IndexList(le, xs) <==> x in xs {
      AddAllElems([], xs, x);
      assert x in IndexList(le, xs) <==> x in multiset(IndexList(le, xs));
      assert x in u <==> x in multiset(u);
    }
  }

  /** Membership in a sequence with one more element at the end. */
  lemma {:induction false} InSnoc<T>(s: seq<T>, x: T, y: T)
    ensures y in s + [x] <==> y in s || y == x
  {
  }

  /** A non-empty sequence is its prefix plus its last element. */
  lemma {:induction false} Snoc<T>(s: seq<T>)
    requires s != []
    ensures s == s[..|s| - 1] + [s[|s| - 1]]
  {
  }

  /** Membership split between the prefix and the last element. */
  lemma {:induction false} InInit<T>(s: seq<T>, y: T)
    requires s != []
    ensures y in s <==> y in s[..|s| - 1] || y == s[|s| - 1]
  {
    assert s == s[..|s| - 1] + [s[|s| - 1]];
  }

  /** A suffix of a non-empty sequence is the suffix of its prefix plus its last element. */
  lemma {:induction false} DropSnoc<T>(s: seq<T>, k: int)
    requires 0 <= k < |s|
    ensures s[k..] == s[..|s| - 1][k..] + [s[|s| - 1]]
  {
  }
}

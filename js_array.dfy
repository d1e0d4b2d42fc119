/** The few `Array.prototype` operations the action relies on, as functions
    over sequences, with the facts about them the rest of the model uses. */
module JsArray {

  /** `s.indexOf(x)`: the position of the first `x` in `s`, or -1. */
  function IndexOf<T(==)>(s: seq<T>, x: T): (i: int)
    ensures -1 <= i < |s|
    ensures i == -1 <==> x !in s
    ensures 0 <= i ==> s[i] == x && x !in s[..i]
  {
    if s == [] then -1
    else if s[0] == x then 0
    else
      var j := IndexOf(s[1..], x);
      assert s[1..][..j + 1] == s[1..j + 2] by { }
      if j == -1 then -1 else j + 1
  }

  /** `s.map(f)`. */
  function Map<T, U>(s: seq<T>, f: T -> U): (r: seq<U>)
    ensures |r| == |s|
    ensures forall i :: 0 <= i < |s| ==> r[i] == f(s[i])
  {
    if s == [] then [] else Map(s[..|s| - 1], f) + [f(s[|s| - 1])]
  }

  /** `s.filter(p)` for a callback that only looks at the element. */
  function Filter<T>(s: seq<T>, p: T -> bool): (r: seq<T>)
    ensures |r| <= |s|
    ensures forall i :: 0 <= i < |r| ==> p(r[i])
  {
    if s == [] then []
    else Filter(s[..|s| - 1], p) + (if p(s[|s| - 1]) then [s[|s| - 1]] else [])
  }

  /** `a` is `b` with some elements left out, the others kept in order:
      the last element of `b` is either skipped or matched with the last of `a`. */
  predicate IsSubsequence<T(==)>(a: seq<T>, b: seq<T>)
    decreases |b|
  {
    a == [] ||
    (b != [] &&
     (IsSubsequence(a, b[..|b| - 1]) ||
      (a[|a| - 1] == b[|b| - 1] && IsSubsequence(a[..|a| - 1], b[..|b| - 1]))))
  }

  /** No value occurs twice. */
  predicate NoDuplicates<T(==)>(s: seq<T>) {
    forall i, j :: 0 <= i < j < |s| ==> s[i] != s[j]
  }

  /** Reference definition of de-duplication: read left to right, an
      element is kept exactly when it has not been seen before. */
  function Distinct<T(==)>(s: seq<T>): (r: seq<T>)
    ensures |r| <= |s|
  {
    if s == [] then []
    else if s[|s| - 1] in s[..|s| - 1] then Distinct(s[..|s| - 1])
    else Distinct(s[..|s| - 1]) + [s[|s| - 1]]
  }

  /** The idiom `s.filter((item, index) => s.indexOf(item) === index)`:
      keep the element at `index` when `indexOf` finds it there first.
      `FirstOccurrencesFrom(s, n)` is that filter run over `s[n..]`. */
  function FirstOccurrencesFrom<T(==)>(s: seq<T>, n: nat): seq<T>
    requires n <= |s|
    decreases |s| - n
  {
    if n == |s| then []
    else (if IndexOf(s, s[n]) == n then [s[n]] else []) + FirstOccurrencesFrom(s, n + 1)
  }

  function KeepFirstOccurrences<T(==)>(s: seq<T>): seq<T> {
    FirstOccurrencesFrom(s, 0)
  }

  // ---------------------------------------------------------------- filter

  lemma MapOfPrefix<T, U>(s: seq<T>, f: T -> U, n: nat)
    requires n <= |s|
    ensures Map(s[..n], f) == Map(s, f)[..n]
  {
    var l, r := Map(s[..n], f), Map(s, f)[..n];
    forall i | 0 <= i < n
      ensures l[i] == r[i]
    {
      assert s[..n][i] == s[i];
    }
  }

  lemma {:induction false} FilterIsSubsequence<T>(s: seq<T>, p: T -> bool)
    ensures IsSubsequence(Filter(s, p), s)
    decreases |s|
  {
    if s != [] {
      var init := s[..|s| - 1];
      var r := Filter(s, p);
      FilterIsSubsequence(init, p);
      if p(s[|s| - 1]) {
        assert r == Filter(init, p) + [s[|s| - 1]];
        assert r[..|r| - 1] == Filter(init, p);
      } else {
        assert r == Filter(init, p);
      }
    }
  }

  /** The filter keeps every copy of a value that passes and no copy of a
      value that does not. */
  lemma {:induction false} FilterMultiplicity<T>(s: seq<T>, p: T -> bool)
    ensures forall x :: multiset(Filter(s, p))[x] == if p(x) then multiset(s)[x] else 0
    decreases |s|
  {
    if s != [] {
      var init := s[..|s| - 1];
      FilterMultiplicity(init, p);
      assert s == init + [s[|s| - 1]];
    }
  }

  lemma FilterMembership<T>(s: seq<T>, p: T -> bool)
    ensures forall x :: x in Filter(s, p) <==> x in s && p(x)
  {
    FilterMultiplicity(s, p);
    forall x ensures x in Filter(s, p) <==> x in s && p(x) {
      assert x in Filter(s, p) <==> multiset(Filter(s, p))[x] > 0;
      assert x in s <==> multiset(s)[x] > 0;
    }
  }

  lemma {:induction false} FilterOfPrefix<T>(s: seq<T>, p: T -> bool, n: nat)
    requires n <= |s|
    ensures Filter(s[..n], p) <= Filter(s, p)
    decreases |s|
  {
    if n < |s| {
      var init := s[..|s| - 1];
      assert s[..n] == init[..n];
      FilterOfPrefix(init, p, n);
    } else {
      assert s[..n] == s;
    }
  }

  /** Removing duplicates from a non-empty sequence of copies of `x` leaves `[x]`. */
  lemma {:induction false} DistinctOfConstant<T>(s: seq<T>, x: T)
    requires s != []
    requires forall y :: y in s ==> y == x
    ensures Distinct(s) == [x]
    decreases |s|
  {
    var init := s[..|s| - 1];
    assert s[|s| - 1] in s;
    if init != [] {
      assert forall y :: y in init ==> y in s;
      DistinctOfConstant(init, x);
      assert init[0] in init;
    }
  }

  /** A filter of distinct elements has distinct elements. */
  lemma {:induction false} FilterNoDuplicates<T>(s: seq<T>, p: T -> bool)
    requires NoDuplicates(s)
    ensures NoDuplicates(Filter(s, p))
    decreases |s|
  {
    if s != [] {
      var init, x := s[..|s| - 1], s[|s| - 1];
      FilterNoDuplicates(init, p);
      FilterMembership(init, p);
      assert x !in init;
    }
  }

  lemma FilterAppend<T>(s: seq<T>, x: T, p: T -> bool)
    ensures Filter(s + [x], p) == Filter(s, p) + (if p(x) then [x] else [])
  {
    assert (s + [x])[..|s|] == s;
  }

  lemma MapAppend<T, U>(s: seq<T>, x: T, f: T -> U)
    ensures Map(s + [x], f) == Map(s, f) + [f(x)]
  {
    assert (s + [x])[..|s|] == s;
  }

  // -------------------------------------------------------------- distinct

  lemma {:induction false} DistinctMembership<T>(s: seq<T>)
    ensures forall x :: x in Distinct(s) <==> x in s
    decreases |s|
  {
    if s != [] {
      var init := s[..|s| - 1];
      DistinctMembership(init);
      assert s == init + [s[|s| - 1]];
    }
  }

  lemma {:induction false} DistinctNoDuplicates<T>(s: seq<T>)
    ensures NoDuplicates(Distinct(s))
    decreases |s|
  {
    if s != [] {
      var init := s[..|s| - 1];
      DistinctNoDuplicates(init);
      DistinctMembership(init);
    }
  }

  lemma DistinctAppend<T>(s: seq<T>, x: T)
    ensures Distinct(s + [x]) == if x in s then Distinct(s) else Distinct(s) + [x]
  {
    assert (s + [x])[..|s|] == s;
  }

  /** Processing more input only appends: the output for a prefix is a
      prefix of the output, so the order is the order of first occurrence. */
  lemma {:induction false} DistinctOfPrefix<T>(s: seq<T>, n: nat)
    requires n <= |s|
    ensures Distinct(s[..n]) <= Distinct(s)
    decreases |s|
  {
    if n < |s| {
      var init := s[..|s| - 1];
      assert s[..n] == init[..n];
      DistinctOfPrefix(init, n);
    } else {
      assert s[..n] == s;
    }
  }

  /** De-duplication is monotone in the prefix order of its input. */
  lemma DistinctMonotone<T>(a: seq<T>, b: seq<T>)
    requires a <= b
    ensures Distinct(a) <= Distinct(b)
  {
    assert b[..|a|] == a;
    DistinctOfPrefix(b, |a|);
  }

  /** The `indexOf` filter is the reference de-duplication. */
  lemma KeepFirstOccurrencesIsDistinct<T>(s: seq<T>)
    ensures KeepFirstOccurrences(s) == Distinct(s)
  {
    FirstOccurrencesSplit(s, 0);
    assert s[..0] == [];
  }

  lemma {:induction false} FirstOccurrencesSplit<T>(s: seq<T>, n: nat)
    requires n <= |s|
    ensures Distinct(s[..n]) + FirstOccurrencesFrom(s, n) == Distinct(s)
    decreases |s| - n
  {
    if n == |s| {
      assert s[..n] == s;
    } else {
      FirstOccurrencesSplit(s, n + 1);
      FirstOccurrencesShift(s, n, Distinct(s));
    }
  }

  /** Moving the split point back by one keeps the concatenation. */
  lemma FirstOccurrencesShift<T>(s: seq<T>, n: nat, whole: seq<T>)
    requires n < |s|
    requires Distinct(s[..n + 1]) + FirstOccurrencesFrom(s, n + 1) == whole
    ensures Distinct(s[..n]) + FirstOccurrencesFrom(s, n) == whole
  {
    var x, pre := s[n], s[..n];
    var d, rest := Distinct(pre), FirstOccurrencesFrom(s, n + 1);
    var kept := if x in pre then [] else [x];
    assert FirstOccurrencesFrom(s, n) == kept + rest by {
      FirstOccurrencesStep(s, n);
    }
    assert Distinct(s[..n + 1]) == d + kept by {
      assert s[..n + 1] == pre + [x];
      DistinctAppend(pre, x);
    }
    assert d + (kept + rest) == (d + kept) + rest;
  }

  /** One step of the `indexOf` filter: the element at `n` is kept exactly
      when it does not occur earlier. */
  lemma FirstOccurrencesStep<T>(s: seq<T>, n: nat)
    requires n < |s|
    ensures FirstOccurrencesFrom(s, n) ==
      (if s[n] in s[..n] then [] else [s[n]]) + FirstOccurrencesFrom(s, n + 1)
  {
    IndexOfIsFirst(s, n);
  }

  /** `indexOf` finds position `n` exactly when no earlier element is equal. */
  lemma IndexOfIsFirst<T>(s: seq<T>, n: nat)
    requires n < |s|
    ensures IndexOf(s, s[n]) == n <==> s[n] !in s[..n]
  {
    var x, i := s[n], IndexOf(s, s[n]);
    assert forall j :: 0 <= j < i ==> s[..i][j] == s[j];
    assert forall j :: 0 <= j < n ==> s[..n][j] == s[j];
  }
}

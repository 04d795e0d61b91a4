/** List helpers shared by the evidence and comparison models. */
module Lists {
  import opened Order

  /** `[x for x in s if p(x)]`. */
  function Filter<T(!new)>(s: seq<T>, p: T -> bool): (r: seq<T>)
    ensures |r| <= |s|
    ensures forall x :: x in r <==> x in s && p(x)
  {
    if s == [] then []
    else
      assert s == [s[0]] + s[1..];
      if p(s[0]) then [s[0]] + Filter(s[1..], p) else Filter(s[1..], p)
  }

  lemma {:induction false} FilterCount<T(!new)>(s: seq<T>, p: T -> bool, x: T)
    ensures multiset(Filter(s, p))[x] == if p(x) then multiset(s)[x] else 0
  {
    if s != [] {
      assert s == [s[0]] + s[1..];
      FilterCount(s[1..], p, x);
    }
  }

  /** Filtering twice is filtering by both tests. */
  lemma {:induction false} FilterFilter<T(!new)>(s: seq<T>, p: T -> bool, q: T -> bool, both: T -> bool)
    requires forall x :: both(x) == (p(x) && q(x))
    ensures Filter(Filter(s, p), q) == Filter(s, both)
  {
    if s != [] { FilterFilter(s[1..], p, q, both); }
  }

  lemma {:induction false} FilterAll<T(!new)>(s: seq<T>, p: T -> bool)
    requires forall x :: x in s ==> p(x)
    ensures Filter(s, p) == s
  {
    if s != [] {
      FilterAll(s[1..], p);
      assert s == [s[0]] + s[1..];
    }
  }

  /** A filtered permutation is a permutation of the filtered list. */
  lemma FilterPermutation<T(!new)>(s: seq<T>, t: seq<T>, p: T -> bool)
    requires multiset(s) == multiset(t)
    ensures multiset(Filter(s, p)) == multiset(Filter(t, p))
  {
    forall x ensures multiset(Filter(s, p))[x] == multiset(Filter(t, p))[x] {
      FilterCount(s, p, x);
      FilterCount(t, p, x);
    }
  }

  lemma {:induction false} FilterConcat<T(!new)>(s: seq<T>, t: seq<T>, p: T -> bool)
    ensures Filter(s + t, p) == Filter(s, p) + Filter(t, p)
  {
    if s == [] {
      assert s + t == t;
    } else {
      assert (s + t)[1..] == s[1..] + t;
      FilterConcat(s[1..], t, p);
    }
  }

  lemma FilterSnoc<T(!new)>(s: seq<T>, x: T, p: T -> bool)
    ensures Filter(s + [x], p) == Filter(s, p) + if p(x) then [x] else []
  {
    FilterConcat(s, [x], p);
    assert Filter([x], p) == if p(x) then [x] else [];
  }

  ghost predicate NoDuplicates<T>(s: seq<T>) {
    forall i, j :: 0 <= i < j < |s| ==> s[i] != s[j]
  }

  lemma {:induction false} DistinctSize<T>(names: seq<T>)
    requires NoDuplicates(names)
    ensures |set x | x in names| == |names|
  {
    if names == [] {
      assert (set x | x in names) == {};
    } else {
      var rest := names[1..];
      DistinctSize(rest);
      assert names == [names[0]] + rest;
      assert (set x | x in names) == {names[0]} + (set x | x in rest);
      assert names[0] !in rest;
    }
  }

  /** `list(dict.fromkeys(s))`: the first occurrences, in order. */
  function Distinct<T(==,!new)>(s: seq<T>): (r: seq<T>)
    ensures forall x :: x in r <==> x in s
  {
    if s == [] then []
    else
      assert s == s[..|s| - 1] + [s[|s| - 1]];
      var before, last := Distinct(s[..|s| - 1]), s[|s| - 1];
      if last in before then before else before + [last]
  }

  lemma {:induction false} DistinctOnce<T(!new)>(s: seq<T>)
    ensures NoDuplicates(Distinct(s))
    ensures |Distinct(s)| == |set x | x in s|
  {
    if s != [] { DistinctOnce(s[..|s| - 1]); }
    DistinctSize(Distinct(s));
    assert (set x | x in s) == set x | x in Distinct(s);
  }

  /** `[f(x) for x in s]`. */
  function Map<T, U>(s: seq<T>, f: T -> U): (r: seq<U>)
    ensures |r| == |s| && forall i :: 0 <= i < |s| ==> r[i] == f(s[i])
  {
    seq(|s|, i requires 0 <= i < |s| => f(s[i]))
  }

  lemma MapIs<T, U>(s: seq<T>, r: seq<U>, f: T -> U)
    requires |r| == |s| && forall i :: 0 <= i < |s| ==> r[i] == f(s[i])
    ensures r == Map(s, f)
  {
  }

  lemma MapCons<T, U>(x: T, s: seq<T>, f: T -> U)
    ensures Map([x] + s, f) == [f(x)] + Map(s, f)
  {
  }

  lemma MapSnoc<T, U>(s: seq<T>, i: nat, f: T -> U)
    requires i < |s|
    ensures Map(s[..i + 1], f) == Map(s[..i], f) + [f(s[i])]
  {
  }

  lemma MapConcat<T, U>(s: seq<T>, t: seq<T>, f: T -> U)
    ensures Map(s + t, f) == Map(s, f) + Map(t, f)
  {
  }

  lemma {:induction false} MapCount<T(!new), U>(s: seq<T>, f: T -> U, y: U, hits: T -> bool)
    requires forall x :: hits(x) == (f(x) == y)
    ensures multiset(Map(s, f))[y] == |Filter(s, hits)|
  {
    if s != [] {
      MapCount(s[1..], f, y, hits);
      assert s == [s[0]] + s[1..];
      MapCons(s[0], s[1..], f);
    }
  }

  /** Permuting a list permutes what it is mapped to. */
  lemma MapPermutation<T(!new), U(!new)>(s: seq<T>, t: seq<T>, f: T -> U)
    requires multiset(s) == multiset(t)
    ensures multiset(Map(s, f)) == multiset(Map(t, f))
  {
    forall y ensures multiset(Map(s, f))[y] == multiset(Map(t, f))[y] {
      var hits := x => f(x) == y;
      MapCount(s, f, y, hits);
      MapCount(t, f, y, hits);
      FilterPermutation(s, t, hits);
      assert |Filter(s, hits)| == |multiset(Filter(s, hits))|;
    }
  }

  lemma {:induction false} MapInsert<T, U>(x: T, s: seq<T>, leq: (T, T) -> bool, f: T -> U)
    ensures multiset(Map(Insert(x, s, leq), f)) == multiset{f(x)} + multiset(Map(s, f))
  {
    if s == [] || leq(x, s[0]) {
      MapCons(x, s, f);
      assert s == [] ==> [x] == [x] + s;
    } else {
      assert s == [s[0]] + s[1..];
      MapInsert(x, s[1..], leq, f);
      MapCons(s[0], s[1..], f);
      MapCons(s[0], Insert(x, s[1..], leq), f);
    }
  }

  /** Mapping a sorted list gives the same values as mapping the list, as often. */
  lemma {:induction false} MapSort<T, U>(s: seq<T>, leq: (T, T) -> bool, f: T -> U)
    ensures multiset(Map(Sort(s, leq), f)) == multiset(Map(s, f))
  {
    if s != [] {
      assert s == [s[0]] + s[1..];
      MapSort(s[1..], leq, f);
      MapInsert(s[0], Sort(s[1..], leq), leq, f);
      MapCons(s[0], s[1..], f);
    }
  }

  /** The elements of a set in some order. */
  ghost function AnyOrder<T>(s: set<T>): (r: seq<T>)
    ensures multiset(r) == multiset(s)
    decreases s
  {
    if s == {} then []
    else
      var x :| x in s;
      [x] + AnyOrder(s - {x})
  }

  /** `sorted(s)` for a set of str values. */
  ghost function SortedNames(s: set<string>): seq<string> { Sort(AnyOrder(s), TextOrder()) }

  lemma SortedNamesAre(s: set<string>)
    ensures NoDuplicates(SortedNames(s)) && |SortedNames(s)| == |s|
    ensures forall x :: x in SortedNames(s) <==> x in s
  {
    var r := SortedNames(s);
    assert |r| == |multiset(r)| == |multiset(s)|;
    forall x ensures x in r <==> x in s {
      assert x in r <==> x in multiset(r);
    }
    forall i, j | 0 <= i < j < |r| ensures r[i] != r[j] {
      TwicePresent(r, i, j);
    }
  }

  lemma TwicePresent<T>(s: seq<T>, i: int, j: int)
    requires 0 <= i < j < |s|
    ensures s[i] == s[j] ==> multiset(s)[s[i]] >= 2
  {
    assert s == s[..j] + [s[j]] + s[j + 1..];
    assert s[i] in s[..j];
  }

  method SortSet(s: set<string>) returns (r: seq<string>)
    ensures r == SortedNames(s)
  {
    var listed: seq<string>, rest := [], s;
    while rest != {}
      invariant rest <= s && multiset(listed) == multiset(s - rest)
      decreases rest
    {
      var x :| x in rest;
      assert s - (rest - {x}) == (s - rest) + {x};
      listed, rest := listed + [x], rest - {x};
    }
    assert s - {} == s;
    TextOrdered();
    TextsDistinguished(listed);
    SortPermutation(listed, AnyOrder(s), TextOrder());
    r := Sort(listed, TextOrder());
  }
}

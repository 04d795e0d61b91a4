/**
 Stable sorting by a total preorder, as Python's `sorted` does it, and the two facts the
 orchestrator relies on: a sort is a permutation, and the sorted form of a collection whose
 elements the order tells apart does not depend on the order it arrived in.
 */
module Order {

  /** Python's comparison of two str values: code point by code point, a prefix first. */
  predicate StrLeq(a: string, b: string) {
    if a == "" then true
    else if b == "" then false
    else if a[0] != b[0] then a[0] < b[0]
    else StrLeq(a[1..], b[1..])
  }

  lemma {:induction false} StrLeqTotal(a: string, b: string)
    ensures StrLeq(a, b) || StrLeq(b, a)
    decreases |a|
  {
    if a != "" && b != "" && a[0] == b[0] {
      StrLeqTotal(a[1..], b[1..]);
    }
  }

  lemma {:induction false} StrLeqAntisymmetric(a: string, b: string)
    requires StrLeq(a, b) && StrLeq(b, a)
    ensures a == b
    decreases |a|
  {
    if a != "" && b != "" {
      StrLeqAntisymmetric(a[1..], b[1..]);
      assert a == [a[0]] + a[1..] && b == [b[0]] + b[1..];
    }
  }

  lemma {:induction false} StrLeqTransitive(a: string, b: string, c: string)
    requires StrLeq(a, b) && StrLeq(b, c)
    ensures StrLeq(a, c)
    decreases |a|
  {
    if a != "" && a[0] == b[0] && b[0] == c[0] {
      StrLeqTransitive(a[1..], b[1..], c[1..]);
    }
  }

  /** `i` is the first place at which the two differ. */
  predicate DiffersFirstAt(a: string, b: string, i: nat) {
    i < |a| && i < |b| && a[i] != b[i] && forall k :: 0 <= k < i ==> a[k] == b[k]
  }

  /** A prefix comes first; otherwise the character at the first difference decides. */
  lemma {:induction false} StrLeqIff(a: string, b: string)
    ensures StrLeq(a, b) <==> a <= b || exists i: nat :: DiffersFirstAt(a, b, i) && a[i] < b[i]
    decreases |a|
  {
    if a != "" && b != "" {
      if a[0] != b[0] {
        assert DiffersFirstAt(a, b, 0);
      } else {
        StrLeqIff(a[1..], b[1..]);
        assert a <= b <==> a[1..] <= b[1..] by { assert a == [a[0]] + a[1..] && b == [b[0]] + b[1..]; }
        if i: nat :| DiffersFirstAt(a, b, i) && a[i] < b[i] {
          assert DiffersFirstAt(a[1..], b[1..], i - 1) && a[1..][i - 1] < b[1..][i - 1];
        }
        if i: nat :| DiffersFirstAt(a[1..], b[1..], i) && a[1..][i] < b[1..][i] {
          assert DiffersFirstAt(a, b, i + 1) && a[i + 1] < b[i + 1];
        }
      }
    }
  }

  /** Reflexive through totality, transitive, any two elements comparable. */
  ghost predicate TotalPreorder<T(!new)>(leq: (T, T) -> bool) {
    && (forall a, b :: leq(a, b) || leq(b, a))
    && (forall a, b, c :: leq(a, b) && leq(b, c) ==> leq(a, c))
  }

  ghost predicate Sorted<T>(s: seq<T>, leq: (T, T) -> bool) {
    forall i, j :: 0 <= i < j < |s| ==> leq(s[i], s[j])
  }

  /** The order tells any two different elements of `s` apart. */
  ghost predicate Distinguishes<T>(s: seq<T>, leq: (T, T) -> bool) {
    forall x, y :: x in s && y in s && leq(x, y) && leq(y, x) ==> x == y
  }

  function Insert<T>(x: T, s: seq<T>, leq: (T, T) -> bool): (r: seq<T>)
    ensures multiset(r) == multiset([x]) + multiset(s)
    ensures |r| == |s| + 1
  {
    if s == [] then [x]
    else if leq(x, s[0]) then [x] + s
    else
      assert s == [s[0]] + s[1..];
      [s[0]] + Insert(x, s[1..], leq)
  }

  /** Insertion from the right, so that equal elements keep their order. */
  function Sort<T>(s: seq<T>, leq: (T, T) -> bool): (r: seq<T>)
    ensures multiset(r) == multiset(s)
    ensures |r| == |s|
  {
    if s == [] then []
    else
      assert s == [s[0]] + s[1..];
      Insert(s[0], Sort(s[1..], leq), leq)
  }

  lemma {:induction false} InsertSorted<T(!new)>(x: T, s: seq<T>, leq: (T, T) -> bool)
    requires TotalPreorder(leq) && Sorted(s, leq)
    ensures Sorted(Insert(x, s, leq), leq)
  {
    if s == [] {
    } else if leq(x, s[0]) {
      var r := [x] + s;
      forall i, j | 0 <= i < j < |r| ensures leq(r[i], r[j]) {
        if i == 0 && j > 1 { assert leq(s[0], s[j - 1]); }
      }
    } else {
      InsertSorted(x, s[1..], leq);
      var t := Insert(x, s[1..], leq);
      var r := [s[0]] + t;
      forall i, j | 0 <= i < j < |r| ensures leq(r[i], r[j]) {
        if i == 0 {
          assert t[j - 1] in multiset(t);
          assert t[j - 1] in multiset([x]) || t[j - 1] in multiset(s[1..]);
          assert t[j - 1] == x || t[j - 1] in s[1..];
        }
      }
    }
  }

  lemma {:induction false} SortSorts<T(!new)>(s: seq<T>, leq: (T, T) -> bool)
    requires TotalPreorder(leq)
    ensures Sorted(Sort(s, leq), leq)
  {
    if s != [] {
      SortSorts(s[1..], leq);
      InsertSorted(s[0], Sort(s[1..], leq), leq);
    }
  }

  lemma TailSorted<T>(s: seq<T>, leq: (T, T) -> bool)
    requires s != [] && Sorted(s, leq)
    ensures Sorted(s[1..], leq) && multiset(s[1..]) == multiset(s) - multiset{s[0]}
    ensures Distinguishes(s, leq) ==> Distinguishes(s[1..], leq)
  {
    assert s == [s[0]] + s[1..];
  }

  lemma Uncons<T>(s: seq<T>, t: seq<T>)
    requires s != [] && t != [] && s[0] == t[0] && s[1..] == t[1..]
    ensures s == t
  {
    assert s == [s[0]] + s[1..];
  }

  lemma SortedHeads<T(!new)>(s: seq<T>, t: seq<T>, leq: (T, T) -> bool)
    requires TotalPreorder(leq) && s != [] && t != []
    requires Sorted(s, leq) && Sorted(t, leq) && multiset(s) == multiset(t) && Distinguishes(s, leq)
    ensures s[0] == t[0]
  {
    assert s[0] in multiset(t) && t[0] in multiset(s);
    assert s[0] in t && t[0] in s;
    assert leq(s[0], t[0]) && leq(t[0], s[0]);
  }

  lemma {:induction false} SortedUnique<T(!new)>(s: seq<T>, t: seq<T>, leq: (T, T) -> bool)
    requires TotalPreorder(leq)
    requires Sorted(s, leq) && Sorted(t, leq) && multiset(s) == multiset(t)
    requires Distinguishes(s, leq)
    ensures s == t
    decreases |s|
  {
    assert |s| == |multiset(s)| == |multiset(t)| == |t|;
    if s != [] {
      SortedHeads(s, t, leq);
      TailSorted(s, leq);
      TailSorted(t, leq);
      SortedUnique(s[1..], t[1..], leq);
      Uncons(s, t);
    }
  }

  /** Sorting forgets the order of arrival when the order tells the elements apart. */
  lemma SortPermutation<T(!new)>(s: seq<T>, t: seq<T>, leq: (T, T) -> bool)
    requires TotalPreorder(leq) && multiset(s) == multiset(t)
    requires Distinguishes(s, leq)
    ensures Sort(s, leq) == Sort(t, leq)
  {
    SortSorts(s, leq);
    SortSorts(t, leq);
    var r := Sort(s, leq);
    forall x, y | x in r && y in r && leq(x, y) && leq(y, x) ensures x == y {
      assert x in multiset(r) && y in multiset(r);
    }
    SortedUnique(r, Sort(t, leq), leq);
  }

  /** The order of `sorted` on str values. */
  function TextOrder(): (string, string) -> bool { (a: string, b: string) => StrLeq(a, b) }

  lemma TextOrdered()
    ensures TotalPreorder(TextOrder())
  {
    forall a: string, b: string ensures TextOrder()(a, b) || TextOrder()(b, a) { StrLeqTotal(a, b); }
    forall a: string, b: string, c: string | TextOrder()(a, b) && TextOrder()(b, c) ensures TextOrder()(a, c) {
      StrLeqTransitive(a, b, c);
    }
  }

  lemma TextsDistinguished(s: seq<string>)
    ensures Distinguishes(s, TextOrder())
  {
    forall x, y | x in s && y in s && TextOrder()(x, y) && TextOrder()(y, x) ensures x == y {
      StrLeqAntisymmetric(x, y);
    }
  }
}

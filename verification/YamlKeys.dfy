/**
 Duplicate-key detection on composed YAML documents (check-credential-hygiene.py,
 _node_signature and _validate_unique_yaml_keys).

 A composed document is a finite graph: an alias makes two parents share one node, and an
 anchor used beneath itself makes a cycle. Node identities stand for Python's `id(node)`.
 */
module YamlKeys {
  import opened Wrappers

  type Id = nat

  datatype Pair = Pair(key: Id, value: Id)

  /** `line` is the zero-based line on which the node starts. */
  datatype Node =
    | Scalar(line: nat, tag: string, value: string)
    | Sequence(line: nat, tag: string, items: seq<Id>)
    | Mapping(line: nat, tag: string, pairs: seq<Pair>)

  type Graph = map<Id, Node>

  predicate IsChild(node: Node, c: Id) {
    match node
    case Scalar(_, _, _) => false
    case Sequence(_, _, items) => c in items
    case Mapping(_, _, pairs) => exists i :: 0 <= i < |pairs| && (pairs[i].key == c || pairs[i].value == c)
  }

  /** The children are the items of a sequence, and the keys and the values of a mapping. */
  lemma ChildrenAre(node: Node, c: Id)
    ensures IsChild(node, c) <==>
      || (node.Sequence? && c in node.items)
      || (node.Mapping? && exists p :: p in node.pairs && (c == p.key || c == p.value))
  {
    if node.Mapping? {
      if p :| p in node.pairs && (c == p.key || c == p.value) {
        var i :| 0 <= i < |node.pairs| && node.pairs[i] == p;
      }
    }
  }

  /** Every child of a node of the graph is in the graph. */
  ghost predicate Closed(g: Graph) {
    forall n, c :: n in g && IsChild(g[n], c) ==> c in g
  }

  // ---------------------------------------------------------------------------
  // Signatures
  // ---------------------------------------------------------------------------

  datatype Sig =
    | AliasCycle(node: Id)
    | ScalarSig(tag: string, value: string)
    | SequenceSig(tag: string, items: seq<Sig>)
    | MappingSig(tag: string, keys: seq<Sig>, values: seq<Sig>)

  function Keys(pairs: seq<Pair>): (r: seq<Id>)
    ensures |r| == |pairs| && forall i :: 0 <= i < |pairs| ==> r[i] == pairs[i].key
  {
    seq(|pairs|, i requires 0 <= i < |pairs| => pairs[i].key)
  }

  function Values(pairs: seq<Pair>): (r: seq<Id>)
    ensures |r| == |pairs| && forall i :: 0 <= i < |pairs| ==> r[i] == pairs[i].value
  {
    seq(|pairs|, i requires 0 <= i < |pairs| => pairs[i].value)
  }

  /** The structural signature of `n`, met below the nodes in `active`. */
  ghost function Signature(g: Graph, n: Id, active: set<Id>): Sig
    requires Closed(g) && n in g
    decreases g.Keys - active, 0, 0
  {
    if n in active then AliasCycle(n)
    else
      match g[n]
      case Scalar(_, tag, value) => ScalarSig(tag, value)
      case Sequence(_, tag, items) => SequenceSig(tag, Signatures(g, items, active + {n}))
      case Mapping(_, tag, pairs) =>
        MappingSig(tag, Signatures(g, Keys(pairs), active + {n}), Signatures(g, Values(pairs), active + {n}))
  }

  ghost function Signatures(g: Graph, ids: seq<Id>, active: set<Id>): (r: seq<Sig>)
    requires Closed(g) && forall i :: 0 <= i < |ids| ==> ids[i] in g
    ensures |r| == |ids| && forall i :: 0 <= i < |ids| ==> r[i] == Signature(g, ids[i], active)
    decreases g.Keys - active, 1, |ids|
  {
    if ids == [] then []
    else [Signature(g, ids[0], active)] + Signatures(g, ids[1..], active)
  }

  /** The signature computation as it runs, on one `active` set shared by all its calls. */
  class SignatureBuilder {
    const graph: Graph
    var active: set<Id>

    constructor (graph: Graph)
      ensures this.graph == graph && active == {}
    {
      this.graph := graph;
      active := {};
    }

    method Build(n: Id) returns (s: Sig)
      requires Closed(graph) && n in graph
      modifies this
      ensures active == old(active)
      ensures s == Signature(graph, n, active)
      decreases graph.Keys - active, 0, 0
    {
      if n in active {
        return AliasCycle(n);
      }
      active := active + {n};
      match graph[n] {
        case Scalar(_, tag, value) =>
          s := ScalarSig(tag, value);
        case Sequence(_, tag, items) =>
          var sigs := BuildAll(items);
          s := SequenceSig(tag, sigs);
        case Mapping(_, tag, pairs) =>
          var keys, values := BuildPairs(pairs);
          s := MappingSig(tag, keys, values);
      }
      active := active - {n};
    }

    method BuildPairs(pairs: seq<Pair>) returns (keys: seq<Sig>, values: seq<Sig>)
      requires Closed(graph) && forall i :: 0 <= i < |pairs| ==> pairs[i].key in graph && pairs[i].value in graph
      modifies this
      ensures active == old(active)
      ensures keys == Signatures(graph, Keys(pairs), active) && values == Signatures(graph, Values(pairs), active)
      decreases graph.Keys - active, 1, 0
    {
      keys, values := [], [];
      for i := 0 to |pairs|
        invariant active == old(active)
        invariant keys == Signatures(graph, Keys(pairs)[..i], active)
        invariant values == Signatures(graph, Values(pairs)[..i], active)
      {
        var k := Build(pairs[i].key);
        var v := Build(pairs[i].value);
        SignaturesNext(graph, Keys(pairs), i, active);
        SignaturesNext(graph, Values(pairs), i, active);
        keys, values := keys + [k], values + [v];
      }
      assert Keys(pairs)[..|pairs|] == Keys(pairs) && Values(pairs)[..|pairs|] == Values(pairs);
    }

    method BuildAll(ids: seq<Id>) returns (r: seq<Sig>)
      requires Closed(graph) && forall i :: 0 <= i < |ids| ==> ids[i] in graph
      modifies this
      ensures active == old(active)
      ensures r == Signatures(graph, ids, active)
      decreases graph.Keys - active, 1, 0
    {
      r := [];
      for i := 0 to |ids|
        invariant active == old(active)
        invariant r == Signatures(graph, ids[..i], active)
      {
        var s := Build(ids[i]);
        SignaturesNext(graph, ids, i, active);
        r := r + [s];
      }
      assert ids[..|ids|] == ids;
    }
  }

  /** `_node_signature(key_node)` with no active set given: a new one is made for each key. */
  method KeySignature(g: Graph, n: Id) returns (s: Sig)
    requires Closed(g) && n in g
    ensures s == Signature(g, n, {})
  {
    var builder := new SignatureBuilder(g);
    s := builder.Build(n);
  }

  lemma SignaturesNext(g: Graph, ids: seq<Id>, i: nat, active: set<Id>)
    requires Closed(g) && i < |ids| && forall k :: 0 <= k < |ids| ==> ids[k] in g
    ensures Signatures(g, ids[..i + 1], active) == Signatures(g, ids[..i], active) + [Signature(g, ids[i], active)]
  {
    assert ids[..i + 1] == ids[..i] + [ids[i]];
    SignaturesSnoc(g, ids[..i], ids[i], active);
  }

  lemma SignaturesSnoc(g: Graph, ids: seq<Id>, last: Id, active: set<Id>)
    requires Closed(g) && last in g && forall i :: 0 <= i < |ids| ==> ids[i] in g
    ensures Signatures(g, ids + [last], active) == Signatures(g, ids, active) + [Signature(g, last, active)]
  {
    var r := Signatures(g, ids + [last], active);
    forall i | 0 <= i < |r| ensures r[i] == (Signatures(g, ids, active) + [Signature(g, last, active)])[i] {
      assert r[i] == Signature(g, (ids + [last])[i], active);
    }
  }

  // ---------------------------------------------------------------------------
  // The traversal
  // ---------------------------------------------------------------------------

  /** A walk along child edges. */
  ghost predicate IsWalk(g: Graph, w: seq<Id>) {
    && w != []
    && (forall i :: 0 <= i < |w| ==> w[i] in g)
    && (forall i :: 0 <= i < |w| - 1 ==> IsChild(g[w[i]], w[i + 1]))
  }

  ghost predicate Reachable(g: Graph, a: Id, b: Id) {
    exists w :: IsWalk(g, w) && w[0] == a && w[|w| - 1] == b
  }

  /** Pair `j` of mapping `m` repeats the key of the earlier pair `i`. */
  ghost predicate DuplicateAt(g: Graph, m: Id, i: int, j: int)
    requires Closed(g)
  {
    && m in g && g[m].Mapping? && 0 <= i < j < |g[m].pairs|
    && IsChild(g[m], g[m].pairs[i].key) && IsChild(g[m], g[m].pairs[j].key)
    && Signature(g, g[m].pairs[i].key, {}) == Signature(g, g[m].pairs[j].key, {})
  }

  ghost predicate HasDuplicate(g: Graph, m: Id)
    requires Closed(g)
  {
    exists i, j :: DuplicateAt(g, m, i, j)
  }

  /** `line` is where some duplicate beneath `n` starts, counted from one as the report does. */
  ghost predicate ReportsDuplicate(g: Graph, n: Id, line: nat)
    requires Closed(g)
  {
    exists m, i, j :: Reachable(g, n, m) && DuplicateAt(g, m, i, j) && line == g[g[m].pairs[j].key].line + 1
  }

  /** Every node of `newly` has been fully explored inside `visited`, and has no duplicate. */
  ghost predicate Explored(g: Graph, newly: set<Id>, visited: set<Id>)
    requires Closed(g)
  {
    forall m :: m in newly ==> m in g && !HasDuplicate(g, m) && forall c :: IsChild(g[m], c) ==> c in visited
  }

  lemma ReachableSelf(g: Graph, n: Id)
    requires n in g
    ensures Reachable(g, n, n)
  {
    assert IsWalk(g, [n]);
  }

  lemma ReachableThroughChild(g: Graph, n: Id, c: Id, m: Id)
    requires Closed(g) && n in g && IsChild(g[n], c) && Reachable(g, c, m)
    ensures Reachable(g, n, m)
  {
    var w :| IsWalk(g, w) && w[0] == c && w[|w| - 1] == m;
    assert IsWalk(g, [n] + w);
  }

  lemma ReportThroughChild(g: Graph, n: Id, c: Id, line: nat)
    requires Closed(g) && n in g && IsChild(g[n], c) && ReportsDuplicate(g, c, line)
    ensures ReportsDuplicate(g, n, line)
  {
    var m, i, j :| Reachable(g, c, m) && DuplicateAt(g, m, i, j) && line == g[g[m].pairs[j].key].line + 1;
    ReachableThroughChild(g, n, c, m);
  }

  /** A set that is closed under children holds everything reachable from its members. */
  lemma {:induction false} ClosedSetHoldsReachable(g: Graph, s: set<Id>, w: seq<Id>)
    requires IsWalk(g, w) && w[0] in s
    requires forall m, c :: m in s && m in g && IsChild(g[m], c) ==> c in s
    ensures w[|w| - 1] in s
    decreases |w|
  {
    if |w| > 1 {
      assert w[1] in s;
      ClosedSetHoldsReachable(g, s, w[1..]);
    }
  }

  /** The depth-first traversal, on one `visited` set shared by all its calls. */
  class KeyValidator {
    const graph: Graph
    var visited: set<Id>

    constructor (graph: Graph)
      ensures this.graph == graph && visited == {}
    {
      this.graph := graph;
      visited := {};
    }

    /** `None`, or the line of the duplicate key the traversal stopped at. */
    method Validate(n: Id) returns (r: Option<nat>)
      requires Closed(graph) && n in graph
      modifies this
      ensures old(visited) <= visited
      ensures r.None? ==> n in visited && Explored(graph, visited - old(visited), visited)
      ensures r.Some? ==> ReportsDuplicate(graph, n, r.value)
      decreases graph.Keys - visited, 0, 0
    {
      if n in visited {
        return None;
      }
      visited := visited + {n};
      var node := graph[n];
      if node.Mapping? {
        r := ValidatePairs(n);
        assert visited - old(visited) == (visited - (old(visited) + {n})) + {n};
      } else if node.Sequence? {
        var items := node.items;
        for i := 0 to |items|
          invariant old(visited) + {n} <= visited
          invariant Explored(graph, visited - old(visited) - {n}, visited)
          invariant forall k :: 0 <= k < i ==> items[k] in visited
        {
          var q := Validate(items[i]);
          if q.Some? {
            ReportThroughChild(graph, n, items[i], q.value);
            return q;
          }
        }
        r := None;
      } else {
        r := None;
      }
    }

    /** The mapping branch of Validate, entered with `n` just visited. */
    method ValidatePairs(n: Id) returns (r: Option<nat>)
      requires Closed(graph) && n in graph && graph[n].Mapping? && n in visited
      modifies this
      ensures old(visited) <= visited
      ensures r.None? ==> Explored(graph, visited - old(visited), visited) && Explored(graph, {n}, visited)
      ensures r.Some? ==> ReportsDuplicate(graph, n, r.value)
      decreases graph.Keys - visited, 1, 0
    {
      var pairs := graph[n].pairs;
      var keys: set<Sig> := {};
      ghost var sigs := KeySignaturesOf(graph, n);
      for i := 0 to |pairs|
        invariant old(visited) <= visited
        invariant PairsExplored(graph, n, sigs, i, keys, old(visited), visited)
      {
        PairsAreChildren(graph, n);
        var signature := KeySignature(graph, pairs[i].key);
        if signature in keys {
          RepeatedKeyReported(graph, n, sigs, i);
          return Some(graph[pairs[i].key].line + 1);
        }
        ghost var seen, v := keys, visited;
        keys := keys + {signature};
        r := ValidatePair(n, pairs[i]);
        if r.Some? {
          return;
        }
        NextPairExplored(graph, n, sigs, i, seen, old(visited), v, visited);
      }
      MappingExplored(graph, n, sigs, visited);
      r := None;
    }

    method ValidatePair(n: Id, pair: Pair) returns (r: Option<nat>)
      requires Closed(graph) && n in graph && n in visited
      requires IsChild(graph[n], pair.key) && IsChild(graph[n], pair.value)
      modifies this
      ensures old(visited) <= visited
      ensures r.None? ==> pair.key in visited && pair.value in visited
      ensures r.None? ==> Explored(graph, visited - old(visited), visited)
      ensures r.Some? ==> ReportsDuplicate(graph, n, r.value)
      decreases graph.Keys - visited, 0, 1
    {
      r := Validate(pair.key);
      if r.Some? {
        ReportThroughChild(graph, n, pair.key, r.value);
        return;
      }
      ghost var v := visited;
      r := Validate(pair.value);
      if r.Some? {
        ReportThroughChild(graph, n, pair.value, r.value);
        return;
      }
      ExploredJoin(graph, old(visited), v, visited);
    }
  }

  lemma ExploredJoin(g: Graph, u: set<Id>, v: set<Id>, w: set<Id>)
    requires Closed(g) && u <= v <= w && Explored(g, v - u, v) && Explored(g, w - v, w)
    ensures Explored(g, w - u, w)
  {
  }

  lemma PairsAreChildren(g: Graph, n: Id)
    requires Closed(g) && n in g && g[n].Mapping?
    ensures forall i :: 0 <= i < |g[n].pairs| ==>
      && IsChild(g[n], g[n].pairs[i].key) && IsChild(g[n], g[n].pairs[i].value)
      && g[n].pairs[i].key in g && g[n].pairs[i].value in g
  {
  }

  /** The signatures among the first `i`. */
  ghost function FirstOf(sigs: seq<Sig>, i: nat): set<Sig>
    requires i <= |sigs|
  {
    set k | 0 <= k < i :: sigs[k]
  }

  ghost predicate DistinctFirst(sigs: seq<Sig>, i: nat)
    requires i <= |sigs|
  {
    forall k, l :: 0 <= k < l < i ==> sigs[k] != sigs[l]
  }

  lemma NewSignature(sigs: seq<Sig>, i: nat)
    requires i < |sigs| && DistinctFirst(sigs, i) && sigs[i] !in FirstOf(sigs, i)
    ensures DistinctFirst(sigs, i + 1) && FirstOf(sigs, i + 1) == FirstOf(sigs, i) + {sigs[i]}
  {
    forall k, l | 0 <= k < l < i + 1 ensures sigs[k] != sigs[l] {
      if l == i { assert sigs[k] in FirstOf(sigs, i); }
    }
  }

  /** `sigs` are the signatures of the keys of mapping `n`. */
  ghost predicate SignsKeys(g: Graph, n: Id, sigs: seq<Sig>)
    requires Closed(g) && n in g && g[n].Mapping?
  {
    && |sigs| == |g[n].pairs|
    && forall k :: 0 <= k < |sigs| ==>
         IsChild(g[n], g[n].pairs[k].key) && sigs[k] == Signature(g, g[n].pairs[k].key, {})
  }

  /** The first `i` pairs of mapping `n` have been traversed, starting from `start`. */
  ghost predicate PairsExplored(g: Graph, n: Id, sigs: seq<Sig>, i: nat, keys: set<Sig>, start: set<Id>,
      visited: set<Id>)
    requires Closed(g) && n in g && g[n].Mapping?
  {
    && SignsKeys(g, n, sigs) && i <= |sigs|
    && start <= visited && Explored(g, visited - start, visited)
    && (forall k :: 0 <= k < i ==> g[n].pairs[k].key in visited && g[n].pairs[k].value in visited)
    && keys == FirstOf(sigs, i) && DistinctFirst(sigs, i)
  }

  lemma NextPairExplored(g: Graph, n: Id, sigs: seq<Sig>, i: nat, keys: set<Sig>, start: set<Id>, v: set<Id>,
      visited: set<Id>)
    requires Closed(g) && n in g && g[n].Mapping? && PairsExplored(g, n, sigs, i, keys, start, v)
    requires i < |sigs| && sigs[i] !in keys && v <= visited && Explored(g, visited - v, visited)
    requires g[n].pairs[i].key in visited && g[n].pairs[i].value in visited
    ensures PairsExplored(g, n, sigs, i + 1, keys + {sigs[i]}, start, visited)
  {
    NewSignature(sigs, i);
    ExploredJoin(g, start, v, visited);
  }

  lemma KeySignaturesOf(g: Graph, n: Id) returns (sigs: seq<Sig>)
    requires Closed(g) && n in g && g[n].Mapping?
    ensures SignsKeys(g, n, sigs)
  {
    PairsAreChildren(g, n);
    sigs := Signatures(g, Keys(g[n].pairs), {});
  }

  lemma DuplicateIffEqualSignatures(g: Graph, n: Id, sigs: seq<Sig>, i: int, j: int)
    requires Closed(g) && n in g && g[n].Mapping? && SignsKeys(g, n, sigs)
    ensures DuplicateAt(g, n, i, j) <==> 0 <= i < j < |sigs| && sigs[i] == sigs[j]
  {
  }

  lemma MappingExplored(g: Graph, n: Id, sigs: seq<Sig>, visited: set<Id>)
    requires Closed(g) && n in g && g[n].Mapping? && SignsKeys(g, n, sigs)
    requires forall k :: 0 <= k < |g[n].pairs| ==> g[n].pairs[k].key in visited && g[n].pairs[k].value in visited
    requires DistinctFirst(sigs, |sigs|)
    ensures Explored(g, {n}, visited)
  {
    forall i, j ensures !DuplicateAt(g, n, i, j) {
      DuplicateIffEqualSignatures(g, n, sigs, i, j);
    }
  }

  lemma RepeatedKeyReported(g: Graph, n: Id, sigs: seq<Sig>, i: nat)
    requires Closed(g) && n in g && g[n].Mapping? && SignsKeys(g, n, sigs)
    requires i < |sigs| && sigs[i] in FirstOf(sigs, i)
    ensures g[n].pairs[i].key in g && ReportsDuplicate(g, n, g[g[n].pairs[i].key].line + 1)
  {
    var k :| 0 <= k < i && sigs[i] == sigs[k];
    DuplicateIffEqualSignatures(g, n, sigs, k, i);
    ReachableSelf(g, n);
  }

  /** A document is rejected exactly when some mapping reachable from its root repeats a key. */
  method CheckDocument(g: Graph, root: Id) returns (r: Option<nat>)
    requires Closed(g) && root in g
    ensures r.Some? <==> exists m :: Reachable(g, root, m) && HasDuplicate(g, m)
    ensures r.Some? ==> ReportsDuplicate(g, root, r.value)
  {
    var validator := new KeyValidator(g);
    r := validator.Validate(root);
    if r.Some? {
      ghost var m, i, j :| Reachable(g, root, m) && DuplicateAt(g, m, i, j) && r.value == g[g[m].pairs[j].key].line + 1;
      assert HasDuplicate(g, m);
    } else {
      var visited := validator.visited;
      assert visited - {} == visited;
      forall m | Reachable(g, root, m) ensures !HasDuplicate(g, m) {
        var w :| IsWalk(g, w) && w[0] == root && w[|w| - 1] == m;
        ClosedSetHoldsReachable(g, visited, w);
      }
    }
  }

  // ---------------------------------------------------------------------------
  // What equal signatures mean
  // ---------------------------------------------------------------------------

  /** The unfoldings of `a` and `b` agree to depth `k`. */
  ghost predicate Alike(g: Graph, a: Id, b: Id, k: nat)
    requires Closed(g) && a in g && b in g
    decreases k, 0
  {
    k > 0 ==>
      match (g[a], g[b])
      case (Scalar(_, t, v), Scalar(_, t', v')) => t == t' && v == v'
      case (Sequence(_, t, xs), Sequence(_, t', ys)) => t == t' && AllAlike(g, xs, ys, k - 1)
      case (Mapping(_, t, ps), Mapping(_, t', qs)) =>
        t == t' && AllAlike(g, Keys(ps), Keys(qs), k - 1) && AllAlike(g, Values(ps), Values(qs), k - 1)
      case _ => false
  }

  ghost predicate AllAlike(g: Graph, xs: seq<Id>, ys: seq<Id>, k: nat)
    requires Closed(g) && (forall i :: 0 <= i < |xs| ==> xs[i] in g) && (forall i :: 0 <= i < |ys| ==> ys[i] in g)
    decreases k, 1
  {
    |xs| == |ys| && forall i :: 0 <= i < |xs| ==> Alike(g, xs[i], ys[i], k)
  }

  ghost predicate SameUnfolding(g: Graph, a: Id, b: Id)
    requires Closed(g) && a in g && b in g
  {
    forall k: nat :: Alike(g, a, b, k)
  }

  /** No alias-cycle marker anywhere in the signature. */
  ghost predicate CycleFree(s: Sig) {
    match s
    case AliasCycle(_) => false
    case ScalarSig(_, _) => true
    case SequenceSig(_, items) => forall i :: 0 <= i < |items| ==> CycleFree(items[i])
    case MappingSig(_, keys, values) =>
      (forall i :: 0 <= i < |keys| ==> CycleFree(keys[i])) && (forall i :: 0 <= i < |values| ==> CycleFree(values[i]))
  }

  lemma {:induction false} EqualSignaturesAlike(g: Graph, a: Id, b: Id, as_: set<Id>, bs: set<Id>, k: nat)
    requires Closed(g) && a in g && b in g
    requires Signature(g, a, as_) == Signature(g, b, bs) && CycleFree(Signature(g, a, as_))
    ensures Alike(g, a, b, k)
    decreases k, 0
  {
    if k > 0 {
      match g[a] {
        case Scalar(_, _, _) =>
        case Sequence(_, _, xs) =>
          SignatureListsAlike(g, xs, g[b].items, as_ + {a}, bs + {b}, k - 1);
        case Mapping(_, _, ps) =>
          SignatureListsAlike(g, Keys(ps), Keys(g[b].pairs), as_ + {a}, bs + {b}, k - 1);
          SignatureListsAlike(g, Values(ps), Values(g[b].pairs), as_ + {a}, bs + {b}, k - 1);
      }
    }
  }

  lemma EqualSignaturesSameUnfolding(g: Graph, a: Id, b: Id)
    requires Closed(g) && a in g && b in g
    requires Signature(g, a, {}) == Signature(g, b, {}) && CycleFree(Signature(g, a, {}))
    ensures SameUnfolding(g, a, b)
  {
    forall k: nat ensures Alike(g, a, b, k) {
      EqualSignaturesAlike(g, a, b, {}, {}, k);
    }
  }

  lemma {:induction false} SignatureListsAlike(g: Graph, xs: seq<Id>, ys: seq<Id>, as_: set<Id>, bs: set<Id>, k: nat)
    requires Closed(g) && (forall i :: 0 <= i < |xs| ==> xs[i] in g) && (forall i :: 0 <= i < |ys| ==> ys[i] in g)
    requires Signatures(g, xs, as_) == Signatures(g, ys, bs)
    requires forall i :: 0 <= i < |xs| ==> CycleFree(Signatures(g, xs, as_)[i])
    ensures AllAlike(g, xs, ys, k)
    decreases k, 1
  {
    assert |xs| == |Signatures(g, xs, as_)| == |ys|;
    forall i | 0 <= i < |xs| ensures Alike(g, xs[i], ys[i], k) {
      assert Signatures(g, xs, as_)[i] == Signatures(g, ys, bs)[i];
      EqualSignaturesAlike(g, xs[i], ys[i], as_, bs, k);
    }
  }

  lemma {:induction false} AlikeEqualSignatures(g: Graph, a: Id, b: Id, as_: set<Id>, bs: set<Id>)
    requires Closed(g) && a in g && b in g
    requires SameUnfolding(g, a, b)
    requires CycleFree(Signature(g, a, as_)) && CycleFree(Signature(g, b, bs))
    ensures Signature(g, a, as_) == Signature(g, b, bs)
    decreases g.Keys - as_, 0
  {
    assert Alike(g, a, b, 1);
    match g[a] {
      case Scalar(_, _, _) =>
      case Sequence(_, _, xs) =>
        forall k: nat ensures AllAlike(g, xs, g[b].items, k) { assert Alike(g, a, b, k + 1); }
        AlikeListsEqual(g, xs, g[b].items, as_ + {a}, bs + {b});
      case Mapping(_, _, ps) =>
        var qs := g[b].pairs;
        forall k: nat
          ensures AllAlike(g, Keys(ps), Keys(qs), k) && AllAlike(g, Values(ps), Values(qs), k)
        {
          assert Alike(g, a, b, k + 1);
        }
        AlikeListsEqual(g, Keys(ps), Keys(qs), as_ + {a}, bs + {b});
        AlikeListsEqual(g, Values(ps), Values(qs), as_ + {a}, bs + {b});
    }
  }

  lemma {:induction false} AlikeListsEqual(g: Graph, xs: seq<Id>, ys: seq<Id>, as_: set<Id>, bs: set<Id>)
    requires Closed(g) && (forall i :: 0 <= i < |xs| ==> xs[i] in g) && (forall i :: 0 <= i < |ys| ==> ys[i] in g)
    requires forall k: nat :: AllAlike(g, xs, ys, k)
    requires forall i :: 0 <= i < |xs| ==> CycleFree(Signatures(g, xs, as_)[i])
    requires forall i :: 0 <= i < |ys| ==> CycleFree(Signatures(g, ys, bs)[i])
    ensures Signatures(g, xs, as_) == Signatures(g, ys, bs)
    decreases g.Keys - as_, 1
  {
    assert AllAlike(g, xs, ys, 0);
    forall i | 0 <= i < |xs| ensures Signatures(g, xs, as_)[i] == Signatures(g, ys, bs)[i] {
      assert SameUnfolding(g, xs[i], ys[i]) by {
        forall k: nat ensures Alike(g, xs[i], ys[i], k) { assert AllAlike(g, xs, ys, k); }
      }
      assert Signatures(g, xs, as_)[i] == Signature(g, xs[i], as_);
      assert Signatures(g, ys, bs)[i] == Signature(g, ys[i], bs);
      AlikeEqualSignatures(g, xs[i], ys[i], as_, bs);
    }
  }

  /** A walk that comes back to `active` or to itself. */
  ghost predicate Returns(w: seq<Id>, active: set<Id>) {
    exists j :: 1 <= j < |w| && (w[j] in active || w[j] in w[..j])
  }

  lemma {:induction false} ReturningWalkIsMarked(g: Graph, w: seq<Id>, active: set<Id>)
    requires Closed(g) && IsWalk(g, w) && Returns(w, active)
    ensures !CycleFree(Signature(g, w[0], active))
    decreases |w|
  {
    if w[0] !in active {
      var inner := active + {w[0]};
      var j :| 1 <= j < |w| && (w[j] in active || w[j] in w[..j]);
      if w[1] !in inner {
        assert j > 1;
        var rest := w[1..];
        assert rest[j - 1] in inner || rest[j - 1] in rest[..j - 1] by {
          if w[j] in w[..j] {
            var i :| 0 <= i < j && w[i] == w[j];
            if i > 0 { assert rest[..j - 1][i - 1] == w[j]; }
          }
        }
        assert Returns(rest, inner);
        ReturningWalkIsMarked(g, rest, inner);
      }
      assert !CycleFree(Signature(g, w[1], inner));
      MarkedChild(g, w[0], w[1], active);
    }
  }

  lemma MarkedChild(g: Graph, n: Id, c: Id, active: set<Id>)
    requires Closed(g) && n in g && n !in active && IsChild(g[n], c)
    requires !CycleFree(Signature(g, c, active + {n}))
    ensures !CycleFree(Signature(g, n, active))
  {
    var inner := active + {n};
    match g[n] {
      case Sequence(_, _, items) =>
        var i :| 0 <= i < |items| && items[i] == c;
        assert !CycleFree(Signatures(g, items, inner)[i]);
      case Mapping(_, _, pairs) =>
        var i :| 0 <= i < |pairs| && (pairs[i].key == c || pairs[i].value == c);
        assert !CycleFree(Signatures(g, Keys(pairs), inner)[i]) || !CycleFree(Signatures(g, Values(pairs), inner)[i]);
    }
  }

  lemma MarkedHasChild(g: Graph, n: Id, active: set<Id>) returns (c: Id)
    requires Closed(g) && n in g && n !in active && !CycleFree(Signature(g, n, active))
    ensures IsChild(g[n], c) && c in g && !CycleFree(Signature(g, c, active + {n}))
  {
    var inner := active + {n};
    match g[n] {
      case Sequence(_, _, items) =>
        var i := MarkedInList(g, items, inner);
        c := items[i];
      case Mapping(_, _, pairs) =>
        if AllCycleFree(Signatures(g, Keys(pairs), inner)) {
          var i := MarkedInList(g, Values(pairs), inner);
          c := pairs[i].value;
        } else {
          var i := MarkedInList(g, Keys(pairs), inner);
          c := pairs[i].key;
        }
    }
  }

  ghost predicate AllCycleFree(sigs: seq<Sig>) { forall i :: 0 <= i < |sigs| ==> CycleFree(sigs[i]) }

  lemma MarkedInList(g: Graph, ids: seq<Id>, active: set<Id>) returns (i: nat)
    requires Closed(g) && (forall k :: 0 <= k < |ids| ==> ids[k] in g) && !AllCycleFree(Signatures(g, ids, active))
    ensures i < |ids| && !CycleFree(Signature(g, ids[i], active))
  {
    var k :| 0 <= k < |ids| && !CycleFree(Signatures(g, ids, active)[k]);
    i := k;
  }

  lemma {:induction false} MarkedWalkReturns(g: Graph, n: Id, active: set<Id>) returns (w: seq<Id>)
    requires Closed(g) && n in g && n !in active && !CycleFree(Signature(g, n, active))
    ensures IsWalk(g, w) && w[0] == n && Returns(w, active)
    decreases g.Keys - active
  {
    var c := MarkedHasChild(g, n, active);
    if c in active + {n} {
      w := [n, c];
      assert w[..1] == [n];
      assert 1 < |w| && (w[1] in active || w[1] in w[..1]);
    } else {
      var rest := MarkedWalkReturns(g, c, active + {n});
      w := [n] + rest;
      LongerReturns(n, rest, active);
    }
  }

  lemma LongerReturns(n: Id, rest: seq<Id>, active: set<Id>)
    requires Returns(rest, active + {n})
    ensures Returns([n] + rest, active)
  {
    var w := [n] + rest;
    var j :| 1 <= j < |rest| && (rest[j] in active + {n} || rest[j] in rest[..j]);
    assert w[j + 1] == rest[j] && w[..j + 1] == [n] + rest[..j];
    assert w[j + 1] in active || w[j + 1] in w[..j + 1];
  }

  /** No walk from `n` comes back to a node it has passed. */
  ghost predicate AcyclicFrom(g: Graph, n: Id) {
    forall w :: IsWalk(g, w) && w[0] == n ==> !Returns(w, {})
  }

  /** The marker appears exactly when a cycle can be reached from the node. */
  lemma MarkerIffCycle(g: Graph, n: Id)
    requires Closed(g) && n in g
    ensures CycleFree(Signature(g, n, {})) <==> AcyclicFrom(g, n)
  {
    if !CycleFree(Signature(g, n, {})) {
      var w := MarkedWalkReturns(g, n, {});
    }
    if !AcyclicFrom(g, n) {
      var w :| IsWalk(g, w) && w[0] == n && Returns(w, {});
      ReturningWalkIsMarked(g, w, {});
    }
  }

  /**
   For keys from which no cycle can be reached the duplicate test is structural equality: two
   key nodes clash exactly when their unfoldings agree at every depth, shared or not.
   */
  lemma ClashIffAlike(g: Graph, a: Id, b: Id)
    requires Closed(g) && a in g && b in g && AcyclicFrom(g, a) && AcyclicFrom(g, b)
    ensures Signature(g, a, {}) == Signature(g, b, {}) <==> SameUnfolding(g, a, b)
  {
    MarkerIffCycle(g, a);
    MarkerIffCycle(g, b);
    if Signature(g, a, {}) == Signature(g, b, {}) {
      EqualSignaturesSameUnfolding(g, a, b);
    }
    if SameUnfolding(g, a, b) {
      AlikeEqualSignatures(g, a, b, {}, {});
    }
  }
}

/** Resolution (resolveInject): for each requested local name, walk from the
    requesting instance up through `$parent` links to the first instance whose
    `_provided` map holds the requested key. */
module Resolve {
  import opened Tree

  /** One entry of an `inject` option: local property `name` asks for the
      provided key `from`. */
  datatype Request = Request(name: Key, from: Key)

  /** The non-fatal "Injection not found" diagnostic: the local name and the
      requesting instance. */
  datatype Warning = NotFound(name: Key, node: nat)

  /** The entries of an object: no local name occurs twice. */
  predicate DistinctNames(reqs: seq<Request>)
  {
    forall a, b :: 0 <= a < b < |reqs| ==> reqs[a].name != reqs[b].name
  }

  /** Instance `j` is instance `i` itself or one of its ancestors. */
  predicate OnChain<V>(tree: seq<Node<V>>, i: nat, j: nat)
    requires WellFormed(tree) && i < |tree|
    decreases i
  {
    i == j || (tree[i].parent.Some? && OnChain(tree, tree[i].parent.value, j))
  }

  /** Where the walk for key `k` starting at instance `i` stops: the first
      instance that provides `k`, or absent when the walk runs past the root
      (the loop variable `source` becoming undefined). */
  function FindSource<V>(tree: seq<Node<V>>, i: nat, k: Key): (r: Option<nat>)
    requires WellFormed(tree) && i < |tree|
    ensures r.Some? ==> r.value <= i && OnChain(tree, i, r.value) && Provides(tree[r.value], k)
    ensures Provides(tree[i], k) ==> r == Some(i)
    ensures !Provides(tree[i], k) && tree[i].parent.None? ==> r.None?
    decreases i
  {
    if Provides(tree[i], k) then Some(i)
    else match tree[i].parent
      case None => None
      case Some(p) => FindSource(tree, p, k)
  }

  /** The value an instance publishes under key `k`. */
  function ProvidedValue<V>(tree: seq<Node<V>>, s: nat, k: Key): V
    requires s < |tree| && Provides(tree[s], k)
  {
    tree[s].provided.value[k]
  }

  /** Position `p` of the ancestor chain of `i` is the nearest instance that
      provides `k`: it provides it and no earlier position does. */
  ghost predicate NearestProvider<V>(tree: seq<Node<V>>, i: nat, k: Key, p: int)
    requires WellFormed(tree) && i < |tree|
  {
    var c := Chain(tree, i);
    && 0 <= p < |c|
    && Provides(tree[c[p]], k)
    && forall q :: 0 <= q < p ==> !Provides(tree[c[q]], k)
  }

  /** Below the first position, the chain of an instance with a parent is
      the chain of that parent. */
  lemma ChainOfChild<V>(tree: seq<Node<V>>, i: nat, par: nat)
    requires WellFormed(tree) && i < |tree| && tree[i].parent == Some(par)
    ensures Chain(tree, i) == [i] + Chain(tree, par)
    ensures forall p :: 1 <= p < |Chain(tree, i)| ==> Chain(tree, i)[p] == Chain(tree, par)[p - 1]
  {
  }

  /** The walk finds nothing exactly when no instance on the chain provides
      the key. */
  lemma {:induction false} FindSourceNoneIffNoProvider<V>(tree: seq<Node<V>>, i: nat, k: Key)
    requires WellFormed(tree) && i < |tree|
    ensures FindSource(tree, i, k).None? <==>
      forall p :: 0 <= p < |Chain(tree, i)| ==> !Provides(tree[Chain(tree, i)[p]], k)
    decreases i
  {
    var c := Chain(tree, i);
    assert c[0] == i;
    if !Provides(tree[i], k) && tree[i].parent.Some? {
      var par := tree[i].parent.value;
      FindSourceNoneIffNoProvider(tree, par, k);
      ChainOfChild(tree, i, par);
      var c' := Chain(tree, par);
      assert FindSource(tree, i, k) == FindSource(tree, par, k);
      if FindSource(tree, par, k).None? {
        forall p | 0 <= p < |c|
          ensures !Provides(tree[c[p]], k)
        {
          if p > 0 {
            assert !Provides(tree[c'[p - 1]], k);
          }
        }
      } else {
        var p' :| 0 <= p' < |c'| && Provides(tree[c'[p']], k);
        assert c[p' + 1] == c'[p'];
      }
    } else if !Provides(tree[i], k) {
      assert c == [i];
    }
  }

  /** A found source sits at the nearest position of the chain that provides
      the key. */
  lemma {:induction false} FindSourceIsNearest<V>(tree: seq<Node<V>>, i: nat, k: Key)
    requires WellFormed(tree) && i < |tree|
    requires FindSource(tree, i, k).Some?
    ensures exists p :: NearestProvider(tree, i, k, p) && Chain(tree, i)[p] == FindSource(tree, i, k).value
    decreases i
  {
    var c := Chain(tree, i);
    if Provides(tree[i], k) {
      assert c[0] == i;
      assert NearestProvider(tree, i, k, 0);
    } else {
      var par := tree[i].parent.value;
      FindSourceIsNearest(tree, par, k);
      ChainOfChild(tree, i, par);
      var c' := Chain(tree, par);
      var p' :| NearestProvider(tree, par, k, p') && c'[p'] == FindSource(tree, par, k).value;
      assert c[p' + 1] == c'[p'];
      forall q | 0 <= q < p' + 1
        ensures !Provides(tree[c[q]], k)
      {
        if q > 0 {
          assert c[q] == c'[q - 1];
        }
      }
      assert NearestProvider(tree, i, k, p' + 1);
    }
  }

  /** The walk agrees with the chain: it finds nothing exactly when no
      instance on the chain provides the key, and otherwise it stops at the
      nearest one. */
  lemma FindSourceIsNearestOnChain<V>(tree: seq<Node<V>>, i: nat, k: Key)
    requires WellFormed(tree) && i < |tree|
    ensures FindSource(tree, i, k).None? <==>
      forall p :: 0 <= p < |Chain(tree, i)| ==> !Provides(tree[Chain(tree, i)[p]], k)
    ensures FindSource(tree, i, k).Some? ==>
      exists p :: NearestProvider(tree, i, k, p) && Chain(tree, i)[p] == FindSource(tree, i, k).value
  {
    FindSourceNoneIffNoProvider(tree, i, k);
    if FindSource(tree, i, k).Some? {
      FindSourceIsNearest(tree, i, k);
    }
  }

  /** Later ancestors are never consulted: once the walk has found its
      source, every instance below that index (which includes every ancestor
      above the source) may be replaced without changing the outcome. */
  lemma {:induction false} AncestorsBeyondSourceIgnored<V>(tree: seq<Node<V>>, tree': seq<Node<V>>, i: nat, k: Key)
    requires WellFormed(tree) && WellFormed(tree') && |tree'| == |tree| && i < |tree|
    requires FindSource(tree, i, k).Some?
    requires forall j :: FindSource(tree, i, k).value <= j < |tree| ==> tree'[j] == tree[j]
    ensures FindSource(tree', i, k) == FindSource(tree, i, k)
    decreases i
  {
    assert tree'[i] == tree[i];
    if !Provides(tree[i], k) {
      AncestorsBeyondSourceIgnored(tree, tree', tree[i].parent.value, k);
    }
  }

  /** Publishing an empty map and publishing nothing are indistinguishable to
      the walk: an instance with `_provided == {}` is skipped just like one
      without `_provided`. */
  lemma {:induction false} EmptyProvideNeverMatches<V>(tree: seq<Node<V>>, j: nat, i: nat, k: Key)
    requires WellFormed(tree) && j < |tree| && i < |tree|
    requires tree[j].provided == Some(map[])
    ensures WellFormed(tree[j := tree[j].(provided := None)])
    ensures FindSource(tree[j := tree[j].(provided := None)], i, k) == FindSource(tree, i, k)
    decreases i
  {
    var tree' := tree[j := tree[j].(provided := None)];
    assert forall x :: 0 <= x < |tree| ==> tree'[x].parent == tree[x].parent;
    assert !Provides(tree[j], k) && !Provides(tree'[j], k);
    if !Provides(tree[i], k) && tree[i].parent.Some? {
      EmptyProvideNeverMatches(tree, j, tree[i].parent.value, k);
    }
  }

  /** What the request loop has built after processing `reqs`: the result
      object and the warnings emitted so far. */
  datatype Resolution<V> = Resolution(result: map<Key, V>, warnings: seq<Warning>)

  /** The `for` loop of resolveInject over the request entries, in order,
      starting from an empty result: a found key is stored under its local
      name, a missing one warns in development mode. */
  function ResolveEntries<V>(reqs: seq<Request>, tree: seq<Node<V>>, vm: nat, dev: bool): (r: Resolution<V>)
    requires WellFormed(tree) && vm < |tree|
    ensures r.result.Keys == set e | e in reqs && FindSource(tree, vm, e.from).Some? :: e.name
    ensures !dev ==> r.warnings == []
    ensures forall w :: w in r.warnings ==>
      w.node == vm && exists e :: e in reqs && e.name == w.name && FindSource(tree, vm, e.from).None?
    ensures dev ==> forall e :: e in reqs && FindSource(tree, vm, e.from).None? ==> NotFound(e.name, vm) in r.warnings
    decreases |reqs|
  {
    if reqs == [] then Resolution(map[], [])
    else
      var front := reqs[..|reqs| - 1];
      var last := reqs[|reqs| - 1];
      assert reqs == front + [last];
      var prev := ResolveEntries(front, tree, vm, dev);
      var source := FindSource(tree, vm, last.from);
      var result :=
        if source.Some? then prev.result[last.name := ProvidedValue(tree, source.value, last.from)]
        else prev.result;
      var warnings := if dev && source.None? then prev.warnings + [NotFound(last.name, vm)] else prev.warnings;
      Resolution(result, warnings)
  }

  /** With distinct local names, each found name holds the value published
      by the instance its walk stopped at. */
  lemma {:induction false} ResolvedValuesAreProvided<V>(reqs: seq<Request>, tree: seq<Node<V>>, vm: nat, dev: bool)
    requires WellFormed(tree) && vm < |tree| && DistinctNames(reqs)
    ensures forall e :: e in reqs && FindSource(tree, vm, e.from).Some? ==>
      ResolveEntries(reqs, tree, vm, dev).result[e.name] == ProvidedValue(tree, FindSource(tree, vm, e.from).value, e.from)
    decreases |reqs|
  {
    if reqs != [] {
      var front := reqs[..|reqs| - 1];
      var last := reqs[|reqs| - 1];
      assert reqs == front + [last];
      assert DistinctNames(front);
      ResolvedValuesAreProvided(front, tree, vm, dev);
      var r := ResolveEntries(reqs, tree, vm, dev);
      var prev := ResolveEntries(front, tree, vm, dev);
      forall e | e in reqs && FindSource(tree, vm, e.from).Some?
        ensures r.result[e.name] == ProvidedValue(tree, FindSource(tree, vm, e.from).value, e.from)
      {
        if e != last {
          var a :| 0 <= a < |reqs| && reqs[a] == e;
          assert a < |reqs| - 1;
          assert e in front;
          assert e.name != last.name;
          assert r.result[e.name] == prev.result[e.name];
        }
      }
    }
  }

  /** A name no entry carries is never warned about. */
  lemma NotWarnedUnlessRequested<V>(reqs: seq<Request>, tree: seq<Node<V>>, vm: nat, dev: bool, n: Key)
    requires WellFormed(tree) && vm < |tree|
    requires forall e :: e in reqs ==> e.name != n
    ensures NotFound(n, vm) !in ResolveEntries(reqs, tree, vm, dev).warnings
  {
  }

  /** Development mode warns exactly once for each requested name whose key
      is provided nowhere on the chain, and never for a found name. */
  lemma {:induction false} MissingWarnedExactlyOnce<V>(reqs: seq<Request>, tree: seq<Node<V>>, vm: nat)
    requires WellFormed(tree) && vm < |tree| && DistinctNames(reqs)
    ensures forall e :: e in reqs ==>
      multiset(ResolveEntries(reqs, tree, vm, true).warnings)[NotFound(e.name, vm)]
        == if FindSource(tree, vm, e.from).None? then 1 else 0
    decreases |reqs|
  {
    if reqs != [] {
      var front := reqs[..|reqs| - 1];
      var last := reqs[|reqs| - 1];
      assert reqs == front + [last];
      assert DistinctNames(front);
      MissingWarnedExactlyOnce(front, tree, vm);
      var w := ResolveEntries(reqs, tree, vm, true).warnings;
      var prev := ResolveEntries(front, tree, vm, true).warnings;
      forall e' | e' in front
        ensures e'.name != last.name
      {
        var a :| 0 <= a < |front| && front[a] == e';
        assert reqs[a] == e';
      }
      NotWarnedUnlessRequested(front, tree, vm, true, last.name);
      assert w == prev + (if FindSource(tree, vm, last.from).None? then [NotFound(last.name, vm)] else []);
      forall e | e in reqs
        ensures multiset(w)[NotFound(e.name, vm)] == if FindSource(tree, vm, e.from).None? then 1 else 0
      {
        if e != last {
          var a :| 0 <= a < |reqs| && reqs[a] == e;
          assert a < |reqs| - 1;
          assert e in front;
          assert e.name != last.name;
        }
      }
    }
  }

  /** Warning `x` occurs in `w` strictly before warning `y`. */
  ghost predicate WarnsBefore(w: seq<Warning>, x: Warning, y: Warning)
  {
    exists a, b :: 0 <= a < b < |w| && w[a] == x && w[b] == y
  }

  /** Appending warnings keeps an earlier order. */
  lemma WarnsBeforeExtends(w: seq<Warning>, more: seq<Warning>, x: Warning, y: Warning)
    requires WarnsBefore(w, x, y)
    ensures WarnsBefore(w + more, x, y)
  {
    var a, b :| 0 <= a < b < |w| && w[a] == x && w[b] == y;
    assert (w + more)[a] == x && (w + more)[b] == y;
  }

  /** A warning already emitted precedes one appended after it. */
  lemma WarnsBeforeAppended(w: seq<Warning>, x: Warning, y: Warning)
    requires x in w
    ensures WarnsBefore(w + [y], x, y)
  {
    var a :| 0 <= a < |w| && w[a] == x;
    assert (w + [y])[a] == x && (w + [y])[|w|] == y;
  }

  /** Development-mode warnings follow the declared order of the entries:
      for two missing entries, the earlier one's warning comes first. */
  lemma {:induction false} MissingWarningsInOrder<V>(reqs: seq<Request>, tree: seq<Node<V>>, vm: nat, p: nat, q: nat)
    requires WellFormed(tree) && vm < |tree|
    requires p < q < |reqs|
    requires FindSource(tree, vm, reqs[p].from).None? && FindSource(tree, vm, reqs[q].from).None?
    ensures WarnsBefore(ResolveEntries(reqs, tree, vm, true).warnings, NotFound(reqs[p].name, vm), NotFound(reqs[q].name, vm))
    decreases |reqs|
  {
    var front := reqs[..|reqs| - 1];
    var last := reqs[|reqs| - 1];
    assert reqs == front + [last];
    var prev := ResolveEntries(front, tree, vm, true).warnings;
    assert reqs[p] == front[p];
    if q < |reqs| - 1 {
      assert reqs[q] == front[q];
      MissingWarningsInOrder(front, tree, vm, p, q);
      if FindSource(tree, vm, last.from).None? {
        WarnsBeforeExtends(prev, [NotFound(last.name, vm)], NotFound(reqs[p].name, vm), NotFound(reqs[q].name, vm));
      }
    } else {
      assert front[p] in front;
      WarnsBeforeAppended(prev, NotFound(reqs[p].name, vm), NotFound(last.name, vm));
    }
  }

  /** The outcome of resolveInject: no object at all when the `inject` option
      is absent, otherwise the result object, plus the warnings. */
  datatype Resolved<V> = Resolved(result: Option<map<Key, V>>, warnings: seq<Warning>)

  /** resolveInject: the request loop runs only when the `inject` option is
      present (truthy), an empty one included. */
  function ResolveInject<V>(inject: Option<seq<Request>>, tree: seq<Node<V>>, vm: nat, dev: bool): (r: Resolved<V>)
    requires WellFormed(tree) && vm < |tree|
    ensures inject.None? ==> r.result.None? && r.warnings == []
    ensures inject.Some? ==> r.result.Some?
    ensures inject == Some([]) ==> r.result == Some(map[]) && r.warnings == []
    ensures inject.Some? ==> r.result.value.Keys <= set e | e in inject.value :: e.name
  {
    match inject
    case None => Resolved(None, [])
    case Some(reqs) =>
      var res := ResolveEntries(reqs, tree, vm, dev);
      Resolved(Some(res.result), res.warnings)
  }

  /** With distinct local names, a requested name is in the result
      exactly when its walk found a source. */
  lemma ResolvedIffFound<V>(reqs: seq<Request>, tree: seq<Node<V>>, vm: nat, dev: bool, e: Request)
    requires WellFormed(tree) && vm < |tree| && DistinctNames(reqs) && e in reqs
    ensures e.name in ResolveEntries(reqs, tree, vm, dev).result <==> FindSource(tree, vm, e.from).Some?
  {
    if e.name in ResolveEntries(reqs, tree, vm, dev).result {
      var e' :| e' in reqs && FindSource(tree, vm, e'.from).Some? && e'.name == e.name;
      var a :| 0 <= a < |reqs| && reqs[a] == e;
      var b :| 0 <= b < |reqs| && reqs[b] == e';
      assert a == b;
    }
  }

  /** Nearest-ancestor-wins, domain: with distinct local names, a requested
      name is resolved exactly when some instance on the chain (the
      requester first) provides its key. */
  lemma ResolvedIffProvidedOnChain<V>(reqs: seq<Request>, tree: seq<Node<V>>, vm: nat, dev: bool, e: Request)
    requires WellFormed(tree) && vm < |tree| && DistinctNames(reqs) && e in reqs
    ensures e.name in ResolveInject(Some(reqs), tree, vm, dev).result.value <==>
      exists p :: 0 <= p < |Chain(tree, vm)| && Provides(tree[Chain(tree, vm)[p]], e.from)
  {
    ResolvedIffFound(reqs, tree, vm, dev, e);
    FindSourceIsNearestOnChain(tree, vm, e.from);
  }

  /** Nearest-ancestor-wins, values: with distinct local names, a resolved
      name holds the value published by the nearest instance on the chain
      that provides its key. */
  lemma ResolvedHoldsNearestValue<V>(reqs: seq<Request>, tree: seq<Node<V>>, vm: nat, dev: bool)
    requires WellFormed(tree) && vm < |tree| && DistinctNames(reqs)
    ensures forall e :: e in reqs && e.name in ResolveInject(Some(reqs), tree, vm, dev).result.value ==>
      exists p :: NearestProvider(tree, vm, e.from, p) &&
        ResolveInject(Some(reqs), tree, vm, dev).result.value[e.name] == ProvidedValue(tree, Chain(tree, vm)[p], e.from)
  {
    var r := ResolveInject(Some(reqs), tree, vm, dev).result.value;
    ResolvedValuesAreProvided(reqs, tree, vm, dev);
    forall e | e in reqs && e.name in r
      ensures exists p :: NearestProvider(tree, vm, e.from, p) && r[e.name] == ProvidedValue(tree, Chain(tree, vm)[p], e.from)
    {
      ResolvedIffFound(reqs, tree, vm, dev, e);
      FindSourceIsNearestOnChain(tree, vm, e.from);
      var p :| NearestProvider(tree, vm, e.from, p) && Chain(tree, vm)[p] == FindSource(tree, vm, e.from).value;
      assert r[e.name] == ProvidedValue(tree, Chain(tree, vm)[p], e.from);
    }
  }
}

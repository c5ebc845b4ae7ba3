/** Publishing: how an instance's `provide` option becomes its `_provided`
    map (initProvide). */
module Provide {
  import opened Tree
  import opened Resolve

  /** A present `provide` option: a static object, or a function whose call
      (with the instance as receiver) is taken as already evaluated.
      `returned` is absent when the call returns a falsy value; a truthy
      non-object return is not modelled. */
  datatype ProvideSource<V> =
    | StaticProvide(obj: map<Key, V>)
    | FunctionProvide(returned: Option<map<Key, V>>)

  /** The `_provided` map stored on an instance whose `provide` option is
      `provide` (absent when the option is absent). */
  function InitProvide<V>(provide: Option<ProvideSource<V>>): (provided: Option<map<Key, V>>)
    ensures provide.None? ==> provided.None?
    ensures provide.Some? && provide.value.StaticProvide? ==> provided == Some(provide.value.obj)
    ensures provide.Some? && provide.value.FunctionProvide? ==> provided == provide.value.returned
    ensures provided.Some? <==> provide.Some? && (provide.value.StaticProvide? || provide.value.returned.Some?)
  {
    match provide
    case None => None
    case Some(StaticProvide(m)) => Some(m)
    case Some(FunctionProvide(ret)) => ret
  }

  /** The key `k` is in the object the `provide` option publishes. */
  predicate Publishes<V>(provide: Option<ProvideSource<V>>, k: Key)
  {
    match provide
    case None => false
    case Some(StaticProvide(m)) => k in m
    case Some(FunctionProvide(ret)) => ret.Some? && k in ret.value
  }

  /** What initProvide stores is what the walk consults at that instance: a
      walk started there stops there exactly when the `provide` option
      publishes the key, and then yields the published value. */
  lemma InitProvideFeedsWalk<V>(tree: seq<Node<V>>, i: nat, k: Key, provide: Option<ProvideSource<V>>)
    requires WellFormed(tree) && i < |tree| && tree[i].provided == InitProvide(provide)
    ensures FindSource(tree, i, k) == Some(i) <==> Publishes(provide, k)
    ensures Publishes(provide, k) ==>
      ProvidedValue(tree, i, k) ==
        if provide.value.StaticProvide? then provide.value.obj[k] else provide.value.returned.value[k]
  {
  }

  /** No `provide` option and a static empty object are indistinguishable to
      every walk. */
  lemma NoProvideSameAsEmptyProvide<V>(tree: seq<Node<V>>, j: nat, i: nat, k: Key)
    requires WellFormed(tree) && j < |tree| && i < |tree|
    requires tree[j].provided == InitProvide(Some(StaticProvide(map[])))
    ensures var unset := tree[j := tree[j].(provided := InitProvide(None))];
      WellFormed(unset) && FindSource(unset, i, k) == FindSource(tree, i, k)
  {
    EmptyProvideNeverMatches(tree, j, i, k);
  }
}

/** Installation (initInjections): the resolved entries become reactive
    properties of the requesting instance while deep conversion is switched
    off. */
module Install {
  import opened Tree
  import opened Resolve

  /** A property defined by `defineReactive`: its value, whether a custom
      setter that warns on direct mutation was passed, and whether the value
      was deep-observed (the global `shouldConvert` flag at definition time). */
  datatype Prop<V> = Prop(value: V, warnOnWrite: bool, deepObserved: bool)

  /** The state initInjections touches: the reactive properties of every
      instance in the arena and the global `observerState.shouldConvert`. */
  datatype Runtime<V> = Runtime(props: seq<map<Key, Prop<V>>>, shouldConvert: bool)

  /** `defineReactive(obj, key, value, customSetter?)`, abstracted as a
      property write that records the setter and the conversion flag. */
  function DefineReactive<V>(props: map<Key, Prop<V>>, key: Key, value: V, customSetter: bool, shouldConvert: bool): (props': map<Key, Prop<V>>)
    ensures props'.Keys == props.Keys + {key}
    ensures props'[key] == Prop(value, customSetter, shouldConvert)
    ensures forall k :: k in props && k != key ==> props'[k] == props[k]
  {
    props[key := Prop(value, customSetter, shouldConvert)]
  }

  /** The names `Object.keys` lists for a result object: its string keys
      only, symbol keys being skipped. */
  function StringKeys<V>(result: map<Key, V>): (keys: set<Key>)
    ensures keys <= result.Keys
    ensures forall k :: k in result ==> (k in keys <==> k.Str?)
  {
    set k | k in result && k.Str?
  }

  /** The `forEach` over the chosen keys: each is defined with its resolved
      value, the given setter flag and conversion flag; no other property
      changes. */
  method DefineEach<V>(own: map<Key, Prop<V>>, result: map<Key, V>, keys: set<Key>, dev: bool, shouldConvert: bool)
    returns (own': map<Key, Prop<V>>)
    requires keys <= result.Keys
    ensures own'.Keys == own.Keys + keys
    ensures forall k :: k in keys ==> own'[k] == Prop(result[k], dev, shouldConvert)
    ensures forall k :: k in own && k !in keys ==> own'[k] == own[k]
  {
    own' := own;
    var remaining := keys;
    while remaining != {}
      invariant remaining <= keys
      invariant own'.Keys == own.Keys + (keys - remaining)
      invariant forall k :: k in keys && k !in remaining ==> own'[k] == Prop(result[k], dev, shouldConvert)
      invariant forall k :: k in own && k !in keys ==> own'[k] == own[k]
      invariant forall k :: k in own && k in remaining ==> own'[k] == own[k]
      decreases remaining
    {
      var key :| key in remaining;
      own' := DefineReactive(own', key, result[key], dev, shouldConvert);
      remaining := remaining - {key};
    }
  }

  /** initInjections as written: resolve, then define the string-named
      entries of the result on the requester with `shouldConvert` off, then
      set `shouldConvert` to `true`. A symbol-named entry is resolved (and
      not warned about) but never defined. */
  method InitInjections<V>(inject: Option<seq<Request>>, tree: seq<Node<V>>, vm: nat, dev: bool, s: Runtime<V>)
    returns (s': Runtime<V>, warnings: seq<Warning>)
    requires WellFormed(tree) && vm < |tree| && |s.props| == |tree|
    ensures |s'.props| == |s.props|
    ensures forall j :: 0 <= j < |s.props| && j != vm ==> s'.props[j] == s.props[j]
    ensures warnings == ResolveInject(inject, tree, vm, dev).warnings
    ensures inject.None? ==> s' == s
    ensures inject.Some? ==> s'.shouldConvert
    ensures inject.Some? ==>
      var result := ResolveInject(inject, tree, vm, dev).result.value;
      && s'.props[vm].Keys == s.props[vm].Keys + (set k | k in result && k.Str?)
      && (forall k :: k in result && k.Str? ==> s'.props[vm][k] == Prop(result[k], dev, false))
      && (forall k :: k in result && k.Sym? ==> (k in s'.props[vm] <==> k in s.props[vm]))
      && (forall k :: k in s.props[vm] && !(k in result && k.Str?) ==> s'.props[vm][k] == s.props[vm][k])
  {
    var resolved := ResolveInject(inject, tree, vm, dev);
    warnings := resolved.warnings;
    s' := s;
    if resolved.result.Some? {
      var result := resolved.result.value;
      var shouldConvert := false;
      var own := DefineEach(s.props[vm], result, StringKeys(result), dev, shouldConvert);
      shouldConvert := true;
      s' := Runtime(s.props[vm := own], shouldConvert);
    }
  }

  /** initInjections as evidently intended: every resolved entry, whatever
      the kind of its name, is defined on the requester. */
  method InitInjectionsAllKeys<V>(inject: Option<seq<Request>>, tree: seq<Node<V>>, vm: nat, dev: bool, s: Runtime<V>)
    returns (s': Runtime<V>, warnings: seq<Warning>)
    requires WellFormed(tree) && vm < |tree| && |s.props| == |tree|
    ensures |s'.props| == |s.props|
    ensures forall j :: 0 <= j < |s.props| && j != vm ==> s'.props[j] == s.props[j]
    ensures warnings == ResolveInject(inject, tree, vm, dev).warnings
    ensures inject.None? ==> s' == s
    ensures inject.Some? ==> s'.shouldConvert
    ensures inject.Some? ==>
      var result := ResolveInject(inject, tree, vm, dev).result.value;
      && s'.props[vm].Keys == s.props[vm].Keys + result.Keys
      && (forall k :: k in result ==> s'.props[vm][k] == Prop(result[k], dev, false))
      && (forall k :: k in s.props[vm] && k !in result ==> s'.props[vm][k] == s.props[vm][k])
  {
    var resolved := ResolveInject(inject, tree, vm, dev);
    warnings := resolved.warnings;
    s' := s;
    if resolved.result.Some? {
      var result := resolved.result.value;
      var shouldConvert := false;
      var own := DefineEach(s.props[vm], result, result.Keys, dev, shouldConvert);
      shouldConvert := true;
      s' := Runtime(s.props[vm := own], shouldConvert);
    }
  }

  /** A symbol-named injection whose key is provided resolves silently, yet
      its name is not among the keys initInjections defines: the instance
      ends up without the property. */
  lemma SymbolNamedInjectionSkipped()
    ensures var r := ResolveInject(Some([Request(Sym(0), Str("a"))]), [Node(None, Some(map[Str("a") := 7]))], 0, true);
      && r.result == Some(map[Sym(0) := 7])
      && r.warnings == []
      && Sym(0) !in StringKeys(r.result.value)
  {
  }
}

/** The component tree the provide/inject mechanism walks: instances held in
    an arena, each with a `$parent` index and an optional `_provided` map. */
module Tree {

  datatype Option<+T> = None | Some(value: T)

  /** A property key of the host language: a string or a unique symbol. Both
      the local names of an `inject` option and the keys it asks for are keys
      of this kind. */
  datatype Key = Str(text: string) | Sym(id: nat)

  /** A component instance as the resolver sees it: its `$parent` link (an
      index into the arena, absent at the root) and its `_provided` map
      (absent when the instance publishes nothing). */
  datatype Node<V> = Node(parent: Option<nat>, provided: Option<map<Key, V>>)

  /** Instances are created top-down, so every parent link points to an
      earlier instance; this is what makes the `$parent` relation acyclic. */
  predicate WellFormed<V>(tree: seq<Node<V>>)
  {
    forall i :: 0 <= i < |tree| && tree[i].parent.Some? ==> tree[i].parent.value < i
  }

  /** The test the walk applies at each instance: `_provided` is present and
      holds the requested key. */
  predicate Provides<V>(n: Node<V>, k: Key)
  {
    n.provided.Some? && k in n.provided.value
  }

  /** Position `q` of a chain is followed by the parent of the instance
      there (when there is a next position). */
  predicate LinkedAt<V>(tree: seq<Node<V>>, c: seq<nat>, q: nat)
    requires q < |c|
  {
    q + 1 < |c| ==> c[q] < |tree| && tree[c[q]].parent == Some(c[q + 1])
  }

  /** The ancestor chain of instance `i`: itself, its parent, its
      grandparent, ... up to the root. */
  function Chain<V>(tree: seq<Node<V>>, i: nat): (c: seq<nat>)
    requires WellFormed(tree) && i < |tree|
    ensures |c| >= 1 && c[0] == i
    ensures forall q :: 0 <= q < |c| ==> c[q] <= i
    ensures forall q :: 0 <= q < |c| ==> LinkedAt(tree, c, q)
    ensures tree[c[|c| - 1]].parent.None?
    decreases i
  {
    match tree[i].parent
    case None => [i]
    case Some(p) =>
      var rest := Chain(tree, p);
      assert forall q :: 1 <= q < |rest| + 1 ==> LinkedAt(tree, rest, q - 1) ==> LinkedAt(tree, [i] + rest, q);
      [i] + rest
  }
}

/**
 * The second draft (aa1.rs): an unbalanced binary search tree whose
 * insertion returns the value it displaces. Nodes carry a colour, but
 * every node is created `Black` and the colour is never consulted.
 */
module BinaryTree {
  import opened Wrappers
  import opened Bindings

  datatype Color = Red | Black

  datatype Node<V> = Leaf | Internal(n: InternalNode<V>) {

    /** Search-tree lookup: left on a smaller key, right on a larger one. */
    function Find(key: int): (r: Option<V>)
      ensures Leaf? ==> r == None
      ensures r.Some? ==> (key, r.value) in Elements(this)
      decreases this
    {
      match this
      case Leaf => None
      case Internal(node) =>
        if key < node.key then node.left.Find(key)
        else if node.key < key then node.right.Find(key)
        else Some(node.val)
    }

    /**
     * Insert a binding; returns the value the key had before, if any. A
     * new key grows a `Black` node with two leaves where the search ran
     * off the tree; an existing key only gets its value replaced.
     */
    method Insert(key: int, value: V) returns (r: Node<V>, prev: Option<V>)
      ensures prev == Find(key)
      ensures IsBST(this) ==> prev == Get(Contents(this), key)
      ensures r.Find(key) == Some(value)
      ensures forall j :: j != key ==> r.Find(j) == Find(j)
      ensures prev.Some? ==> SameShape(this, r) && ReplacesValue(this, r, key, value)
      ensures prev.None? ==> GrowsLeaf(this, r, key, value)
      ensures IsBST(this) ==> IsBST(r) && Contents(r) == Contents(this)[key := value]
      decreases this
    {
      if IsBST(this) {
        FindCorrect(this, key);
      }
      match this
      case Leaf =>
        var col := Black;
        var created := InternalNode(col, key, value, Leaf, Leaf);
        r := Internal(created);
        prev := None;
        assert [(key, value)][..0] == [];
      case Internal(n) =>
        if key < n.key {
          var l;
          l, prev := n.left.Insert(key, value);
          r := Internal(n.(left := l));
          SameShapeRefl(n.right);
          if IsBST(this) {
            GrowLeft(n, l, key, value);
          }
        } else if n.key < key {
          var rt;
          rt, prev := n.right.Insert(key, value);
          r := Internal(n.(right := rt));
          SameShapeRefl(n.left);
          if IsBST(this) {
            GrowRight(n, rt, key, value);
          }
        } else {
          prev := Some(n.val);
          r := Internal(n.(val := value));
          SameShapeRefl(n.left);
          SameShapeRefl(n.right);
          if IsBST(this) {
            ReplaceValue(n, value);
          }
        }
    }
  }

  datatype InternalNode<V> = InternalNode(color: Color, key: int, val: V, left: Node<V>, right: Node<V>)

  /** The tree: an optional root node. */
  datatype Tree<V> = Tree(root: Option<Node<V>>) {

    function Find(key: int): (r: Option<V>)
      ensures root.None? ==> r == None
      ensures r.Some? ==> root.Some? && (key, r.value) in Elements(root.value)
    {
      match root
      case None => None
      case Some(n) => n.Find(key)
    }
  }

  /** The (key, value) pairs of a subtree in in-order. */
  ghost function Elements<V>(t: Node<V>): seq<(int, V)>
    decreases t
  {
    match t
    case Leaf => []
    case Internal(n) => Elements(n.left) + [(n.key, n.val)] + Elements(n.right)
  }

  ghost function KeySet<V>(t: Node<V>): set<int> {
    KeysOf(Elements(t))
  }

  /** The map a subtree stands for. */
  ghost function Contents<V>(t: Node<V>): map<int, V> {
    MapOf(Elements(t))
  }

  /** Binary-search-tree order: left keys below the node's key, right keys above. */
  ghost predicate IsBST<V>(t: Node<V>)
    decreases t
  {
    match t
    case Leaf => true
    case Internal(n) =>
      IsBST(n.left) && IsBST(n.right) &&
      (forall k :: k in KeySet(n.left) ==> k < n.key) &&
      (forall k :: k in KeySet(n.right) ==> n.key < k)
  }

  /** The same nodes with the same keys and colours; only values may differ. */
  ghost predicate SameShape<V>(a: Node<V>, b: Node<V>)
    decreases a
  {
    match a
    case Leaf => b.Leaf?
    case Internal(n) =>
      b.Internal? && b.n.color == n.color && b.n.key == n.key &&
      SameShape(n.left, b.n.left) && SameShape(n.right, b.n.right)
  }

  /**
   * `b` is `a` with only the value changed, to `value`, at the node the
   * search for `key` ends on; every other node is unchanged.
   */
  ghost predicate ReplacesValue<V>(a: Node<V>, b: Node<V>, key: int, value: V)
    decreases a
  {
    match a
    case Leaf => false
    case Internal(n) =>
      b.Internal? && b.n.color == n.color && b.n.key == n.key &&
      if key < n.key then
        b.n.val == n.val && b.n.right == n.right && ReplacesValue(n.left, b.n.left, key, value)
      else if n.key < key then
        b.n.val == n.val && b.n.left == n.left && ReplacesValue(n.right, b.n.right, key, value)
      else
        b.n.val == value && b.n.left == n.left && b.n.right == n.right
  }

  /**
   * `b` is `a` with exactly one leaf replaced by a `Black` node holding
   * `key` and `value` between two leaves; every other node is unchanged.
   */
  ghost predicate GrowsLeaf<V>(a: Node<V>, b: Node<V>, key: int, value: V)
    decreases a
  {
    match a
    case Leaf => b == Internal(InternalNode(Black, key, value, Leaf, Leaf))
    case Internal(n) =>
      b.Internal? && b.n.color == n.color && b.n.key == n.key && b.n.val == n.val &&
      ((b.n.right == n.right && GrowsLeaf(n.left, b.n.left, key, value)) ||
       (b.n.left == n.left && GrowsLeaf(n.right, b.n.right, key, value)))
  }

  /** The number of internal nodes. */
  function Size<V>(t: Node<V>): nat
    decreases t
  {
    match t
    case Leaf => 0
    case Internal(n) => Size(n.left) + 1 + Size(n.right)
  }

  // ---------------------------------------------------------------------
  // The search-tree abstraction

  lemma {:induction false} BstIffSorted<V>(t: Node<V>)
    ensures IsBST(t) <==> StrictlyIncreasing(Elements(t))
    decreases t
  {
    if t.Internal? {
      var n := t.n;
      assert Elements(t) == Elements(n.left) + [(n.key, n.val)] + Elements(n.right);
      assert KeySet(n.left) == KeysOf(Elements(n.left));
      assert KeySet(n.right) == KeysOf(Elements(n.right));
      BstIffSorted(n.left);
      BstIffSorted(n.right);
      SortedAround(Elements(n.left), (n.key, n.val), Elements(n.right));
    }
  }

  lemma ContentsNode<V>(n: InternalNode<V>)
    ensures Contents(Internal(n)) == Contents(n.left)[n.key := n.val] + Contents(n.right)
    ensures KeySet(Internal(n)) == KeySet(n.left) + {n.key} + KeySet(n.right)
  {
    MapOfNode(Elements(n.left), n.key, n.val, Elements(n.right));
  }

  lemma ContentsKeys<V>(t: Node<V>)
    ensures Contents(t).Keys == KeySet(t)
  {
    MapOfKeys(Elements(t));
  }

  /** On a search tree a binding is stored at some node exactly when the tree's map holds it. */
  lemma {:induction false} StoredIffBound<V>(t: Node<V>, k: int, v: V)
    requires IsBST(t)
    ensures (k, v) in Elements(t) <==> Get(Contents(t), k) == Some(v)
  {
    BstIffSorted(t);
    MapOfSortedIff(Elements(t), k, v);
  }

  /** One step of the descent: on a search tree, a key is looked up on the side its comparison picks. */
  lemma LookupStep<V>(n: InternalNode<V>, key: int)
    requires IsBST(Internal(n))
    ensures Get(Contents(Internal(n)), key) ==
      if key < n.key then Get(Contents(n.left), key)
      else if n.key < key then Get(Contents(n.right), key)
      else Some(n.val)
  {
    ContentsNode(n);
    ContentsKeys(n.left);
    ContentsKeys(n.right);
  }

  /** On a search tree, `Find` is lookup in the map the tree stands for. */
  lemma {:induction false} FindCorrect<V>(t: Node<V>, key: int)
    requires IsBST(t)
    ensures t.Find(key) == Get(Contents(t), key)
    decreases t
  {
    if t.Internal? {
      LookupStep(t.n, key);
      if key < t.n.key {
        FindCorrect(t.n.left, key);
      } else if t.n.key < key {
        FindCorrect(t.n.right, key);
      }
    }
  }

  /** On a tree whose root is a search tree, `Tree.Find` is lookup in the map the root stands for. */
  lemma TreeFindCorrect<V>(t: Tree<V>, key: int)
    requires t.root.Some? ==> IsBST(t.root.value)
    ensures t.Find(key) == if t.root.None? then None else Get(Contents(t.root.value), key)
  {
    if t.root.Some? {
      FindCorrect(t.root.value, key);
    }
  }

  /** Replacing the left subtree by one that gained `key`: order and contents as expected. */
  lemma GrowLeft<V>(node: InternalNode<V>, l: Node<V>, key: int, value: V)
    requires IsBST(Internal(node)) && IsBST(l) && key < node.key
    requires Contents(l) == Contents(node.left)[key := value]
    ensures IsBST(Internal(node.(left := l)))
    ensures Contents(Internal(node.(left := l))) == Contents(Internal(node))[key := value]
  {
    ContentsKeys(l);
    ContentsKeys(node.left);
    assert KeySet(l) == KeySet(node.left) + {key};
    assert key !in KeySet(node.right);
    assert Elements(Internal(node.(left := l))) == Elements(l) + [(node.key, node.val)] + Elements(node.right);
    MapOfGrowLeft(Elements(node.left), Elements(l), node.key, node.val, Elements(node.right), key, value);
  }

  /** Replacing the right subtree by one that gained `key`: order and contents as expected. */
  lemma GrowRight<V>(node: InternalNode<V>, r: Node<V>, key: int, value: V)
    requires IsBST(Internal(node)) && IsBST(r) && node.key < key
    requires Contents(r) == Contents(node.right)[key := value]
    ensures IsBST(Internal(node.(right := r)))
    ensures Contents(Internal(node.(right := r))) == Contents(Internal(node))[key := value]
  {
    ContentsKeys(r);
    ContentsKeys(node.right);
    assert KeySet(r) == KeySet(node.right) + {key};
    assert Elements(Internal(node.(right := r))) == Elements(node.left) + [(node.key, node.val)] + Elements(r);
    MapOfGrowRight(Elements(node.left), node.key, node.val, Elements(node.right), Elements(r), key, value);
  }

  /** Replacing the value at a node keeps the order and rebinds the node's key. */
  lemma ReplaceValue<V>(node: InternalNode<V>, value: V)
    requires IsBST(Internal(node))
    ensures IsBST(Internal(node.(val := value)))
    ensures Contents(Internal(node.(val := value))) == Contents(Internal(node))[node.key := value]
  {
    assert node.key !in KeySet(node.right);
    MapOfReplace(Elements(node.left), node.key, node.val, Elements(node.right), value);
  }

  // ---------------------------------------------------------------------
  // Consequences of insertion

  /** A new key adds exactly one node; a present key leaves the count alone. */
  lemma {:induction false} InsertSize<V>(a: Node<V>, b: Node<V>, key: int, value: V)
    ensures GrowsLeaf(a, b, key, value) ==> Size(b) == Size(a) + 1
    ensures SameShape(a, b) ==> Size(b) == Size(a)
    decreases a
  {
    if a.Internal? && b.Internal? {
      InsertSize(a.n.left, b.n.left, key, value);
      InsertSize(a.n.right, b.n.right, key, value);
    }
  }

  /** Every node `Insert` creates is `Black`: an all-black tree stays all black. */
  ghost predicate AllBlack<V>(t: Node<V>)
    decreases t
  {
    match t
    case Leaf => true
    case Internal(n) => n.color == Black && AllBlack(n.left) && AllBlack(n.right)
  }

  lemma {:induction false} GrowsLeafKeepsBlack<V>(a: Node<V>, b: Node<V>, key: int, value: V)
    requires AllBlack(a)
    ensures GrowsLeaf(a, b, key, value) || SameShape(a, b) ==> AllBlack(b)
    decreases a
  {
    if a.Internal? && b.Internal? {
      GrowsLeafKeepsBlack(a.n.left, b.n.left, key, value);
      GrowsLeafKeepsBlack(a.n.right, b.n.right, key, value);
      if GrowsLeaf(a, b, key, value) {
        if b.n.right == a.n.right {
          SameShapeRefl(a.n.right);
        } else {
          SameShapeRefl(a.n.left);
        }
      }
    }
  }

  lemma {:induction false} SameShapeRefl<V>(t: Node<V>)
    ensures SameShape(t, t)
    decreases t
  {
    if t.Internal? {
      SameShapeRefl(t.n.left);
      SameShapeRefl(t.n.right);
    }
  }
}

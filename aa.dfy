/**
 * The AA tree draft (aa.rs): nodes carrying a level, the two rebalancing
 * rotations `skew` and `split`, lookup, and insertion.
 *
 * A `Link` is an owned, optional child (`Option<Box<AANode>>` in the
 * draft). Ownership is strictly hierarchical, so a subtree is a value; the
 * rotations, which the draft performs in place through `&mut Box`, take
 * the node and return the rewritten node.
 */
module AA {
  import opened Wrappers
  import opened Bindings

  type Link<V> = Option<AANode<V>>

  datatype AANode<V> = AANode(key: int, value: V, left: Link<V>, right: Link<V>, level: nat)

  /** The level of a link: 0 for an absent child. */
  function Level<V>(t: Link<V>): nat {
    if t.None? then 0 else t.value.level
  }

  /** The (key, value) pairs of a subtree in in-order. */
  ghost function Elements<V>(t: Link<V>): seq<(int, V)>
    decreases t
  {
    match t
    case None => []
    case Some(n) => Elements(n.left) + [(n.key, n.value)] + Elements(n.right)
  }

  ghost function KeySet<V>(t: Link<V>): set<int> {
    KeysOf(Elements(t))
  }

  /** The map a subtree stands for. */
  ghost function Contents<V>(t: Link<V>): map<int, V> {
    MapOf(Elements(t))
  }

  /** Binary-search-tree order: left keys below the node's key, right keys above. */
  ghost predicate IsBST<V>(t: Link<V>)
    decreases t
  {
    match t
    case None => true
    case Some(n) =>
      IsBST(n.left) && IsBST(n.right) &&
      (forall k :: k in KeySet(n.left) ==> k < n.key) &&
      (forall k :: k in KeySet(n.right) ==> n.key < k)
  }

  /**
   * The AA balance rules: a left child sits exactly one level below its
   * parent, a right child at the parent's level or one below, and no right
   * grandchild at the parent's level (absent children have level 0).
   */
  ghost predicate IsAA<V>(t: Link<V>)
    decreases t
  {
    match t
    case None => true
    case Some(n) =>
      IsAA(n.left) && IsAA(n.right) &&
      Level(n.left) + 1 == n.level &&
      (Level(n.right) == n.level || Level(n.right) + 1 == n.level) &&
      (n.right.Some? ==> Level(n.right.value.right) < n.level)
  }

  /** The right child of a present node is strictly below it: no horizontal link leaves the root. */
  ghost predicate Single<V>(t: Link<V>) {
    t.Some? && Level(t.value.right) < t.value.level
  }

  /** A fresh node: level 1, no children. */
  function New<V>(key: int, value: V): (n: AANode<V>)
    ensures n.key == key && n.value == value
    ensures n.level == 1 && n.left == None && n.right == None
    ensures Elements(Some(n)) == [(key, value)]
    ensures IsBST(Some(n)) && IsAA(Some(n))
  {
    AANode(key, value, None, None, 1)
  }

  // ---------------------------------------------------------------------
  // The search-tree abstraction

  lemma {:induction false} BstIffSorted<V>(t: Link<V>)
    ensures IsBST(t) <==> StrictlyIncreasing(Elements(t))
    decreases t
  {
    if t.Some? {
      var n := t.value;
      assert Elements(t) == Elements(n.left) + [(n.key, n.value)] + Elements(n.right);
      assert KeySet(n.left) == KeysOf(Elements(n.left));
      assert KeySet(n.right) == KeysOf(Elements(n.right));
      BstIffSorted(n.left);
      BstIffSorted(n.right);
      SortedAround(Elements(n.left), (n.key, n.value), Elements(n.right));
    }
  }

  lemma ContentsNode<V>(n: AANode<V>)
    ensures Contents(Some(n)) == Contents(n.left)[n.key := n.value] + Contents(n.right)
    ensures KeySet(Some(n)) == KeySet(n.left) + {n.key} + KeySet(n.right)
  {
    MapOfNode(Elements(n.left), n.key, n.value, Elements(n.right));
  }

  lemma ContentsKeys<V>(t: Link<V>)
    ensures Contents(t).Keys == KeySet(t)
  {
    MapOfKeys(Elements(t));
  }

  /** On a search tree a binding is stored at some node exactly when the tree's map holds it. */
  lemma {:induction false} StoredIffBound<V>(t: Link<V>, k: int, v: V)
    requires IsBST(t)
    ensures (k, v) in Elements(t) <==> Get(Contents(t), k) == Some(v)
  {
    BstIffSorted(t);
    MapOfSortedIff(Elements(t), k, v);
  }

  /** One step of the descent: on a search tree, a key is looked up on the side its comparison picks. */
  lemma LookupStep<V>(n: AANode<V>, key: int)
    requires IsBST(Some(n))
    ensures Get(Contents(Some(n)), key) ==
      if key < n.key then Get(Contents(n.left), key)
      else if n.key < key then Get(Contents(n.right), key)
      else Some(n.value)
  {
    ContentsNode(n);
    ContentsKeys(n.left);
    ContentsKeys(n.right);
  }

  /** Replacing the left subtree by one that gained `key`: order and contents as expected. */
  lemma GrowLeft<V>(node: AANode<V>, l: Link<V>, key: int, value: V)
    requires IsBST(Some(node)) && IsBST(l) && key < node.key
    requires Contents(l) == Contents(node.left)[key := value]
    ensures IsBST(Some(node.(left := l)))
    ensures Contents(Some(node.(left := l))) == Contents(Some(node))[key := value]
  {
    ContentsKeys(l);
    ContentsKeys(node.left);
    assert KeySet(l) == KeySet(node.left) + {key};
    assert key !in KeySet(node.right);
    assert Elements(Some(node.(left := l))) == Elements(l) + [(node.key, node.value)] + Elements(node.right);
    MapOfGrowLeft(Elements(node.left), Elements(l), node.key, node.value, Elements(node.right), key, value);
  }

  /** Replacing the right subtree by one that gained `key`: order and contents as expected. */
  lemma GrowRight<V>(node: AANode<V>, r: Link<V>, key: int, value: V)
    requires IsBST(Some(node)) && IsBST(r) && node.key < key
    requires Contents(r) == Contents(node.right)[key := value]
    ensures IsBST(Some(node.(right := r)))
    ensures Contents(Some(node.(right := r))) == Contents(Some(node))[key := value]
  {
    ContentsKeys(r);
    ContentsKeys(node.right);
    assert KeySet(r) == KeySet(node.right) + {key};
    assert Elements(Some(node.(right := r))) == Elements(node.left) + [(node.key, node.value)] + Elements(r);
    MapOfGrowRight(Elements(node.left), node.key, node.value, Elements(node.right), Elements(r), key, value);
  }

  /** Replacing the value at a node keeps the order and rebinds the node's key. */
  lemma ReplaceValue<V>(node: AANode<V>, value: V)
    requires IsBST(Some(node))
    ensures IsBST(Some(node.(value := value)))
    ensures Contents(Some(node.(value := value))) == Contents(Some(node))[node.key := value]
  {
    assert node.key !in KeySet(node.right);
    MapOfReplace(Elements(node.left), node.key, node.value, Elements(node.right), value);
  }

  // ---------------------------------------------------------------------
  // Rebalancing

  /** The left child sits at the node's own level: a horizontal left link. */
  predicate SkewFires<V>(node: AANode<V>) {
    node.left.Some? && node.left.value.level == node.level
  }

  /** The right child and right grandchild sit at the node's level: two horizontal right links. */
  predicate SplitFires<V>(node: AANode<V>) {
    node.right.Some? && node.right.value.right.Some? &&
    node.right.value.right.value.level == node.level
  }

  /**
   * Rotate right to remove a horizontal left link: the left child becomes
   * the subtree root and takes the node as its right child; the node adopts
   * the left child's former right subtree.
   */
  method Skew<V>(node: AANode<V>) returns (r: AANode<V>)
    ensures SkewFires(node) ==>
      var b := node.left.value;
      r == b.(right := Some(node.(left := b.right)))
    ensures !SkewFires(node) ==> r == node
    ensures r.level == node.level
    ensures Elements(Some(r)) == Elements(Some(node))
    ensures IsBST(Some(r)) <==> IsBST(Some(node))
    ensures IsAA(Some(node)) ==> r == node
  {
    r := node;
    if r.left.Some? && r.left.value.level == r.level {
      var save := r.left.value;
      r := r.(left := None);
      r, save := r.(left := save.right), save.(right := r.left);
      r, save := save, r;
      r := r.(right := Some(save));
      BstIffSorted(Some(node));
      BstIffSorted(Some(r));
    }
  }

  /**
   * Rotate left and raise the new root one level, to remove two
   * consecutive horizontal right links: the right child becomes the subtree
   * root and takes the node as its left child; the node adopts the right
   * child's former left subtree.
   */
  method Split<V>(node: AANode<V>) returns (r: AANode<V>)
    ensures SplitFires(node) ==>
      var b := node.right.value;
      r == b.(left := Some(node.(right := b.left)), level := b.level + 1)
    ensures !SplitFires(node) ==> r == node
    ensures Elements(Some(r)) == Elements(Some(node))
    ensures IsBST(Some(r)) <==> IsBST(Some(node))
    ensures IsAA(Some(node)) ==> r == node
  {
    r := node;
    if r.right.Some? && r.right.value.right.Some? && r.right.value.right.value.level == r.level {
      var save := r.right.value;
      r := r.(right := None);
      r, save := r.(right := save.left), save.(left := r.right);
      save := save.(level := save.level + 1);
      r, save := save, r;
      r := r.(left := Some(save));
      BstIffSorted(Some(node));
      BstIffSorted(Some(r));
    }
  }

  // ---------------------------------------------------------------------
  // Insertion below the root

  /** What `Skew` then `Split` produce, as a relation: `s` is the skewed node and `r` the split one. */
  ghost predicate Rebalanced<V>(g: AANode<V>, s: AANode<V>, r: AANode<V>) {
    (SkewFires(g) ==> s == g.left.value.(right := Some(g.(left := g.left.value.right)))) &&
    (!SkewFires(g) ==> s == g) &&
    (SplitFires(s) ==> r == s.right.value.(left := Some(s.(right := s.right.value.left)), level := s.right.value.level + 1)) &&
    (!SplitFires(s) ==> r == s)
  }

  /**
   * After the left subtree of a valid node took an insertion that kept it
   * valid and raised it by at most one level (and then left it without a
   * horizontal right link), rebalancing the node makes it valid again.
   */
  lemma RebalanceLeft<V>(node: AANode<V>, l: Link<V>, s: AANode<V>, r: AANode<V>)
    requires IsAA(Some(node))
    requires IsAA(l) && Level(node.left) <= Level(l) <= Level(node.left) + 1
    requires Level(l) == Level(node.left) + 1 ==> Single(l)
    requires Rebalanced(node.(left := l), s, r)
    ensures IsAA(Some(r)) && node.level <= r.level <= node.level + 1
    ensures r.level == node.level + 1 ==> Single(Some(r))
    ensures Single(Some(node)) ==> r.level == node.level
  {
  }

  /**
   * After the right subtree of a valid node took an insertion that kept it
   * valid and raised it by at most one level (not at all if it had no
   * horizontal right link), rebalancing the node makes it valid again.
   */
  lemma RebalanceRight<V>(node: AANode<V>, rt: Link<V>, s: AANode<V>, r: AANode<V>)
    requires IsAA(Some(node))
    requires IsAA(rt) && Level(node.right) <= Level(rt) <= Level(node.right) + 1
    requires Level(rt) == Level(node.right) + 1 ==> Single(rt)
    requires Single(node.right) ==> Level(rt) == Level(node.right)
    requires Rebalanced(node.(right := rt), s, r)
    ensures IsAA(Some(r)) && node.level <= r.level <= node.level + 1
    ensures r.level == node.level + 1 ==> Single(Some(r))
    ensures Single(Some(node)) ==> r.level == node.level
  {
  }

  /**
   * Insert below a link: descend by key, grow a level-1 node at the empty
   * slot or replace the value at an equal key, and on the way back up
   * apply `Skew` then `Split` to every node of the descent path.
   */
  method InsertAt<V>(t: Link<V>, key: int, value: V) returns (t': Link<V>, prev: Option<V>)
    ensures t'.Some?
    ensures prev.Some? ==> (key, prev.value) in Elements(t)
    ensures IsBST(t) ==> IsBST(t') && prev == Get(Contents(t), key)
    ensures IsBST(t) ==> Contents(t') == Contents(t)[key := value]
    ensures IsAA(t) ==> IsAA(t') && Level(t) <= Level(t') <= Level(t) + 1
    ensures IsAA(t) && Level(t') == Level(t) + 1 ==> Single(t')
    ensures IsAA(t) && Single(t) ==> Level(t') == Level(t)
    decreases t
  {
    match t
    case None =>
      t', prev := Some(New(key, value)), None;
      assert [(key, value)][..0] == [];
    case Some(node) =>
      var n := node;
      if key < n.key {
        var l;
        l, prev := InsertAt(n.left, key, value);
        if IsBST(t) {
          LookupStep(node, key);
          GrowLeft(node, l, key, value);
        }
        n := n.(left := l);
        var s := Skew(n);
        assert Contents(Some(s)) == Contents(Some(n));
        var g := n;
        n := Split(s);
        assert Contents(Some(n)) == Contents(Some(g));
        if IsAA(t) {
          RebalanceLeft(node, l, s, n);
        }
      } else if n.key < key {
        var r;
        r, prev := InsertAt(n.right, key, value);
        if IsBST(t) {
          LookupStep(node, key);
          GrowRight(node, r, key, value);
        }
        n := n.(right := r);
        var s := Skew(n);
        assert Contents(Some(s)) == Contents(Some(n));
        var g := n;
        n := Split(s);
        assert Contents(Some(n)) == Contents(Some(g));
        if IsAA(t) {
          RebalanceRight(node, r, s, n);
        }
      } else {
        prev := Some(n.value);
        n := n.(value := value);
        if IsBST(t) {
          LookupStep(node, key);
          ReplaceValue(node, value);
        }
      }
      t' := Some(n);
  }

  /** The tree: an optional owned root. */
  class AATree<V> {
    var root: Link<V>

    constructor ()
      ensures root == None
    {
      root := None;
    }

    /** Standard search-tree lookup, walking down from the root. */
    method Find(key: int) returns (r: Option<V>)
      ensures r.Some? ==> (key, r.value) in Elements(root)
      ensures IsBST(root) ==> r == Get(Contents(root), key)
    {
      var current := root;
      while true
        invariant forall p :: p in Elements(current) ==> p in Elements(root)
        invariant IsBST(root) ==> IsBST(current) && Get(Contents(current), key) == Get(Contents(root), key)
        decreases current
      {
        match current
        case None =>
          return None;
        case Some(n) =>
          if IsBST(root) {
            LookupStep(n, key);
          }
          if key < n.key {
            current := n.left;
          } else if n.key < key {
            current := n.right;
          } else {
            return Some(n.value);
          }
      }
    }

    /**
     * Insert a binding; returns the value the key had before, if any. An
     * empty tree gets a single level-1 root.
     */
    method Insert(key: int, value: V) returns (r: Option<V>)
      modifies this
      ensures old(root) == None ==> root == Some(New(key, value)) && r == None
      ensures r.Some? ==> (key, r.value) in Elements(old(root))
      ensures IsBST(old(root)) ==> IsBST(root) && r == Get(Contents(old(root)), key)
      ensures IsBST(old(root)) ==> Contents(root) == Contents(old(root))[key := value]
      ensures IsAA(old(root)) ==> IsAA(root)
    {
      match root
      case None =>
        root := Some(New(key, value));
        r := None;
      case Some(_) =>
        root, r := InsertAt(root, key, value);
    }
  }
}

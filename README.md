# AA tree and plain search tree, modelled in Dafny

The repository holds two drafts of an ordered key→value binary search tree.
This project models both and proves what they promise.

- `aa.dfy` (module `AA`) models `aa.rs`, the AA tree draft. Each node carries
  a *level*. `skew` is a right rotation that removes a left child at the
  node's own level. `split` is a left rotation that removes two consecutive
  same-level right links and raises the new subtree root by one level.
  Lookup walks down from the root in a loop. Insertion into an empty tree
  installs a single level-1 root.
- `binary_tree.dfy` (module `BinaryTree`) models `aa1.rs`. It is an
  unbalanced search tree with recursive lookup and recursive insertion.
  Insertion returns the value it displaces. A new key grows a node, always
  `Black`, at the leaf where the search ran off the tree.
- `bindings.dfy` (modules `Wrappers`, `Bindings`) holds the `Option` type and
  the shared vocabulary: in-order (key, value) sequences, strict sortedness,
  and the finite map such a sequence denotes.

Both drafts use owned, unshared children (`Option<Box<..>>`, `Box<Node>`).
A subtree is therefore a Dafny datatype value. An operation that rewrites a
node in place through `&mut` (`skew`, `split`, `Node::insert`) is a method
that takes the node and returns the rewritten node. Its body follows the
draft's steps (`take_unwrap`, the `swap`s, the level increment). The AA tree
itself is a class whose `Insert` assigns the `root` field.

Every tree is specified through two abstractions: `Elements` (the in-order
bindings) and `Contents` (the map those bindings denote). `IsBST` is the
search-tree order. `BstIffSorted` proves it equivalent to strictly
increasing in-order keys. `IsAA` is the AA balance rule set: a left child is
one level down; a right child is at the same level or one down; no right
grandchild is at the node's level.

On an equal key, `aa1.rs:35` replaces only the value and keeps the stored
key, and `InsertAt` does the same. With integer keys the stored key and the
supplied key are equal, so keeping or overwriting the key makes no
difference.

## Model

| member | source | states |
|---|---|---|
| `AA.New` | aa.rs:17-20 | The new node stores the given key and value at level 1 with no children. It is a one-binding tree that satisfies both the search order and the AA rules. |
| `AA.Skew` | aa.rs:23-40 | Fires exactly when the left child exists at the node's level. Then the left child `b` becomes the root, the old node becomes `b`'s right child, and `b`'s old right subtree becomes the old node's left subtree. Otherwise the node is unchanged. The subtree's level and its in-order bindings are unchanged, and search order holds after iff before. It is the identity on a valid AA tree. |
| `AA.Split` | aa.rs:42-63 | Fires exactly when the right child and right grandchild exist and the grandchild is at the node's level. Then the right child becomes the root, one level higher. The old node becomes its left child and takes its old left subtree as right subtree. Otherwise the node is unchanged. In-order bindings are preserved, and search order holds after iff before. It is the identity on a valid AA tree. |
| `AA.AATree.Find` | aa.rs:66-81 | A returned value is stored at a node with the searched key, in any tree. On a search tree the result is the lookup of the key in the tree's map: `None` exactly when the key is absent. The tree is not modified. |
| `AA.StoredIffBound` | aa.rs:67-81 | On a search tree a (key, value) pair is stored at some node iff the tree's map binds the key to that value. Together with `Find`, `Find(k) == Some(v)` iff a node holds `k` and `v`. |
| `AA.LookupStep` | aa.rs:72-75 | On a search tree, a lookup at a node continues left when the key is smaller, right when it is larger, and yields the node's value when it is equal. |
| `AA.BstIffSorted` | aa.rs:23-63 | Search-tree order holds iff the in-order keys strictly increase. This is why order-preserving rotations keep the search order. |
| `AA.AATree.Insert` | aa.rs:83-101 | On an empty tree the root becomes `New(key, value)` and the result is `None`. On any tree: a returned value was stored under the key; a search tree stays one, its map gains `key := value`, and the result is the previous binding; a valid AA tree stays valid. |
| `AA.InsertAt` | aa.rs:89-99 | Completes the unfinished branch: descend as `aa1.rs` does, then apply skew and split on the way up. On a search tree the map gains `key := value` and the previous binding is returned. A valid AA tree stays valid and rises by at most one level. When it rises, its new root has no horizontal right link. A tree whose root has no horizontal right link does not rise. |
| `BinaryTree.Node.Find` | aa1.rs:9-19 | A leaf yields `None`. A returned value is stored at a node with the searched key, in any tree. |
| `BinaryTree.FindCorrect` | aa1.rs:9-19 | On a search tree, `Find` is lookup in the tree's map: left on a smaller key, right on a larger, the node's value on an equal key. |
| `BinaryTree.StoredIffBound` | aa1.rs:12-17 | On a search tree a (key, value) pair is stored at some node iff the tree's map binds the key to that value. |
| `BinaryTree.LookupStep` | aa1.rs:13-16 | On a search tree, a lookup at a node continues on the side its comparison picks, or yields the node's value on equality. |
| `BinaryTree.Tree.Find` | aa1.rs:59-64 | An absent root yields `None`. A returned value is stored under the searched key in the root's subtree. |
| `BinaryTree.TreeFindCorrect` | aa1.rs:59-64 | When the root is a search tree, `Tree.Find` is lookup in the root's map, and `None` for an absent root. |
| `BinaryTree.Node.Insert` | aa1.rs:21-38 | The result is `Some(old)` iff `Find` found `old` before. On a search tree that is the previous binding. Afterwards `Find(key) == Some(value)` and `Find(j)` is unchanged for every other `j`. An existing key changes only the value at the node holding it, found along the search path; every other node, key, value and colour stays. A new key replaces exactly one leaf by a `Black` node with two leaf children. Search order is preserved and the map gains `key := value`. |
| `BinaryTree.InsertSize` | aa1.rs:24-35 | Growing a leaf adds exactly one node. Replacing a value keeps the node count. |
| `BinaryTree.GrowsLeafKeepsBlack` | aa1.rs:25-27 | The nodes insertion creates are `Black`, so an all-black tree stays all black. |

## Left out

- `AA.InsertAt`: the non-empty branches of `insert` (aa.rs:89-99) are an unfinished stub that does not compile. `InsertAt` is not in the draft. It completes the unfinished branches: it descends as `aa1.rs:31-36` does, replaces the value on an equal key, and applies skew then split to each node on the way back up.
- The `length` field of `AATree` (aa.rs:6) is never read or written, so it is not modelled and no size contract is claimed for the AA tree.
- `AATree` has no constructor in the draft. The model adds an empty one so that the class can be instantiated.
- Keys are integers instead of a generic `K: Ord`. Values are a type parameter.
- Levels are unbounded naturals. The draft's `uint` increment in `split` (aa.rs:59) cannot realistically overflow, and its wrap-around is not modelled.
- The `color` field of `aa1.rs` is carried and proved always `Black` for new nodes. No red-black rule is implemented in the draft, so none is proved.
- The empty `main` functions (aa.rs:104-105, aa1.rs:67-69) have no behaviour.
- Deletion and iteration exist in neither draft.
- Rust ownership mechanics (`Box`, `swap`, `take_unwrap`, `replace`) appear only as value rewrites of the subtree that is owned through `&mut`. Aliasing cannot arise with owned children.

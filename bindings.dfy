/** The usual optional value: the drafts' `Option<V>` and `Option<&V>`. */
module Wrappers {
  datatype Option<+T> = None | Some(value: T)
}

/**
 * Key/value sequences as produced by an in-order walk of a search tree,
 * and the finite map such a sequence denotes. Both tree drafts are
 * specified through these.
 */
module Bindings {
  import opened Wrappers

  /** Keys strictly increase from left to right. */
  ghost predicate StrictlyIncreasing<V>(s: seq<(int, V)>) {
    forall i, j :: 0 <= i < j < |s| ==> s[i].0 < s[j].0
  }

  ghost function KeysOf<V>(s: seq<(int, V)>): set<int> {
    set p | p in s :: p.0
  }

  /** The map a sequence of bindings denotes; a later binding of a key overrides an earlier one. */
  ghost function MapOf<V>(s: seq<(int, V)>): map<int, V>
    decreases |s|
  {
    if s == [] then map[] else MapOf(s[..|s| - 1])[s[|s| - 1].0 := s[|s| - 1].1]
  }

  /** Lookup in a map, as an optional value. */
  function Get<V>(m: map<int, V>, k: int): Option<V> {
    if k in m then Some(m[k]) else None
  }

  lemma {:induction false} MapOfConcat<V>(a: seq<(int, V)>, b: seq<(int, V)>)
    ensures MapOf(a + b) == MapOf(a) + MapOf(b)
    decreases |b|
  {
    if b == [] {
      assert a + b == a;
    } else {
      var b' := b[..|b| - 1];
      assert (a + b)[..|a + b| - 1] == a + b';
      MapOfConcat(a, b');
    }
  }

  lemma {:induction false} MapOfKeys<V>(s: seq<(int, V)>)
    ensures MapOf(s).Keys == KeysOf(s)
    decreases |s|
  {
    if s != [] {
      var s' := s[..|s| - 1];
      MapOfKeys(s');
      assert s == s' + [s[|s| - 1]];
      assert KeysOf(s) == KeysOf(s') + {s[|s| - 1].0};
    }
  }

  /** A tree node's bindings: its left walk, itself, its right walk. */
  lemma MapOfNode<V>(l: seq<(int, V)>, k: int, v: V, r: seq<(int, V)>)
    ensures MapOf(l + [(k, v)] + r) == MapOf(l)[k := v] + MapOf(r)
    ensures KeysOf(l + [(k, v)] + r) == KeysOf(l) + {k} + KeysOf(r)
  {
    MapOfConcat(l + [(k, v)], r);
    MapOfConcat(l, [(k, v)]);
    assert [(k, v)][..0] == [];
  }

  /** In a strictly increasing sequence every binding survives in the map it denotes. */
  lemma {:induction false} MapOfSorted<V>(s: seq<(int, V)>, i: int)
    requires StrictlyIncreasing(s)
    requires 0 <= i < |s|
    ensures s[i].0 in MapOf(s) && MapOf(s)[s[i].0] == s[i].1
    decreases |s|
  {
    var s' := s[..|s| - 1];
    if i < |s| - 1 {
      MapOfSorted(s', i);
    }
  }

  /** A strictly increasing sequence holds a binding exactly when the map it denotes does. */
  lemma MapOfSortedIff<V>(s: seq<(int, V)>, k: int, v: V)
    requires StrictlyIncreasing(s)
    ensures (k, v) in s <==> k in MapOf(s) && MapOf(s)[k] == v
  {
    if (k, v) in s {
      var i :| 0 <= i < |s| && s[i] == (k, v);
      MapOfSorted(s, i);
    }
    if k in MapOf(s) {
      MapOfKeys(s);
      var p :| p in s && p.0 == k;
      var i :| 0 <= i < |s| && s[i] == p;
      MapOfSorted(s, i);
    }
  }

  /** Splitting a sorted walk around a node: the shape of the binary-search-tree ordering. */
  lemma SortedAround<V>(l: seq<(int, V)>, x: (int, V), r: seq<(int, V)>)
    ensures StrictlyIncreasing(l + [x] + r) <==>
      StrictlyIncreasing(l) && StrictlyIncreasing(r) &&
      (forall k :: k in KeysOf(l) ==> k < x.0) &&
      (forall k :: k in KeysOf(r) ==> x.0 < k)
  {
    if StrictlyIncreasing(l + [x] + r) {
      SortedSplits(l, x, r);
    }
    if StrictlyIncreasing(l) && StrictlyIncreasing(r) &&
       (forall k :: k in KeysOf(l) ==> k < x.0) &&
       (forall k :: k in KeysOf(r) ==> x.0 < k)
    {
      SortedJoins(l, x, r);
    }
  }

  lemma SortedSplits<V>(l: seq<(int, V)>, x: (int, V), r: seq<(int, V)>)
    requires StrictlyIncreasing(l + [x] + r)
    ensures StrictlyIncreasing(l) && StrictlyIncreasing(r)
    ensures forall k :: k in KeysOf(l) ==> k < x.0
    ensures forall k :: k in KeysOf(r) ==> x.0 < k
  {
    var s := l + [x] + r;
    assert forall i :: 0 <= i < |l| ==> s[i] == l[i];
    assert forall i :: 0 <= i < |r| ==> s[|l| + 1 + i] == r[i];
    assert s[|l|] == x;
    forall k | k in KeysOf(l) ensures k < x.0 {
      var p :| p in l && p.0 == k;
      var i :| 0 <= i < |l| && l[i] == p;
      assert s[i] == p;
    }
    forall k | k in KeysOf(r) ensures x.0 < k {
      var p :| p in r && p.0 == k;
      var i :| 0 <= i < |r| && r[i] == p;
      assert s[|l| + 1 + i] == p;
    }
  }

  lemma SortedJoins<V>(l: seq<(int, V)>, x: (int, V), r: seq<(int, V)>)
    requires StrictlyIncreasing(l) && StrictlyIncreasing(r)
    requires forall k :: k in KeysOf(l) ==> k < x.0
    requires forall k :: k in KeysOf(r) ==> x.0 < k
    ensures StrictlyIncreasing(l + [x] + r)
  {
    var s := l + [x] + r;
    forall i, j | 0 <= i < j < |s| ensures s[i].0 < s[j].0 {
      if j < |l| {
        assert s[i] == l[i] && s[j] == l[j];
      } else if i < |l| {
        assert s[i] == l[i] && l[i] in l;
        assert s[i].0 in KeysOf(l);
        if j > |l| {
          assert s[j] == r[j - |l| - 1] && r[j - |l| - 1] in r;
          assert s[j].0 in KeysOf(r);
        }
      } else if i == |l| {
        assert s[j] == r[j - |l| - 1] && r[j - |l| - 1] in r;
        assert s[j].0 in KeysOf(r);
      } else {
        assert s[i] == r[i - |l| - 1] && s[j] == r[j - |l| - 1];
      }
    }
  }

  lemma UpdateCommutes<V>(m: map<int, V>, k: int, v: V, k': int, v': V)
    requires k != k'
    ensures m[k := v][k' := v'] == m[k' := v'][k := v]
  {
  }

  lemma UpdateBeforeUnion<V>(m: map<int, V>, m': map<int, V>, k: int, v: V)
    requires k !in m'
    ensures m[k := v] + m' == (m + m')[k := v]
  {
  }

  lemma UpdateAfterUnion<V>(m: map<int, V>, m': map<int, V>, k: int, v: V)
    ensures m + m'[k := v] == (m + m')[k := v]
  {
  }

  /**
   * A node's left walk `l` became `l'`, which binds `key` to `value` on top
   * of `l`; the key is below the node and absent on the right.
   */
  lemma MapOfGrowLeft<V>(l: seq<(int, V)>, l': seq<(int, V)>, k: int, v: V, r: seq<(int, V)>, key: int, value: V)
    requires key != k && key !in KeysOf(r)
    requires MapOf(l') == MapOf(l)[key := value]
    ensures MapOf(l' + [(k, v)] + r) == MapOf(l + [(k, v)] + r)[key := value]
  {
    MapOfNode(l, k, v, r);
    MapOfNode(l', k, v, r);
    MapOfKeys(r);
    UpdateCommutes(MapOf(l), key, value, k, v);
    UpdateBeforeUnion(MapOf(l)[k := v], MapOf(r), key, value);
  }

  /** A node's right walk `r` became `r'`, which binds `key` to `value` on top of `r`. */
  lemma MapOfGrowRight<V>(l: seq<(int, V)>, k: int, v: V, r: seq<(int, V)>, r': seq<(int, V)>, key: int, value: V)
    requires MapOf(r') == MapOf(r)[key := value]
    ensures MapOf(l + [(k, v)] + r') == MapOf(l + [(k, v)] + r)[key := value]
  {
    MapOfNode(l, k, v, r);
    MapOfNode(l, k, v, r');
    UpdateAfterUnion(MapOf(l)[k := v], MapOf(r), key, value);
  }

  /** A node's own value replaced; its key is absent on the right. */
  lemma MapOfReplace<V>(l: seq<(int, V)>, k: int, v: V, r: seq<(int, V)>, value: V)
    requires k !in KeysOf(r)
    ensures MapOf(l + [(k, value)] + r) == MapOf(l + [(k, v)] + r)[k := value]
  {
    MapOfNode(l, k, v, r);
    MapOfNode(l, k, value, r);
    MapOfKeys(r);
    assert MapOf(l)[k := v][k := value] == MapOf(l)[k := value];
    UpdateBeforeUnion(MapOf(l)[k := v], MapOf(r), k, value);
  }
}

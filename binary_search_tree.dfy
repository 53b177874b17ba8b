/** Unbalanced binary search tree: an ordered key/value map with overwrite on an
    equal key, lookup by descent, and deletion by successor replacement. */
module Bst {
  import opened Lib

  datatype Option<T> = None | Some(value: T)

  /** `Option<Box<Node<K, V>>>`: `Nil` is an absent link. Keys are integers,
      standing for any totally ordered key type. */
  datatype Tree<V> = Nil | Node(key: int, value: V, left: Tree<V>, right: Tree<V>)

  // ---------------------------------------------------------------------------
  // Abstract views of a tree

  /** Number of nodes. */
  function Size<V>(t: Tree<V>): nat {
    match t
    case Nil => 0
    case Node(_, _, l, r) => Size(l) + 1 + Size(r)
  }

  ghost function Keys<V>(t: Tree<V>): set<int> {
    match t
    case Nil => {}
    case Node(k, _, l, r) => Keys(l) + {k} + Keys(r)
  }

  /** The in-order sequence of (key, value) pairs. */
  ghost function Entries<V>(t: Tree<V>): (e: seq<(int, V)>)
    ensures |e| == Size(t)
  {
    match t
    case Nil => []
    case Node(k, v, l, r) => Entries(l) + [(k, v)] + Entries(r)
  }

  /** The key/value map the tree stands for. */
  ghost function Map<V>(t: Tree<V>): map<int, V> {
    match t
    case Nil => map[]
    case Node(k, v, l, r) => (Map(l) + Map(r))[k := v]
  }

  /** Search-tree order: smaller keys on the left, larger on the right. */
  ghost predicate Ordered<V>(t: Tree<V>) {
    match t
    case Nil => true
    case Node(k, _, l, r) =>
      && Ordered(l) && Ordered(r)
      && (forall x :: x in Keys(l) ==> x < k)
      && (forall x :: x in Keys(r) ==> k < x)
  }

  /** What a lookup of `key` in `m` answers. */
  ghost function Lookup<V>(m: map<int, V>, key: int): Option<V> {
    if key in m then Some(m[key]) else None
  }

  lemma {:induction false} MapKeys<V>(t: Tree<V>)
    ensures Map(t).Keys == Keys(t)
  {
    match t
    case Nil =>
    case Node(_, _, l, r) => MapKeys(l); MapKeys(r);
  }

  /** One step of a descent: compared with a node's key, `key` is found at the
      node, or is looked up in exactly one subtree. */
  lemma LookupStep<V>(t: Tree<V>, key: int)
    requires t.Node? && Ordered(t)
    ensures key == t.key ==> Lookup(Map(t), key) == Some(t.value)
    ensures key < t.key ==> Lookup(Map(t), key) == Lookup(Map(t.left), key)
    ensures key > t.key ==> Lookup(Map(t), key) == Lookup(Map(t.right), key)
  {
    MapKeys(t.left);
    MapKeys(t.right);
    if key < t.key {
      assert key !in Keys(t.right);
    } else if key > t.key {
      assert key !in Keys(t.left);
    }
  }

  /** A search tree holds one node per distinct key. */
  lemma {:induction false} SizeIsKeyCount<V>(t: Tree<V>)
    requires Ordered(t)
    ensures Size(t) == |Keys(t)|
  {
    match t
    case Nil =>
    case Node(k, _, l, r) =>
      SizeIsKeyCount(l);
      SizeIsKeyCount(r);
      assert Keys(l) !! Keys(r) by {
        forall x | x in Keys(l) ensures x !in Keys(r) {
          assert x < k;
        }
      }
      assert k !in Keys(l) && k !in Keys(r);
      assert Keys(t) == Keys(l) + {k} + Keys(r);
  }

  // ---------------------------------------------------------------------------
  // Insertion

  /** `insert`: descend by key; create a leaf at an absent link, or overwrite the
      value of an equal key and return with no structural change. */
  function InsertNode<V>(n: Tree<V>, key: int, value: V): (r: Tree<V>)
    ensures r.Node?
    ensures Keys(r) == Keys(n) + {key}
    ensures n.Nil? ==> r == Node(key, value, Nil, Nil)
    ensures n.Node? && key == n.key ==> r == n.(value := value)
    decreases n
  {
    if n.Nil? then
      Node(key, value, Nil, Nil)
    else if key < n.key then
      n.(left := InsertNode(n.left, key, value))
    else if key > n.key then
      n.(right := InsertNode(n.right, key, value))
    else
      n.(value := value)
  }

  /** Insertion into a search tree keeps search order and maps `key` to
      `value`, every other key as before. */
  lemma {:induction false} InsertNodeMap<V>(n: Tree<V>, key: int, value: V)
    requires Ordered(n)
    ensures Ordered(InsertNode(n, key, value)) && Map(InsertNode(n, key, value)) == Map(n)[key := value]
    decreases n
  {
    if n.Node? {
      if key < n.key {
        InsertNodeMap(n.left, key, value);
        LeftReplaced(n, InsertNode(n.left, key, value), key, value);
      } else if key > n.key {
        InsertNodeMap(n.right, key, value);
        RightReplaced(n, InsertNode(n.right, key, value), key, value);
      }
    }
  }

  /** Putting back a left subtree that gained `k` and maps it to `v`. */
  lemma LeftReplaced<V>(n: Tree<V>, l: Tree<V>, k: int, v: V)
    requires n.Node? && Ordered(n) && k < n.key
    requires Ordered(l) && Keys(l) == Keys(n.left) + {k} && Map(l) == Map(n.left)[k := v]
    ensures Ordered(n.(left := l)) && Map(n.(left := l)) == Map(n)[k := v]
  {
    forall x | x in Keys(l) ensures x < n.key {
      if x != k {
        assert x in Keys(n.left);
      }
    }
    MapKeys(n.right);
    assert k !in Map(n.right);
    UpdatedLeft(Map(n.left), Map(n.right), n.key, n.value, k, v);
  }

  /** Putting back a right subtree that gained `k` and maps it to `v`. */
  lemma RightReplaced<V>(n: Tree<V>, r: Tree<V>, k: int, v: V)
    requires n.Node? && Ordered(n) && k > n.key
    requires Ordered(r) && Keys(r) == Keys(n.right) + {k} && Map(r) == Map(n.right)[k := v]
    ensures Ordered(n.(right := r)) && Map(n.(right := r)) == Map(n)[k := v]
  {
    forall x | x in Keys(r) ensures n.key < x {
      if x != k {
        assert x in Keys(n.right);
      }
    }
    UpdatedRight(Map(n.left), Map(n.right), n.key, n.value, k, v);
  }

  lemma UpdatedLeft<V>(ml: map<int, V>, mr: map<int, V>, nk: int, nv: V, k: int, v: V)
    requires k != nk && k !in mr
    ensures (ml[k := v] + mr)[nk := nv] == (ml + mr)[nk := nv][k := v]
  {
  }

  lemma UpdatedRight<V>(ml: map<int, V>, mr: map<int, V>, nk: int, nv: V, k: int, v: V)
    requires k != nk
    ensures (ml + mr[k := v])[nk := nv] == (ml + mr)[nk := nv][k := v]
  {
  }

  /** Inserting an absent key adds one node; inserting a present one adds none. */
  lemma InsertCount<V>(t: Tree<V>, key: int, value: V)
    requires Ordered(t)
    ensures Size(InsertNode(t, key, value)) == Size(t) + (if key in Keys(t) then 0 else 1)
  {
    InsertNodeMap(t, key, value);
    SizeIsKeyCount(t);
    SizeIsKeyCount(InsertNode(t, key, value));
  }

  // ---------------------------------------------------------------------------
  // Deletion

  /** `delete_min`: the rest of the tree and the node holding the smallest key,
      detached with no children; on an empty tree both are absent. The
      detached node is the first one in order, so the rest keeps every other
      entry in its order. */
  function DeleteMin<V>(n: Tree<V>): (r: (Tree<V>, Tree<V>))
    ensures n.Nil? ==> r.0.Nil? && r.1.Nil?
    ensures n.Node? ==> r.1.Node? && r.1.left.Nil? && r.1.right.Nil?
    ensures n.Node? ==> Entries(n) == [(r.1.key, r.1.value)] + Entries(r.0)
    ensures n.Node? ==> Keys(n) == Keys(r.0) + {r.1.key}
    decreases n
  {
    if n.Nil? then
      (Nil, Nil)
    else if n.left.Nil? then
      (n.right, Node(n.key, n.value, Nil, Nil))
    else
      var (newLeft, deleted) := DeleteMin(n.left);
      (n.(left := newLeft), deleted)
  }

  /** In a search tree the detached key is the smallest, what is left is a
      search tree without it, and its map loses exactly that key. */
  lemma {:induction false} DeleteMinKeeps<V>(n: Tree<V>)
    requires n.Node? && Ordered(n)
    ensures var (rest, m) := DeleteMin(n);
      && (forall x :: x in Keys(n) ==> m.key <= x)
      && Ordered(rest) && Keys(rest) == Keys(n) - {m.key}
      && m.key in Map(n) && Map(n)[m.key] == m.value && Map(rest) == Map(n) - {m.key}
    decreases n
  {
    MapKeys(n.left);
    MapKeys(n.right);
    if n.left.Nil? {
      assert n.key !in Keys(n.right);
    } else {
      DeleteMinKeeps(n.left);
      var (newLeft, m) := DeleteMin(n.left);
      MinRemovedFromLeft(n, newLeft, m);
    }
  }

  /** Putting back a left subtree from which its smallest node `m` was
      detached. */
  lemma MinRemovedFromLeft<V>(n: Tree<V>, l: Tree<V>, m: Tree<V>)
    requires n.Node? && n.left.Node? && Ordered(n) && m.Node?
    requires forall x :: x in Keys(n.left) ==> m.key <= x
    requires Ordered(l) && Keys(l) == Keys(n.left) - {m.key}
    requires m.key in Map(n.left) && Map(n.left)[m.key] == m.value && Map(l) == Map(n.left) - {m.key}
    ensures forall x :: x in Keys(n) ==> m.key <= x
    ensures Ordered(n.(left := l)) && Keys(n.(left := l)) == Keys(n) - {m.key}
    ensures m.key in Map(n) && Map(n)[m.key] == m.value && Map(n.(left := l)) == Map(n) - {m.key}
  {
    MapKeys(n.left);
    MapKeys(n.right);
    assert m.key in Keys(n.left) && m.key < n.key;
    assert m.key !in Keys(n.right) && m.key !in Map(n.right);
    forall x | x in Keys(n) ensures m.key <= x {
      if x in Keys(n.right) {
        assert n.key < x;
      }
    }
    RemovedFromLeft(Map(n.left), Map(n.right), n.key, n.value, m.key);
  }

  /** `delete`: remove the node with `key` if there is one; a node with two
      children is replaced by the smallest node of its right subtree. */
  function DeleteNode<V>(n: Tree<V>, key: int): (r: Tree<V>)
    ensures Keys(r) <= Keys(n) && Size(r) <= Size(n)
    decreases n
  {
    if n.Nil? then
      Nil
    else if key < n.key then
      n.(left := DeleteNode(n.left, key))
    else if key > n.key then
      n.(right := DeleteNode(n.right, key))
    else if n.left.Nil? then
      n.right
    else if n.right.Nil? then
      n.left
    else
      var (rest, m) := DeleteMin(n.right);
      Node(m.key, m.value, n.left, rest)
  }

  /** Deletion from a search tree keeps search order and removes exactly
      `key` from the keys and from the map. */
  lemma {:induction false} DeleteNodeKeeps<V>(n: Tree<V>, key: int)
    requires Ordered(n)
    ensures Ordered(DeleteNode(n, key))
    ensures Keys(DeleteNode(n, key)) == Keys(n) - {key}
    ensures Map(DeleteNode(n, key)) == Map(n) - {key}
    decreases n
  {
    if n.Nil? {
    } else if key < n.key {
      DeleteNodeKeeps(n.left, key);
      LeftDeleted(n, DeleteNode(n.left, key), key);
    } else if key > n.key {
      DeleteNodeKeeps(n.right, key);
      RightDeleted(n, DeleteNode(n.right, key), key);
    } else if n.left.Nil? || n.right.Nil? {
      MapKeys(n.left);
      MapKeys(n.right);
      assert key !in Keys(n.left) && key !in Keys(n.right);
    } else {
      SuccessorReplaces(n);
    }
  }

  /** Putting back a left subtree that lost `k`. */
  lemma LeftDeleted<V>(n: Tree<V>, l: Tree<V>, k: int)
    requires n.Node? && Ordered(n) && k < n.key
    requires Ordered(l) && Keys(l) == Keys(n.left) - {k} && Map(l) == Map(n.left) - {k}
    ensures Ordered(n.(left := l)) && Keys(n.(left := l)) == Keys(n) - {k}
    ensures Map(n.(left := l)) == Map(n) - {k}
  {
    MapKeys(n.right);
    assert k !in Keys(n.right) && k !in Map(n.right);
    RemovedFromLeft(Map(n.left), Map(n.right), n.key, n.value, k);
  }

  /** Putting back a right subtree that lost `k`. */
  lemma RightDeleted<V>(n: Tree<V>, r: Tree<V>, k: int)
    requires n.Node? && Ordered(n) && k > n.key
    requires Ordered(r) && Keys(r) == Keys(n.right) - {k} && Map(r) == Map(n.right) - {k}
    ensures Ordered(n.(right := r)) && Keys(n.(right := r)) == Keys(n) - {k}
    ensures Map(n.(right := r)) == Map(n) - {k}
  {
    MapKeys(n.left);
    assert k !in Keys(n.left) && k !in Map(n.left);
    RemovedFromRight(Map(n.left), Map(n.right), n.key, n.value, k);
  }

  /** A node with two children, replaced by the detached minimum of its right
      subtree over the remaining right nodes, loses exactly its own key. */
  lemma SuccessorReplaces<V>(n: Tree<V>)
    requires n.Node? && n.left.Node? && n.right.Node? && Ordered(n)
    ensures var (rest, m) := DeleteMin(n.right);
      var r := Node(m.key, m.value, n.left, rest);
      Ordered(r) && Map(r) == Map(n) - {n.key} && Keys(r) == Keys(n) - {n.key}
  {
    DeleteMinKeeps(n.right);
    var d := DeleteMin(n.right);
    var rest, m := d.0, d.1;
    var l, k := n.left, n.key;
    assert m.key in Keys(n.right);
    assert k < m.key;
    forall x | x in Keys(l) ensures x < m.key {
      assert x < k;
    }
    forall x | x in Keys(rest) ensures m.key < x {
      assert x in Keys(n.right) && x != m.key;
    }
    assert Ordered(Node(m.key, m.value, l, rest));
    assert Keys(Node(m.key, m.value, l, rest)) == Keys(n) - {k} by {
      assert k !in Keys(l) && k !in Keys(n.right);
    }
    MapKeys(l);
    MapKeys(n.right);
    assert k !in Map(l) && k !in Map(n.right) && m.key !in Map(l);
    Successor(Map(l), Map(n.right), k, n.value, m.key, m.value);
  }

  /** Deleting a present key removes one node. */
  lemma DeleteCount<V>(t: Tree<V>, key: int)
    requires Ordered(t)
    ensures Size(DeleteNode(t, key)) == Size(t) - (if key in Keys(t) then 1 else 0)
  {
    DeleteNodeKeeps(t, key);
    SizeIsKeyCount(t);
    SizeIsKeyCount(DeleteNode(t, key));
  }

  /** Deleting an absent key rebuilds the very same tree: the descent never
      meets the key. */
  lemma {:induction false} DeleteAbsent<V>(t: Tree<V>, key: int)
    requires key !in Keys(t)
    ensures DeleteNode(t, key) == t
  {
    match t
    case Nil =>
    case Node(k, _, l, r) =>
      if key < k {
        DeleteAbsent(l, key);
      } else {
        DeleteAbsent(r, key);
      }
  }

  /** Removing a key held in the left subtree removes it from the node's map. */
  lemma RemovedFromLeft<V>(ml: map<int, V>, mr: map<int, V>, nk: int, nv: V, k: int)
    requires k != nk && k !in mr
    ensures ((ml - {k}) + mr)[nk := nv] == (ml + mr)[nk := nv] - {k}
  {
  }

  /** Removing a key held in the right subtree removes it from the node's map. */
  lemma RemovedFromRight<V>(ml: map<int, V>, mr: map<int, V>, nk: int, nv: V, k: int)
    requires k != nk && k !in ml
    ensures (ml + (mr - {k}))[nk := nv] == (ml + mr)[nk := nv] - {k}
  {
  }

  /** Replacing a root by the minimum `mk` of its right subtree removes the root
      key from the map and keeps everything else. */
  lemma Successor<V>(ml: map<int, V>, mr: map<int, V>, nk: int, nv: V, mk: int, mv: V)
    requires mk in mr && mr[mk] == mv && nk !in ml && nk !in mr && mk !in ml
    ensures (ml + (mr - {mk}))[mk := mv] == (ml + mr)[nk := nv] - {nk}
  {
  }

  // ---------------------------------------------------------------------------
  // In-order export

  /** `iter_sort`: appends the values of `n` in order to the vector `q`. */
  function IterSort<V>(n: Tree<V>, q: seq<V>): (r: seq<V>)
    ensures |r| == |q| + Size(n)
    ensures r[..|q|] == q
    ensures forall i :: 0 <= i < Size(n) ==> r[|q| + i] == Entries(n)[i].1
    decreases n
  {
    match n
    case Nil => q
    case Node(_, v, l, rt) =>
      var q1 := IterSort(l, q);
      var q2 := q1 + [v];
      var q3 := IterSort(rt, q2);
      assert forall i :: 0 <= i < Size(n) ==> q3[|q| + i] == Entries(n)[i].1 by {
        forall i | 0 <= i < Size(n) ensures q3[|q| + i] == Entries(n)[i].1 {
          assert q3[..|q2|] == q2;
          if i < Size(l) {
            assert q3[|q| + i] == q2[|q| + i] == q1[|q| + i];
            assert Entries(n)[i] == Entries(l)[i];
          } else if i == Size(l) {
            assert q3[|q| + i] == q2[|q1|];
          } else {
            assert Entries(n)[i] == Entries(rt)[i - Size(l) - 1];
            assert q3[|q| + i] == q3[|q2| + (i - Size(l) - 1)];
          }
        }
      }
      assert q3[..|q|] == q by {
        assert q3[..|q2|] == q2;
        assert q2[..|q|] == q1[..|q|];
      }
      q3
  }

  /** Some in-order entry of `e` has key `x`. */
  ghost predicate Listed<V>(e: seq<(int, V)>, x: int) {
    exists i :: 0 <= i < |e| && e[i].0 == x
  }

  /** The keys met in order are exactly the tree's keys. */
  lemma EntriesKeys<V>(t: Tree<V>)
    ensures forall i :: 0 <= i < |Entries(t)| ==> Entries(t)[i].0 in Keys(t)
    ensures forall x :: x in Keys(t) ==> Listed(Entries(t), x)
  {
    EntriesInKeys(t);
    KeysInEntries(t);
  }

  lemma {:induction false} EntriesInKeys<V>(t: Tree<V>)
    ensures forall i :: 0 <= i < |Entries(t)| ==> Entries(t)[i].0 in Keys(t)
  {
    match t
    case Nil =>
    case Node(k, v, l, r) =>
      EntriesInKeys(l);
      EntriesInKeys(r);
      var e, el, er := Entries(t), Entries(l), Entries(r);
      forall i | 0 <= i < |e| ensures e[i].0 in Keys(t) {
        if i < |el| {
          assert e[i] == el[i];
        } else if i > |el| {
          assert e[i] == er[i - |el| - 1];
        }
      }
  }

  lemma {:induction false} KeysInEntries<V>(t: Tree<V>)
    ensures forall x :: x in Keys(t) ==> Listed(Entries(t), x)
  {
    match t
    case Nil =>
    case Node(k, v, l, r) =>
      KeysInEntries(l);
      KeysInEntries(r);
      var e, el, er := Entries(t), Entries(l), Entries(r);
      forall x | x in Keys(t) ensures Listed(e, x) {
        if x in Keys(l) {
          var i :| 0 <= i < |el| && el[i].0 == x;
          assert e[i] == el[i];
        } else if x in Keys(r) {
          var i :| 0 <= i < |er| && er[i].0 == x;
          assert e[|el| + 1 + i] == er[i];
        } else {
          assert e[|el|].0 == x;
        }
      }
  }

  /** In a search tree the in-order keys strictly increase. */
  lemma {:induction false} EntriesIncreasing<V>(t: Tree<V>)
    requires Ordered(t)
    ensures forall i, j :: 0 <= i < j < |Entries(t)| ==> Entries(t)[i].0 < Entries(t)[j].0
  {
    match t
    case Nil =>
    case Node(k, v, l, r) =>
      EntriesIncreasing(l);
      EntriesIncreasing(r);
      EntriesKeys(l);
      EntriesKeys(r);
      var e, el, er := Entries(t), Entries(l), Entries(r);
      assert e == el + [(k, v)] + er;
      forall i, j | 0 <= i < j < |e| ensures e[i].0 < e[j].0 {
        if j < |el| {
          assert e[i] == el[i] && e[j] == el[j];
        } else if i > |el| {
          assert e[i] == er[i - |el| - 1] && e[j] == er[j - |el| - 1];
        } else {
          assert i < |el| ==> e[i] == el[i];
          assert j > |el| ==> e[j] == er[j - |el| - 1];
        }
      }
  }

  /** In a search tree every in-order entry is what the tree maps its key to. */
  lemma {:induction false} EntriesMapped<V>(t: Tree<V>)
    requires Ordered(t)
    ensures forall i :: 0 <= i < |Entries(t)| ==> Entries(t)[i].0 in Map(t) && Map(t)[Entries(t)[i].0] == Entries(t)[i].1
  {
    match t
    case Nil =>
    case Node(k, v, l, r) =>
      EntriesMapped(l);
      EntriesMapped(r);
      EntriesKeys(l);
      EntriesKeys(r);
      MapKeys(l);
      MapKeys(r);
      var e, el, er := Entries(t), Entries(l), Entries(r);
      assert e == el + [(k, v)] + er;
      forall i | 0 <= i < |e| ensures e[i].0 in Map(t) && Map(t)[e[i].0] == e[i].1 {
        if i < |el| {
          assert e[i] == el[i];
          assert e[i].0 in Keys(l);
          assert e[i].0 < k;
          assert e[i].0 !in Keys(r);
          assert e[i].0 !in Map(r) && e[i].0 != k;
        } else if i > |el| {
          assert e[i] == er[i - |el| - 1];
          assert e[i].0 in Keys(r);
          assert e[i].0 != k;
        }
      }
  }

  /** `m` stores every key as its own value, as in the sort and delete tests. */
  ghost predicate MapsKeysToThemselves(m: map<int, int>) {
    forall k :: k in m ==> m[k] == k
  }

  /** With every value equal to its key, the export of a search tree is the
      tree's key set listed in strictly increasing order. */
  lemma ExportIsSortedKeySet(t: Tree<int>)
    requires Ordered(t) && MapsKeysToThemselves(Map(t))
    ensures Sorted(IterSort(t, []))
    ensures forall i, j :: 0 <= i < j < |IterSort(t, [])| ==> IterSort(t, [])[i] < IterSort(t, [])[j]
    ensures forall k :: k in Keys(t) <==> k in IterSort(t, [])
  {
    var r := IterSort(t, []);
    EntriesIncreasing(t);
    EntriesMapped(t);
    EntriesKeys(t);
    assert forall i :: 0 <= i < |r| ==> r[i] == Entries(t)[i].0 by {
      forall i | 0 <= i < |r| ensures r[i] == Entries(t)[i].0 {
        assert r[0 + i] == Entries(t)[i].1;
      }
    }
    forall x | x in Keys(t) ensures x in r {
      var i :| 0 <= i < |Entries(t)| && Entries(t)[i].0 == x;
      assert r[i] == x;
    }
  }

  // ---------------------------------------------------------------------------
  // The container

  /** `BinarySearchTree`: owns the optional root. */
  class BinarySearchTree<V> {
    var root: Tree<V>

    ghost predicate Valid()
      reads this
    {
      Ordered(root)
    }

    /** The key/value map the tree holds. */
    ghost function Contents(): map<int, V>
      reads this
    {
      Map(root)
    }

    constructor ()
      ensures Valid() && root == Nil && Contents() == map[]
    {
      root := Nil;
    }

    method Insert(key: int, value: V)
      requires Valid()
      modifies this
      ensures Valid()
      ensures root == InsertNode(old(root), key, value)
      ensures Contents() == old(Contents())[key := value]
      ensures Size(root) == old(Size(root)) + (if key in old(Contents()) then 0 else 1)
    {
      InsertNodeMap(root, key, value);
      InsertCount(root, key, value);
      MapKeys(root);
      root := InsertNode(root, key, value);
    }

    /** `get`: a cursor walks down from the root, left on a smaller key and right
        on a larger one, until it meets the key or an absent link. */
    method Get(key: int) returns (r: Option<V>)
      requires Valid()
      ensures r == Lookup(Contents(), key)
    {
      var node := root;
      while node.Node?
        invariant Ordered(node)
        invariant Lookup(Map(node), key) == Lookup(Map(root), key)
        decreases node
      {
        LookupStep(node, key);
        if key == node.key {
          return Some(node.value);
        } else if key < node.key {
          node := node.left;
        } else {
          node := node.right;
        }
      }
      return None;
    }

    method Delete(key: int)
      requires Valid()
      modifies this
      ensures Valid()
      ensures root == DeleteNode(old(root), key)
      ensures Contents() == old(Contents()) - {key}
      ensures Size(root) == old(Size(root)) - (if key in old(Contents()) then 1 else 0)
    {
      DeleteNodeKeeps(root, key);
      DeleteCount(root, key);
      MapKeys(root);
      root := DeleteNode(root, key);
    }

    /** `to_vec`: the values in ascending key order, one per stored key. */
    function ToVec(): (r: seq<V>)
      reads this
      ensures |r| == Size(root)
      ensures forall i :: 0 <= i < |r| ==> r[i] == Entries(root)[i].1
    {
      var r := IterSort(root, []);
      assert forall i :: 0 <= i < |r| ==> r[0 + i] == r[i];
      r
    }
  }

  /** A lookup after an insertion sees the new value at its key and the old
      answer everywhere else. */
  method InsertThenGet<V>(t: BinarySearchTree<V>, k: int, v: V, other: int) returns (here: Option<V>, there: Option<V>)
    requires t.Valid() && other != k
    modifies t
    ensures here == Some(v)
    ensures there == Lookup(old(t.Contents()), other)
  {
    t.Insert(k, v);
    here := t.Get(k);
    there := t.Get(other);
  }

  /** The keys `list[j]` at the positions counting down from the last one in
      steps of two, taken from position `lo` on. */
  ghost function EverySecondFromEnd(list: seq<int>, lo: int): set<int> {
    set j | 0 <= j < |list| && lo <= j && (|list| - 1 - j) % 2 == 0 :: list[j]
  }

  lemma EverySecondStep(list: seq<int>, i: int)
    requires 0 <= i < |list| && (|list| - 1 - i) % 2 == 0
    ensures EverySecondFromEnd(list, i - 1) == EverySecondFromEnd(list, i + 1) + {list[i]}
  {
    assert (|list| - 1 - (i - 1)) % 2 == 1;
  }

  lemma EverySecondBelowZero(list: seq<int>, lo: int)
    requires lo <= 0
    ensures EverySecondFromEnd(list, lo) == EverySecondFromEnd(list, 0)
  {
  }

  /** After the first `i` insertions the tree stores every key among
      `list[..i]` under itself, and nothing else. */
  ghost predicate Inserted(m: map<int, int>, list: seq<int>, i: int)
    requires 0 <= i <= |list|
  {
    MapsKeysToThemselves(m) && forall x :: x in m <==> x in list[..i]
  }

  lemma InsertedNext(m: map<int, int>, list: seq<int>, i: int)
    requires 0 <= i < |list| && Inserted(m, list, i)
    ensures Inserted(m[list[i] := list[i]], list, i + 1)
  {
    assert list[..i + 1] == list[..i] + [list[i]];
  }

  /** While deleting downwards from position `i + 2`, the tree stores under
      itself every element of `list` not yet deleted, and nothing else. */
  ghost predicate Remaining(m: map<int, int>, list: seq<int>, i: int) {
    MapsKeysToThemselves(m) && forall x :: x in m <==> x in list && x !in EverySecondFromEnd(list, i + 1)
  }

  lemma RemainingNext(m: map<int, int>, list: seq<int>, i: int)
    requires 0 <= i < |list| && (|list| - 1 - i) % 2 == 0 && Remaining(m, list, i)
    ensures Remaining(m - {list[i]}, list, i - 2)
  {
    EverySecondStep(list, i);
  }

  /** Insert every element of `list` under itself, then delete the elements at
      every second position counting down from the last, and export: the
      result lists, strictly increasing, exactly the distinct elements that
      were not deleted. */
  method InsertDeleteExport(list: seq<int>) returns (out: seq<int>)
    ensures forall i, j :: 0 <= i < j < |out| ==> out[i] < out[j]
    ensures forall x :: x in out <==> x in list && x !in EverySecondFromEnd(list, 0)
  {
    var t := new BinarySearchTree<int>();
    for i := 0 to |list|
      invariant t.Valid() && Inserted(t.Contents(), list, i)
    {
      InsertedNext(t.Contents(), list, i);
      t.Insert(list[i], list[i]);
    }
    assert list[..|list|] == list;
    var i := |list| - 1;
    while i >= 0
      invariant -2 <= i < |list| && (|list| - 1 - i) % 2 == 0
      invariant t.Valid() && Remaining(t.Contents(), list, i)
      decreases i + 2
    {
      RemainingNext(t.Contents(), list, i);
      t.Delete(list[i]);
      i := i - 2;
    }
    EverySecondBelowZero(list, i + 1);
    out := t.ToVec();
    MapKeys(t.root);
    ExportIsSortedKeySet(t.root);
  }
}

/** Left-leaning red-black tree: an ordered key/value container kept balanced by
    rotations and colour flips applied on the way back up from every insertion.

    A node's colour tags the link from its parent down to it. The tree's root is
    never recoloured black, so every balance invariant here constrains the links
    below the root and leaves the root's own colour free. */
module Llrb {
  import opened Lib

  datatype Color = Red | Black

  /** `Option<Box<Node<K, V>>>`: `Nil` is an absent link. Keys are integers,
      standing for any totally ordered key type. */
  datatype Tree<V> = Nil | Node(key: int, value: V, left: Tree<V>, right: Tree<V>, color: Color)

  // ---------------------------------------------------------------------------
  // Abstract views of a tree

  /** Number of nodes. */
  function Size<V>(t: Tree<V>): nat {
    match t
    case Nil => 0
    case Node(_, _, l, r, _) => Size(l) + 1 + Size(r)
  }

  ghost function Keys<V>(t: Tree<V>): set<int> {
    match t
    case Nil => {}
    case Node(k, _, l, r, _) => Keys(l) + {k} + Keys(r)
  }

  /** The in-order sequence of (key, value) pairs. */
  ghost function Entries<V>(t: Tree<V>): (e: seq<(int, V)>)
    ensures |e| == Size(t)
  {
    match t
    case Nil => []
    case Node(k, v, l, r, _) => Entries(l) + [(k, v)] + Entries(r)
  }

  /** The key/value map the tree stands for. */
  ghost function Map<V>(t: Tree<V>): map<int, V> {
    match t
    case Nil => map[]
    case Node(k, v, l, r, _) => (Map(l) + Map(r))[k := v]
  }

  /** Binary-search-tree order: smaller keys on the left, larger on the right. */
  ghost predicate Bst<V>(t: Tree<V>) {
    match t
    case Nil => true
    case Node(k, _, l, r, _) =>
      && Bst(l) && Bst(r)
      && (forall x :: x in Keys(l) ==> x < k)
      && (forall x :: x in Keys(r) ==> k < x)
  }

  lemma {:induction false} MapKeys<V>(t: Tree<V>)
    ensures Map(t).Keys == Keys(t)
  {
    match t
    case Nil =>
    case Node(_, _, l, r, _) => MapKeys(l); MapKeys(r);
  }

  /** The maps of the two arrangements a rotation switches between agree when
      the two keys are distinct and neither occurs on the far side. */
  lemma RotatedMaps<V>(ma: map<int, V>, mb: map<int, V>, mc: map<int, V>, k1: int, v1: V, k2: int, v2: V)
    requires k1 != k2 && k1 !in mc && k2 !in ma
    ensures ((ma + mb)[k1 := v1] + mc)[k2 := v2] == (ma + (mb + mc)[k2 := v2])[k1 := v1]
  {
  }

  /** Two trees with the same nodes in the same places, colours aside. */
  ghost predicate SameUpToColor<V>(a: Tree<V>, b: Tree<V>) {
    match a
    case Nil => b.Nil?
    case Node(k, v, l, r, _) =>
      b.Node? && b.key == k && b.value == v && SameUpToColor(l, b.left) && SameUpToColor(r, b.right)
  }

  // ---------------------------------------------------------------------------
  // Balance invariants

  /** A node of colour `c` adds one black link to every path through it. */
  function BlackCount(c: Color): nat {
    if c == Black then 1 else 0
  }

  /** Black links from the link into `t` (counted by `t`'s colour) down the left
      spine to an absent link. */
  ghost function BlackHeight<V>(t: Tree<V>): nat {
    match t
    case Nil => 0
    case Node(_, _, l, _, c) => BlackCount(c) + BlackHeight(l)
  }

  /** Every path from the root down to an absent link crosses the same number of
      black links; the root's own colour does not enter. */
  ghost predicate Balanced<V>(t: Tree<V>) {
    match t
    case Nil => true
    case Node(_, _, l, r, _) => Balanced(l) && Balanced(r) && BlackHeight(l) == BlackHeight(r)
  }

  /** Invariant 2: no red right link anywhere. */
  ghost predicate NoRedRight<V>(t: Tree<V>) {
    match t
    case Nil => true
    case Node(_, _, l, r, _) => !IsRed(r) && NoRedRight(l) && NoRedRight(r)
  }

  /** A red link into `t` is not followed by another red link. */
  ghost predicate NoRedBelowRed<V>(t: Tree<V>) {
    IsRed(t) ==> !IsRed(t.left) && !IsRed(t.right)
  }

  /** Invariant 3: no two red links in a row below the root. */
  ghost predicate NoTwoReds<V>(t: Tree<V>) {
    match t
    case Nil => true
    case Node(_, _, l, r, _) => NoRedBelowRed(l) && NoRedBelowRed(r) && NoTwoReds(l) && NoTwoReds(r)
  }

  /** The three balance invariants, with the root's own colour left free. */
  ghost predicate LlrbShape<V>(t: Tree<V>) {
    NoRedRight(t) && NoTwoReds(t) && Balanced(t)
  }

  // ---------------------------------------------------------------------------
  // Link predicate, rotations and colour flip

  /** `is_red`: an absent link is black. */
  function IsRed<V>(n: Tree<V>): (b: bool)
    ensures b <==> n.Node? && n.color == Red
  {
    match n
    case Nil => false
    case Node(_, _, _, _, c) => c == Red
  }

  /** `rotate_left`: the red right child is promoted, takes over the old root's
      colour, and the old root, now red, adopts the child's former left subtree.
      The `assert!` on a red right link becomes the precondition. */
  function RotateLeft<V>(n: Tree<V>): (r: Tree<V>)
    requires n.Node? && IsRed(n.right)
    ensures Entries(r) == Entries(n)
    ensures r.color == n.color && r.left.Node? && r.left.color == Red
  {
    var p := n.right;
    Node(p.key, p.value, Node(n.key, n.value, n.left, p.left, Red), p.right, n.color)
  }

  /** A left rotation keeps the keys, the node count, search order and the map. */
  lemma RotateLeftKeeps<V>(n: Tree<V>)
    requires n.Node? && IsRed(n.right)
    ensures Keys(RotateLeft(n)) == Keys(n) && Size(RotateLeft(n)) == Size(n)
    ensures Bst(n) ==> Bst(RotateLeft(n)) && Map(RotateLeft(n)) == Map(n)
  {
    var p, r := n.right, RotateLeft(n);
    assert Keys(r.left) == Keys(n.left) + {n.key} + Keys(p.left);
    assert Keys(p) == Keys(p.left) + {p.key} + Keys(p.right);
    if Bst(n) {
      RotateLeftBst(n);
      assert n.key != p.key && n.key !in Keys(p.right) && p.key !in Keys(n.left);
      RotateLeftMap(n);
    }
  }

  lemma RotateLeftBst<V>(n: Tree<V>)
    requires n.Node? && IsRed(n.right) && Bst(n)
    ensures Bst(RotateLeft(n))
  {
    var p, r := n.right, RotateLeft(n);
    assert Bst(p) && Keys(p) == Keys(p.left) + {p.key} + Keys(p.right);
    assert n.key < p.key;
    forall x | x in Keys(p.left) ensures n.key < x {
      assert x in Keys(p);
    }
    assert Bst(r.left);
    assert Keys(r.left) == Keys(n.left) + {n.key} + Keys(p.left);
    forall x | x in Keys(r.left) ensures x < p.key {
      if x in Keys(n.left) {
        assert x < n.key;
      }
    }
  }

  lemma RotateLeftMap<V>(n: Tree<V>)
    requires n.Node? && IsRed(n.right)
    requires n.key != n.right.key && n.key !in Keys(n.right.right) && n.right.key !in Keys(n.left)
    ensures Map(RotateLeft(n)) == Map(n)
  {
    var p, r := n.right, RotateLeft(n);
    MapKeys(n.left); MapKeys(p.right);
    assert Map(r.left) == (Map(n.left) + Map(p.left))[n.key := n.value];
    assert Map(r) == (Map(r.left) + Map(p.right))[p.key := p.value];
    assert Map(p) == (Map(p.left) + Map(p.right))[p.key := p.value];
    RotatedMaps(Map(n.left), Map(p.left), Map(p.right), n.key, n.value, p.key, p.value);
  }

  /** `rotate_right`: the mirror image of `RotateLeft`, demanding a red left link. */
  function RotateRight<V>(n: Tree<V>): (r: Tree<V>)
    requires n.Node? && IsRed(n.left)
    ensures Entries(r) == Entries(n)
    ensures r.color == n.color && r.right.Node? && r.right.color == Red
  {
    var p := n.left;
    Node(p.key, p.value, p.left, Node(n.key, n.value, p.right, n.right, Red), n.color)
  }

  /** A right rotation keeps the keys, the node count, search order and the map. */
  lemma RotateRightKeeps<V>(n: Tree<V>)
    requires n.Node? && IsRed(n.left)
    ensures Keys(RotateRight(n)) == Keys(n) && Size(RotateRight(n)) == Size(n)
    ensures Bst(n) ==> Bst(RotateRight(n)) && Map(RotateRight(n)) == Map(n)
  {
    var p, r := n.left, RotateRight(n);
    assert Keys(r.right) == Keys(p.right) + {n.key} + Keys(n.right);
    assert Keys(p) == Keys(p.left) + {p.key} + Keys(p.right);
    if Bst(n) {
      RotateRightBst(n);
      assert n.key != p.key && n.key !in Keys(p.left) && p.key !in Keys(n.right);
      RotateRightMap(n);
    }
  }

  lemma RotateRightBst<V>(n: Tree<V>)
    requires n.Node? && IsRed(n.left) && Bst(n)
    ensures Bst(RotateRight(n))
  {
    var p, r := n.left, RotateRight(n);
    assert Bst(p) && Keys(p) == Keys(p.left) + {p.key} + Keys(p.right);
    assert p.key < n.key;
    forall x | x in Keys(p.right) ensures x < n.key {
      assert x in Keys(p);
    }
    assert Bst(r.right);
    assert Keys(r.right) == Keys(p.right) + {n.key} + Keys(n.right);
    forall x | x in Keys(r.right) ensures p.key < x {
      if x in Keys(n.right) {
        assert n.key < x;
      }
    }
  }

  lemma RotateRightMap<V>(n: Tree<V>)
    requires n.Node? && IsRed(n.left)
    requires n.key != n.left.key && n.key !in Keys(n.left.left) && n.left.key !in Keys(n.right)
    ensures Map(RotateRight(n)) == Map(n)
  {
    var p, r := n.left, RotateRight(n);
    MapKeys(n.right); MapKeys(p.left);
    assert Map(r.right) == (Map(p.right) + Map(n.right))[n.key := n.value];
    assert Map(r) == (Map(p.left) + Map(r.right))[p.key := p.value];
    assert Map(p) == (Map(p.left) + Map(p.right))[p.key := p.value];
    RotatedMaps(Map(p.left), Map(p.right), Map(n.right), p.key, p.value, n.key, n.value);
  }

  /** A left rotation of a node with a red right link is undone by a right rotation. */
  lemma RotateRightUndoesLeft<V>(n: Tree<V>)
    requires n.Node? && IsRed(n.right)
    ensures RotateRight(RotateLeft(n)) == n
  {
  }

  /** A right rotation of a node with a red left link is undone by a left rotation. */
  lemma RotateLeftUndoesRight<V>(n: Tree<V>)
    requires n.Node? && IsRed(n.left)
    ensures RotateLeft(RotateRight(n)) == n
  {
  }

  /** Paints a present node; an absent link stays absent. */
  function Paint<V>(t: Tree<V>, c: Color): (r: Tree<V>)
    ensures Keys(r) == Keys(t) && Entries(r) == Entries(t) && Map(r) == Map(t) && Bst(r) == Bst(t)
  {
    if t.Nil? then Nil else t.(color := c)
  }

  /** `flip_colors`: the node turns red and each present child black; keys,
      values and structure are untouched. */
  function FlipColors<V>(n: Tree<V>): (r: Tree<V>)
    requires n.Node?
    ensures SameUpToColor(r, n) && SameUpToColor(n, r)
    ensures r.color == Red
    ensures n.left.Node? ==> r.left.Node? && r.left.color == Black && r.left.left == n.left.left && r.left.right == n.left.right
    ensures n.right.Node? ==> r.right.Node? && r.right.color == Black && r.right.left == n.right.left && r.right.right == n.right.right
    ensures Entries(r) == Entries(n) && Keys(r) == Keys(n) && Size(r) == Size(n) && Map(r) == Map(n)
    ensures Bst(n) ==> Bst(r)
  {
    SameUpToColorRefl(n.left);
    SameUpToColorRefl(n.right);
    var r := n.(color := Red, left := Paint(n.left, Black), right := Paint(n.right, Black));
    r
  }

  lemma {:induction false} SameUpToColorRefl<V>(t: Tree<V>)
    ensures SameUpToColor(t, t)
  {
    match t
    case Nil =>
    case Node(_, _, l, r, _) => SameUpToColorRefl(l); SameUpToColorRefl(r);
  }

  // ---------------------------------------------------------------------------
  // Insertion

  /** The three repair rules run on every return from `insert`, in this order:
      lean a lone red right link left, split two reds on the left spine, and
      push a red pair up by a colour flip. */
  function Repair<V>(n: Tree<V>): (r: Tree<V>)
    requires n.Node?
    ensures r.Node?
    ensures Entries(r) == Entries(n)
  {
    var n1 := if !IsRed(n.left) && IsRed(n.right) then RotateLeft(n) else n;
    var n2 := if IsRed(n1.left) && IsRed(n1.left.left) then RotateRight(n1) else n1;
    if IsRed(n2.left) && IsRed(n2.right) then FlipColors(n2) else n2
  }

  /** On a node that already has the LLRB shape none of the three rules
      applies: the repair leaves it as it is, structure and colours. */
  lemma RepairIdempotent<V>(t: Tree<V>)
    requires t.Node? && LlrbShape(t)
    ensures Repair(t) == t
  {
  }

  /** The repairs keep the keys, the node count, search order and the map. */
  lemma RepairKeeps<V>(n: Tree<V>)
    requires n.Node?
    ensures Keys(Repair(n)) == Keys(n) && Size(Repair(n)) == Size(n)
    ensures Bst(n) ==> Bst(Repair(n)) && Map(Repair(n)) == Map(n)
  {
    var n1 := if !IsRed(n.left) && IsRed(n.right) then RotateLeft(n) else n;
    if !IsRed(n.left) && IsRed(n.right) {
      RotateLeftKeeps(n);
    }
    var n2 := if IsRed(n1.left) && IsRed(n1.left.left) then RotateRight(n1) else n1;
    if IsRed(n1.left) && IsRed(n1.left.left) {
      RotateRightKeeps(n1);
    }
    assert Repair(n) == if IsRed(n2.left) && IsRed(n2.right) then FlipColors(n2) else n2;
  }

  /** `insert`: descend by key, create a red leaf at an absent link or overwrite
      the value of an equal key, and repair every node on the way back. */
  function InsertNode<V>(n: Tree<V>, k: int, v: V): (r: Tree<V>)
    ensures r.Node?
    ensures Keys(r) == Keys(n) + {k}
    ensures n.Nil? ==> r == Node(k, v, Nil, Nil, Red)
    decreases n
  {
    if n.Nil? then
      Node(k, v, Nil, Nil, Red)
    else
      var n' :=
        if k < n.key then n.(left := InsertNode(n.left, k, v))
        else if k > n.key then n.(right := InsertNode(n.right, k, v))
        else n.(value := v);
      RepairKeeps(n');
      Repair(n')
  }

  /** Insertion into a search tree keeps search order and maps `k` to `v`,
      every other key as before. */
  lemma {:induction false} InsertNodeMap<V>(n: Tree<V>, k: int, v: V)
    requires Bst(n)
    ensures Bst(InsertNode(n, k, v)) && Map(InsertNode(n, k, v)) == Map(n)[k := v]
    decreases n
  {
    if n.Node? {
      var n' :=
        if k < n.key then n.(left := InsertNode(n.left, k, v))
        else if k > n.key then n.(right := InsertNode(n.right, k, v))
        else n.(value := v);
      RepairKeeps(n');
      if k < n.key {
        InsertNodeMap(n.left, k, v);
        LeftReplaced(n, InsertNode(n.left, k, v), k, v);
      } else if k > n.key {
        InsertNodeMap(n.right, k, v);
        RightReplaced(n, InsertNode(n.right, k, v), k, v);
      } else {
        UpdatedMaps(Map(n.left), Map(n.right), n.key, n.value, k, v);
      }
    }
  }

  /** Putting back a left subtree that gained `k` and maps it to `v`. */
  lemma LeftReplaced<V>(n: Tree<V>, l: Tree<V>, k: int, v: V)
    requires n.Node? && Bst(n) && k < n.key
    requires Bst(l) && Keys(l) == Keys(n.left) + {k} && Map(l) == Map(n.left)[k := v]
    ensures Bst(n.(left := l)) && Map(n.(left := l)) == Map(n)[k := v]
  {
    forall x | x in Keys(l) ensures x < n.key {
      if x != k {
        assert x in Keys(n.left);
      }
    }
    MapKeys(n.right);
    assert k !in Map(n.right);
    UpdatedMaps(Map(n.left), Map(n.right), n.key, n.value, k, v);
  }

  /** Putting back a right subtree that gained `k` and maps it to `v`. */
  lemma RightReplaced<V>(n: Tree<V>, r: Tree<V>, k: int, v: V)
    requires n.Node? && Bst(n) && k > n.key
    requires Bst(r) && Keys(r) == Keys(n.right) + {k} && Map(r) == Map(n.right)[k := v]
    ensures Bst(n.(right := r)) && Map(n.(right := r)) == Map(n)[k := v]
  {
    forall x | x in Keys(r) ensures n.key < x {
      if x != k {
        assert x in Keys(n.right);
      }
    }
    UpdatedMaps(Map(n.left), Map(n.right), n.key, n.value, k, v);
  }

  /** A search tree holds one node per distinct key. */
  lemma {:induction false} SizeIsKeyCount<V>(t: Tree<V>)
    requires Bst(t)
    ensures Size(t) == |Keys(t)|
  {
    match t
    case Nil =>
    case Node(k, _, l, r, _) =>
      SizeIsKeyCount(l);
      SizeIsKeyCount(r);
      assert forall x :: x in Keys(l) ==> x < k;
      assert forall x :: x in Keys(r) ==> k < x;
      assert Keys(l) !! Keys(r) by {
        forall x | x in Keys(l) ensures x !in Keys(r) {
          assert x < k;
        }
      }
      assert k !in Keys(l) && k !in Keys(r);
      assert Keys(t) == Keys(l) + {k} + Keys(r);
  }

  /** Insertion adds a node exactly when the key is new; an existing key only has
      its value replaced, so the node count stays the same. */
  lemma InsertCount<V>(t: Tree<V>, k: int, v: V)
    requires Bst(t)
    ensures Size(InsertNode(t, k, v)) == Size(t) + (if k in Keys(t) then 0 else 1)
    ensures k in Keys(t) ==> Map(InsertNode(t, k, v)).Keys == Map(t).Keys
  {
    InsertNodeMap(t, k, v);
    SizeIsKeyCount(t);
    SizeIsKeyCount(InsertNode(t, k, v));
    MapKeys(t);
    MapKeys(InsertNode(t, k, v));
  }

  /** Overwriting `k` below a node with key `nk` is overwriting `k` in the node's
      map, provided `k` is not on the other side. */
  lemma UpdatedMaps<V>(ml: map<int, V>, mr: map<int, V>, nk: int, nv: V, k: int, v: V)
    ensures k < nk && k !in mr ==> (ml[k := v] + mr)[nk := nv] == (ml + mr)[nk := nv][k := v]
    ensures k > nk ==> (ml + mr[k := v])[nk := nv] == (ml + mr)[nk := nv][k := v]
    ensures (ml + mr)[nk := v] == (ml + mr)[nk := nv][nk := v]
  {
  }

  /** The repair rules restore the balance invariants at a node whose children
      came back from a recursive insertion. The outcome depends on the node's
      colour: below a black node the result has no red pair at its top; below a
      red node (whose left child was black) the result stays red. */
  lemma RepairKeepsShape<V>(n: Tree<V>)
    requires n.Node?
    requires LlrbShape(n.left) && LlrbShape(n.right)
    requires NoRedBelowRed(n.right)
    requires BlackHeight(n.left) == BlackHeight(n.right)
    requires IsRed(n.right) ==> NoRedBelowRed(n.left)
    ensures LlrbShape(Repair(n))
    ensures n.color == Black ==> BlackHeight(Repair(n)) == BlackHeight(n) && NoRedBelowRed(Repair(n))
    ensures n.color == Red && NoRedBelowRed(n.left) && !(IsRed(n.left) && IsRed(n.right)) ==>
              BlackHeight(Repair(n)) == BlackHeight(n) && IsRed(Repair(n))
  {
    if !IsRed(n.left) && IsRed(n.right) {
      RepairLeansLeft(n);
    } else if IsRed(n.left) && IsRed(n.left.left) {
      RepairSplitsLeftPair(n);
    } else if IsRed(n.left) && IsRed(n.right) {
      RepairFlipsOnly(n);
    } else {
      assert Repair(n) == n;
      assert NoTwoReds(n) && NoRedRight(n) && Balanced(n);
    }
  }

  /** Repainting the root leaves the shape invariants alone, since they ignore
      the root's own colour. */
  lemma PaintKeepsShape<V>(t: Tree<V>, c: Color)
    requires LlrbShape(t)
    ensures LlrbShape(Paint(t, c))
    ensures t.Node? ==> BlackHeight(Paint(t, c)) == BlackCount(c) + BlackHeight(t.left)
  {
  }

  /** Rule (a) alone: a lone red right link becomes a red left link. */
  lemma RepairLeansLeft<V>(n: Tree<V>)
    requires n.Node? && !IsRed(n.left) && IsRed(n.right)
    requires LlrbShape(n.left) && LlrbShape(n.right) && NoRedBelowRed(n.right)
    requires BlackHeight(n.left) == BlackHeight(n.right)
    ensures Repair(n) == RotateLeft(n)
    ensures LlrbShape(Repair(n)) && BlackHeight(Repair(n)) == BlackHeight(n)
    ensures Repair(n).color == n.color
  {
    var p := n.right;
    var r := RotateLeft(n);
    assert NoRedRight(p) && NoTwoReds(p) && Balanced(p);
    assert !IsRed(p.left) && !IsRed(p.right);
    assert !IsRed(r.left.left) && !IsRed(r.right);
    assert NoRedRight(r.left) && NoTwoReds(r.left) && Balanced(r.left);
    assert NoRedRight(r) && NoTwoReds(r) && Balanced(r);
  }

  /** Rule (b) then (c): two reds down the left spine are rotated into a red
      pair and flipped. The node's right child is then black. */
  lemma RepairSplitsLeftPair<V>(n: Tree<V>)
    requires n.Node? && IsRed(n.left) && IsRed(n.left.left) && !IsRed(n.right)
    requires LlrbShape(n.left) && LlrbShape(n.right) && NoRedBelowRed(n.right)
    requires BlackHeight(n.left) == BlackHeight(n.right)
    ensures Repair(n) == FlipColors(RotateRight(n))
    ensures LlrbShape(Repair(n)) && IsRed(Repair(n)) && NoRedBelowRed(Repair(n))
    ensures n.color == Black ==> BlackHeight(Repair(n)) == BlackHeight(n)
  {
    var l := n.left;
    var m := RotateRight(n);
    var r := FlipColors(m);
    assert NoRedRight(l) && NoTwoReds(l) && Balanced(l);
    assert NoRedRight(l.left) && NoTwoReds(l.left) && Balanced(l.left);
    assert NoRedBelowRed(l.left) && NoRedBelowRed(l.right) && !IsRed(l.right);
    assert IsRed(m.left) && IsRed(m.right);
    PaintKeepsShape(l.left, Black);
    assert r.left == Paint(l.left, Black);
    assert r.right == Node(n.key, n.value, l.right, n.right, Black);
    assert NoRedRight(r.right) && NoTwoReds(r.right) && Balanced(r.right);
    assert NoRedRight(r) && NoTwoReds(r) && Balanced(r);
  }

  /** Rule (c) alone: a red pair below the node is pushed up by a flip. */
  lemma RepairFlipsOnly<V>(n: Tree<V>)
    requires n.Node? && IsRed(n.left) && !IsRed(n.left.left) && IsRed(n.right)
    requires LlrbShape(n.left) && LlrbShape(n.right)
    requires BlackHeight(n.left) == BlackHeight(n.right)
    ensures Repair(n) == FlipColors(n)
    ensures LlrbShape(Repair(n)) && IsRed(Repair(n)) && NoRedBelowRed(Repair(n))
    ensures n.color == Black ==> BlackHeight(Repair(n)) == BlackHeight(n)
  {
    var r := FlipColors(n);
    PaintKeepsShape(n.left, Black);
    PaintKeepsShape(n.right, Black);
    assert r.left == Paint(n.left, Black) && r.right == Paint(n.right, Black);
    assert NoRedRight(r) && NoTwoReds(r) && Balanced(r);
  }

  /** Insertion keeps the three balance invariants. Inserting below a black (or
      absent) link keeps the black height and leaves no red pair at the top;
      inserting below a red link whose left child is black keeps the black height
      and returns a red node, for the parent's repair to absorb. */
  lemma {:induction false} InsertKeepsShape<V>(t: Tree<V>, k: int, v: V)
    requires LlrbShape(t)
    ensures LlrbShape(InsertNode(t, k, v))
    ensures !IsRed(t) ==> BlackHeight(InsertNode(t, k, v)) == BlackHeight(t) && NoRedBelowRed(InsertNode(t, k, v))
    ensures IsRed(t) && NoRedBelowRed(t) ==> BlackHeight(InsertNode(t, k, v)) == BlackHeight(t) && IsRed(InsertNode(t, k, v))
    decreases t
  {
    if t.Node? {
      var n' :=
        if k < t.key then t.(left := InsertNode(t.left, k, v))
        else if k > t.key then t.(right := InsertNode(t.right, k, v))
        else t.(value := v);
      if k < t.key {
        InsertKeepsShape(t.left, k, v);
      } else if k > t.key {
        InsertKeepsShape(t.right, k, v);
      }
      RepairKeepsShape(n');
    }
  }


  // ---------------------------------------------------------------------------
  // In-order export

  /** `iter_sort`: left subtree, this node's value, right subtree. */
  function IterSort<V>(n: Tree<V>): (r: seq<V>)
    requires n.Node?
    ensures |r| == Size(n)
    ensures forall i :: 0 <= i < |r| ==> r[i] == Entries(n)[i].1
  {
    (if n.left.Node? then IterSort(n.left) else [])
    + [n.value]
    + (if n.right.Node? then IterSort(n.right) else [])
  }

  /** Some entry of `e` has key `x`. */
  ghost predicate Listed<V>(e: seq<(int, V)>, x: int) {
    exists i :: 0 <= i < |e| && e[i].0 == x
  }

  /** The keys met in order are exactly the tree's keys. */
  lemma EntriesKeys<V>(t: Tree<V>)
    ensures forall i :: 0 <= i < |Entries(t)| ==> Entries(t)[i].0 in Keys(t)
    ensures forall x :: x in Keys(t) ==> Listed(Entries(t), x)
  {
    EntriesInKeys(t);
    KeysInEntries(t);
  }

  lemma {:induction false} EntriesInKeys<V>(t: Tree<V>)
    ensures forall i :: 0 <= i < |Entries(t)| ==> Entries(t)[i].0 in Keys(t)
  {
    match t
    case Nil =>
    case Node(k, v, l, r, _) =>
      EntriesInKeys(l);
      EntriesInKeys(r);
      var e, el, er := Entries(t), Entries(l), Entries(r);
      assert e == el + [(k, v)] + er;
      forall i | 0 <= i < |e| ensures e[i].0 in Keys(t) {
        if i < |el| {
          assert e[i] == el[i];
          assert el[i].0 in Keys(l);
        } else if i > |el| {
          assert e[i] == er[i - |el| - 1];
          assert er[i - |el| - 1].0 in Keys(r);
        } else {
          assert e[i] == (k, v);
        }
      }
  }

  lemma {:induction false} KeysInEntries<V>(t: Tree<V>)
    ensures forall x :: x in Keys(t) ==> Listed(Entries(t), x)
  {
    match t
    case Nil =>
    case Node(k, v, l, r, _) =>
      KeysInEntries(l);
      KeysInEntries(r);
      var e, el, er := Entries(t), Entries(l), Entries(r);
      assert e == el + [(k, v)] + er;
      forall x | x in Keys(t) ensures Listed(e, x) {
        if x in Keys(l) {
          var i :| 0 <= i < |el| && el[i].0 == x;
          assert e[i] == el[i];
        } else if x in Keys(r) {
          var i :| 0 <= i < |er| && er[i].0 == x;
          assert e[|el| + 1 + i] == er[i];
        } else {
          assert x == k;
          assert e[|el|] == (k, v);
        }
      }
  }

  /** In a search tree the in-order keys strictly increase. */
  lemma {:induction false} EntriesIncreasing<V>(t: Tree<V>)
    requires Bst(t)
    ensures forall i, j :: 0 <= i < j < |Entries(t)| ==> Entries(t)[i].0 < Entries(t)[j].0
  {
    match t
    case Nil =>
    case Node(k, v, l, r, _) =>
      EntriesIncreasing(l);
      EntriesIncreasing(r);
      EntriesKeys(l);
      EntriesKeys(r);
      var e, el, er := Entries(t), Entries(l), Entries(r);
      assert e == el + [(k, v)] + er;
      forall i, j | 0 <= i < j < |e| ensures e[i].0 < e[j].0 {
        if j < |el| {
          assert e[i] == el[i] && e[j] == el[j];
        } else if i > |el| {
          assert e[i] == er[i - |el| - 1] && e[j] == er[j - |el| - 1];
        } else {
          assert i < |el| ==> e[i] == el[i];
          assert j > |el| ==> e[j] == er[j - |el| - 1];
        }
      }
  }

  /** In a search tree every in-order entry is what the tree maps its key to. */
  lemma {:induction false} EntriesMapped<V>(t: Tree<V>)
    requires Bst(t)
    ensures forall i :: 0 <= i < |Entries(t)| ==> Entries(t)[i].0 in Map(t) && Map(t)[Entries(t)[i].0] == Entries(t)[i].1
  {
    match t
    case Nil =>
    case Node(k, v, l, r, _) =>
      EntriesMapped(l);
      EntriesMapped(r);
      EntriesKeys(l);
      EntriesKeys(r);
      MapKeys(l);
      MapKeys(r);
      var e, el, er := Entries(t), Entries(l), Entries(r);
      assert e == el + [(k, v)] + er;
      forall i | 0 <= i < |e| ensures e[i].0 in Map(t) && Map(t)[e[i].0] == e[i].1 {
        if i < |el| {
          assert e[i] == el[i];
          assert e[i].0 in Keys(l);
          assert e[i].0 < k;
          assert e[i].0 !in Keys(r);
          assert e[i].0 !in Map(r) && e[i].0 != k;
        } else if i > |el| {
          assert e[i] == er[i - |el| - 1];
          assert e[i].0 in Keys(r);
          assert e[i].0 != k;
        }
      }
  }

  /** `m` stores every key as its own value, as in the tree-sort test. */
  ghost predicate MapsKeysToThemselves(m: map<int, int>) {
    forall k :: k in m ==> m[k] == k
  }

  /** With every value equal to its key, the in-order export of a search tree is
      strictly increasing, hence sorted. */
  lemma ToVecSorted(t: Tree<int>)
    requires Bst(t) && t.Node? && MapsKeysToThemselves(Map(t))
    ensures Sorted(IterSort(t))
    ensures forall i, j :: 0 <= i < j < |IterSort(t)| ==> IterSort(t)[i] < IterSort(t)[j]
  {
    EntriesIncreasing(t);
    EntriesMapped(t);
  }

  /** Inserts each key of `keys` with itself as value, in order; the tree
      then holds exactly its old keys and the inserted ones. */
  ghost function InsertAll(t: Tree<int>, keys: seq<int>): (r: Tree<int>)
    ensures forall x :: x in Keys(r) <==> x in Keys(t) || x in keys
    decreases |keys|
  {
    if keys == [] then
      t
    else
      assert forall x :: x in keys <==> x == keys[0] || x in keys[1..];
      InsertAll(InsertNode(t, keys[0], keys[0]), keys[1..])
  }

  /** A run of insertions with value = key keeps a valid tree that still maps
      every key to itself. */
  lemma {:induction false} InsertAllValid(t: Tree<int>, keys: seq<int>)
    requires Bst(t) && LlrbShape(t) && MapsKeysToThemselves(Map(t))
    ensures Bst(InsertAll(t, keys)) && LlrbShape(InsertAll(t, keys))
    ensures MapsKeysToThemselves(Map(InsertAll(t, keys)))
    decreases |keys|
  {
    if keys != [] {
      InsertKeepsShape(t, keys[0], keys[0]);
      InsertNodeMap(t, keys[0], keys[0]);
      InsertAllValid(InsertNode(t, keys[0], keys[0]), keys[1..]);
    }
  }

  /** The tree-sort test: after inserting every key with itself as value, the
      export of a non-empty tree is sorted. */
  lemma TreeSortSorted(keys: seq<int>)
    requires |keys| > 0
    ensures InsertAll(Nil, keys).Node?
    ensures Sorted(IterSort(InsertAll(Nil, keys)))
  {
    InsertAllValid(Nil, keys);
    assert keys[0] in Keys(InsertAll(Nil, keys));
    ToVecSorted(InsertAll(Nil, keys));
  }

  /** Two insertions already leave a red root over a red left child: the root
      is never recoloured, which is why the invariants leave its colour free. */
  lemma RootStaysRed()
    ensures InsertNode(InsertNode(Nil, 1, 1), 5, 5) == Node(5, 5, Node(1, 1, Nil, Nil, Red), Nil, Red)
    ensures !NoRedBelowRed(InsertNode(InsertNode(Nil, 1, 1), 5, 5))
  {
    assert InsertNode(Nil, 1, 1) == Node(1, 1, Nil, Nil, Red);
  }

  // ---------------------------------------------------------------------------
  // The container

  /** `LLRBTree`: owns the optional root. */
  class LLRBTree<V> {
    var root: Tree<V>

    ghost predicate Valid()
      reads this
    {
      Bst(root) && LlrbShape(root)
    }

    /** The key/value map the tree holds. */
    ghost function Contents(): map<int, V>
      reads this
    {
      Map(root)
    }

    constructor ()
      ensures Valid() && root == Nil && Contents() == map[]
    {
      root := Nil;
    }

    /** Inserts or overwrites one key; the root keeps whatever colour the
        repairs gave it. */
    method Insert(key: int, value: V)
      requires Valid()
      modifies this
      ensures Valid()
      ensures root == InsertNode(old(root), key, value)
      ensures Contents() == old(Contents())[key := value]
      ensures Size(root) == Size(old(root)) + (if key in old(Contents()) then 0 else 1)
    {
      InsertKeepsShape(root, key, value);
      InsertNodeMap(root, key, value);
      InsertCount(root, key, value);
      MapKeys(root);
      root := InsertNode(root, key, value);
    }

    /** `to_vec`: the values in in-order position, one per node. */
    function ToVec(): (r: seq<V>)
      reads this
      ensures |r| == Size(root)
      ensures forall i :: 0 <= i < |r| ==> r[i] == Entries(root)[i].1
    {
      match root
      case Nil => []
      case Node(_, _, _, _, _) => IterSort(root)
    }
  }
}

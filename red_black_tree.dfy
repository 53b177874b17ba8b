/** The standalone rotation primitives of a red-black tree: a colour test and
    the two single rotations, over nodes with keys of any type. */
module RedBlack {

  datatype Color = Red | Black

  /** An optional boxed node: `Nil` is an absent link. */
  datatype Tree<K, V> =
    | Nil
    | Node(key: K, value: V, left: Tree<K, V>, right: Tree<K, V>, color: Color)

  /** `is_red`: an absent link counts as black. */
  function IsRed<K, V>(n: Tree<K, V>): (b: bool)
    ensures b <==> n.Node? && n.color == Red
  {
    match n
    case Nil => false
    case Node(_, _, _, _, c) => c == Red
  }

  /** The (key, value) pairs of a tree in order. */
  ghost function InOrder<K, V>(n: Tree<K, V>): seq<(K, V)> {
    match n
    case Nil => []
    case Node(k, v, l, r, _) => InOrder(l) + [(k, v)] + InOrder(r)
  }

  /** `rotate_left`: the red right child `p` becomes the root, the old root
      becomes its red left child and takes over `p`'s old left subtree; `p`
      inherits the old root's colour. */
  function RotateLeft<K, V>(n: Tree<K, V>): (r: Tree<K, V>)
    requires n.Node? && IsRed(n.right)
    ensures r.Node? && r.color == n.color && IsRed(r.left)
    ensures r.left.left == n.left && r.left.right == n.right.left && r.right == n.right.right
    ensures r.key == n.right.key && r.left.key == n.key
  {
    var p := n.right;
    Node(p.key, p.value, Node(n.key, n.value, n.left, p.left, Red), p.right, n.color)
  }

  /** `rotate_right`: the mirror image of `RotateLeft`, hoisting the red left
      child. */
  function RotateRight<K, V>(n: Tree<K, V>): (r: Tree<K, V>)
    requires n.Node? && IsRed(n.left)
    ensures r.Node? && r.color == n.color && IsRed(r.right)
    ensures r.right.right == n.right && r.right.left == n.left.right && r.left == n.left.left
    ensures r.key == n.left.key && r.right.key == n.key
  {
    var p := n.left;
    Node(p.key, p.value, p.left, Node(n.key, n.value, p.right, n.right, Red), n.color)
  }

  /** A left rotation keeps the in-order sequence of entries. */
  lemma RotateLeftInOrder<K, V>(n: Tree<K, V>)
    requires n.Node? && IsRed(n.right)
    ensures InOrder(RotateLeft(n)) == InOrder(n)
  {
  }

  /** A right rotation keeps the in-order sequence of entries. */
  lemma RotateRightInOrder<K, V>(n: Tree<K, V>)
    requires n.Node? && IsRed(n.left)
    ensures InOrder(RotateRight(n)) == InOrder(n)
  {
  }

  /** Rotating left and then right restores the original tree, colours
      included: the hoisted child was red, and gets red back. */
  lemma RotateLeftThenRight<K, V>(n: Tree<K, V>)
    requires n.Node? && IsRed(n.right)
    ensures IsRed(RotateLeft(n).left)
    ensures RotateRight(RotateLeft(n)) == n
  {
  }

  /** Rotating right and then left restores the original tree. */
  lemma RotateRightThenLeft<K, V>(n: Tree<K, V>)
    requires n.Node? && IsRed(n.left)
    ensures IsRed(RotateRight(n).right)
    ensures RotateLeft(RotateRight(n)) == n
  {
  }
}

/**
 * The weight-keyed AVL tree of one bucket (project.cpp:34-197).
 *
 * Every node exclusively owns its two children, so the linked structure is
 * a value: `Tree`. A node keeps the cached `height` field of the source,
 * and the engine, like the source, balances by that cached field.
 */
module AvlTree {
  import opened Records

  datatype Tree = Nil | Node(left: Tree, parcel: Parcel, right: Tree, height: int)

  /** height(): the cached height, 0 for an absent subtree. */
  function Height(t: Tree): int
  {
    if t.Nil? then 0 else t.height
  }

  /** max() */
  function Max(a: int, b: int): (m: int)
    ensures m >= a && m >= b
    ensures m == a || m == b
  {
    if a > b then a else b
  }

  /** getBalance(): left height minus right height, 0 for an absent node. */
  function Balance(t: Tree): int
  {
    if t.Nil? then 0 else Height(t.left) - Height(t.right)
  }

  /** inOrder(): the records of the tree, left subtree first. */
  function InOrder(t: Tree): (s: seq<Parcel>)
  {
    match t
    case Nil => []
    case Node(l, p, r, _) => InOrder(l) + [p] + InOrder(r)
  }

  /** The set of weights stored in the tree. */
  ghost function Weights(t: Tree): set<int>
  {
    match t
    case Nil => {}
    case Node(l, p, r, _) => Weights(l) + {p.weight} + Weights(r)
  }

  /** Search-tree order: smaller weights to the left, larger to the right. */
  ghost predicate Ordered(t: Tree)
  {
    match t
    case Nil => true
    case Node(l, p, r, _) =>
      && Ordered(l) && Ordered(r)
      && (forall w :: w in Weights(l) ==> w < p.weight)
      && (forall w :: w in Weights(r) ==> p.weight < w)
  }

  /** The height of a tree, computed from its shape alone. */
  function TrueHeight(t: Tree): nat
  {
    match t
    case Nil => 0
    case Node(l, _, r, _) => 1 + Max(TrueHeight(l), TrueHeight(r))
  }

  /** Every cached height is one more than the larger cached child height. */
  ghost predicate HeightsCorrect(t: Tree)
    ensures HeightsCorrect(t) && t.Node? ==> t.height >= 1
  {
    match t
    case Nil => true
    case Node(l, _, r, h) =>
      HeightsCorrect(l) && HeightsCorrect(r) && h == 1 + Max(Height(l), Height(r))
  }

  /** Every node's balance factor is -1, 0 or 1. */
  ghost predicate Balanced(t: Tree)
  {
    match t
    case Nil => true
    case Node(l, _, r, _) => Balanced(l) && Balanced(r) && -1 <= Balance(t) <= 1
  }

  /** The invariant every tree in the table keeps. */
  ghost predicate IsAvl(t: Tree)
  {
    Ordered(t) && HeightsCorrect(t) && Balanced(t)
  }

  /** The weights of a sequence of records strictly increase. */
  ghost predicate Ascending(s: seq<Parcel>)
  {
    forall i, j :: 0 <= i < j < |s| ==> s[i].weight < s[j].weight
  }

  /** newNode(): a leaf holding one record, height 1. */
  function NewNode(p: Parcel): (t: Tree)
    ensures IsAvl(t) && InOrder(t) == [p]
  {
    Node(Nil, p, Nil, 1)
  }

  /** rightRotate(): the left child becomes the root of the subtree. */
  function RightRotate(y: Tree): (x: Tree)
    requires y.Node? && y.left.Node?
    ensures x.Node? && x.right.Node?
    ensures InOrder(x) == InOrder(y)
    ensures Weights(x) == Weights(y)
    ensures Ordered(y) ==> Ordered(x)
    ensures x.right.height == 1 + Max(Height(x.right.left), Height(x.right.right))
    ensures x.height == 1 + Max(Height(x.left), Height(x.right))
    ensures HeightsCorrect(y.left) && HeightsCorrect(y.right) ==> HeightsCorrect(x)
  {
    var l := y.left;
    var t2 := l.right;
    var y' := Node(t2, y.parcel, y.right, Max(Height(t2), Height(y.right)) + 1);
    var x := Node(l.left, l.parcel, y', Max(Height(l.left), Height(y')) + 1);
    assert Ordered(y) ==> Ordered(x) by {
      if Ordered(y) {
        assert Ordered(l) && l.parcel.weight in Weights(l);
        assert Ordered(y') && forall w :: w in Weights(y') ==> l.parcel.weight < w;
        assert Ordered(l.left) && forall w :: w in Weights(l.left) ==> w < l.parcel.weight;
      }
    }
    x
  }

  /** leftRotate(): the right child becomes the root of the subtree. */
  function LeftRotate(x: Tree): (y: Tree)
    requires x.Node? && x.right.Node?
    ensures y.Node? && y.left.Node?
    ensures InOrder(y) == InOrder(x)
    ensures Weights(y) == Weights(x)
    ensures Ordered(x) ==> Ordered(y)
    ensures y.left.height == 1 + Max(Height(y.left.left), Height(y.left.right))
    ensures y.height == 1 + Max(Height(y.left), Height(y.right))
    ensures HeightsCorrect(x.left) && HeightsCorrect(x.right) ==> HeightsCorrect(y)
  {
    var r := x.right;
    var t2 := r.left;
    var x' := Node(x.left, x.parcel, t2, Max(Height(x.left), Height(t2)) + 1);
    var y := Node(x', r.parcel, r.right, Max(Height(x'), Height(r.right)) + 1);
    assert Ordered(x) ==> Ordered(y) by {
      if Ordered(x) {
        assert Ordered(r) && r.parcel.weight in Weights(r);
        assert Ordered(x') && forall w :: w in Weights(x') ==> w < r.parcel.weight;
        assert Ordered(r.right) && forall w :: w in Weights(r.right) ==> r.parcel.weight < w;
      }
    }
    y
  }

  /**
   * The shape an insertion of weight `w` leaves behind in a subtree whose
   * height it raised: the subtree leans towards the side `w` went to.
   */
  ghost predicate LeansTowards(t: Tree, w: int)
  {
    && t.Node?
    && ((w < t.parcel.weight && Balance(t) == 1) || (t.parcel.weight < w && Balance(t) == -1))
  }

  /** Children of a node around `q`: both AVL trees, on the right sides of `q`. */
  ghost predicate Around(l: Tree, q: Parcel, r: Tree)
  {
    && IsAvl(l) && IsAvl(r)
    && (forall x :: x in Weights(l) ==> x < q.weight)
    && (forall x :: x in Weights(r) ==> q.weight < x)
  }

  /** Left-left case: a single right rotation restores balance. */
  lemma LeftLeft(l: Tree, q: Parcel, r: Tree, w: int)
    requires Around(l, q, r) && Height(l) == Height(r) + 2
    requires LeansTowards(l, w) && w < l.parcel.weight
    ensures IsAvl(RightRotate(Node(l, q, r, 1 + Max(Height(l), Height(r)))))
    ensures Height(RightRotate(Node(l, q, r, 1 + Max(Height(l), Height(r))))) == Height(l)
  {
    var t := RightRotate(Node(l, q, r, 1 + Max(Height(l), Height(r))));
    assert t.right == Node(l.right, q, r, 1 + Max(Height(l.right), Height(r)));
    assert IsAvl(t.right);
  }

  /** Left-right case: rotating the left child left, then the node right. */
  lemma LeftRight(l: Tree, q: Parcel, r: Tree, w: int)
    requires Around(l, q, r) && Height(l) == Height(r) + 2
    requires LeansTowards(l, w) && l.parcel.weight < w
    ensures l.right.Node?
    ensures IsAvl(RightRotate(Node(LeftRotate(l), q, r, 1 + Max(Height(l), Height(r)))))
    ensures Height(RightRotate(Node(LeftRotate(l), q, r, 1 + Max(Height(l), Height(r))))) == Height(l)
  {
    var m := l.right;
    assert Height(l.left) == Height(r) && Height(m) == Height(r) + 1;
    assert IsAvl(m) && Ordered(l);
    assert Height(m.left) <= Height(r) && Height(m.right) <= Height(r);
    assert Height(r) - 1 <= Height(m.left) && Height(r) - 1 <= Height(m.right);
    var t := RightRotate(Node(LeftRotate(l), q, r, 1 + Max(Height(l), Height(r))));
    assert t.left == Node(l.left, l.parcel, m.left, 1 + Max(Height(l.left), Height(m.left)));
    assert t.right == Node(m.right, q, r, 1 + Max(Height(m.right), Height(r)));
    assert IsAvl(t.left);
    assert IsAvl(t.right);
  }

  /** Right-right case: a single left rotation restores balance. */
  lemma RightRight(l: Tree, q: Parcel, r: Tree, w: int)
    requires Around(l, q, r) && Height(r) == Height(l) + 2
    requires LeansTowards(r, w) && r.parcel.weight < w
    ensures IsAvl(LeftRotate(Node(l, q, r, 1 + Max(Height(l), Height(r)))))
    ensures Height(LeftRotate(Node(l, q, r, 1 + Max(Height(l), Height(r))))) == Height(r)
  {
    var t := LeftRotate(Node(l, q, r, 1 + Max(Height(l), Height(r))));
    assert t.left == Node(l, q, r.left, 1 + Max(Height(l), Height(r.left)));
    assert IsAvl(t.left);
  }

  /** Right-left case: rotating the right child right, then the node left. */
  lemma RightLeft(l: Tree, q: Parcel, r: Tree, w: int)
    requires Around(l, q, r) && Height(r) == Height(l) + 2
    requires LeansTowards(r, w) && w < r.parcel.weight
    ensures r.left.Node?
    ensures IsAvl(LeftRotate(Node(l, q, RightRotate(r), 1 + Max(Height(l), Height(r)))))
    ensures Height(LeftRotate(Node(l, q, RightRotate(r), 1 + Max(Height(l), Height(r))))) == Height(r)
  {
    var m := r.left;
    assert Height(r.right) == Height(l) && Height(m) == Height(l) + 1;
    assert IsAvl(m) && Ordered(r);
    assert Height(m.left) <= Height(l) && Height(m.right) <= Height(l);
    assert Height(l) - 1 <= Height(m.left) && Height(l) - 1 <= Height(m.right);
    var t := LeftRotate(Node(l, q, RightRotate(r), 1 + Max(Height(l), Height(r))));
    assert t.left == Node(l, q, m.left, 1 + Max(Height(l), Height(m.left)));
    assert t.right == Node(m.right, r.parcel, r.right, 1 + Max(Height(m.right), Height(r.right)));
    assert IsAvl(t.left);
    assert IsAvl(t.right);
  }

  /**
   * The tail of insert() (project.cpp:170-196): recompute the height of the
   * node holding `q` over children `l` and `r`, one of which has just
   * received weight `w`, and rotate if the balance factor left {-1, 0, 1}.
   */
  function Rebalance(l: Tree, q: Parcel, r: Tree, w: int): (t: Tree)
    requires Around(l, q, r)
    requires Height(l) <= Height(r) + 2 && Height(r) <= Height(l) + 2
    requires Height(l) == Height(r) + 2 ==> LeansTowards(l, w)
    requires Height(r) == Height(l) + 2 ==> LeansTowards(r, w)
    ensures IsAvl(t)
    ensures InOrder(t) == InOrder(l) + [q] + InOrder(r)
    ensures Weights(t) == Weights(l) + {q.weight} + Weights(r)
    ensures -1 <= Height(l) - Height(r) <= 1 ==> t.left == l && t.parcel == q && t.right == r
    ensures !(-1 <= Height(l) - Height(r) <= 1) ==> Height(t) == Max(Height(l), Height(r))
  {
    var node := Node(l, q, r, 1 + Max(Height(l), Height(r)));
    var balance := Balance(node);
    if balance > 1 && w < l.parcel.weight then
      LeftLeft(l, q, r, w);
      RightRotate(node)
    else if balance < -1 && w > r.parcel.weight then
      RightRight(l, q, r, w);
      LeftRotate(node)
    else if balance > 1 && w > l.parcel.weight then
      LeftRight(l, q, r, w);
      RightRotate(node.(left := LeftRotate(l)))
    else if balance < -1 && w < r.parcel.weight then
      RightLeft(l, q, r, w);
      LeftRotate(node.(right := RightRotate(r)))
    else
      node
  }

  /**
   * What insert() promises of its result `r` for a tree `t` and a record
   * `p`: an AVL tree again, holding the weights of `t` and `p`, untouched if
   * the weight was already present, at most one level taller, and leaning
   * towards the side the record went to when it did grow.
   */
  ghost predicate Inserted(t: Tree, p: Parcel, r: Tree)
  {
    && IsAvl(r)
    && Weights(r) == Weights(t) + {p.weight}
    && (p.weight in Weights(t) ==> r == t)
    && Height(t) <= Height(r) <= Height(t) + 1
    && (Height(r) == Height(t) + 1 && t.Node? ==> LeansTowards(r, p.weight))
  }

  /** Insertion into the left subtree, then rebalancing, keeps the promise. */
  lemma GrowLeft(l: Tree, q: Parcel, rt: Tree, h: int, p: Parcel, l': Tree)
    requires IsAvl(Node(l, q, rt, h)) && p.weight < q.weight && Inserted(l, p, l')
    ensures Around(l', q, rt)
    ensures Height(l') <= Height(rt) + 2 && Height(rt) <= Height(l') + 2
    ensures Height(l') == Height(rt) + 2 ==> LeansTowards(l', p.weight)
    ensures Height(rt) == Height(l') + 2 ==> LeansTowards(rt, p.weight)
    ensures Inserted(Node(l, q, rt, h), p, Rebalance(l', q, rt, p.weight))
  {
    assert Height(l') == Height(rt) + 2 ==> l.Node?;
  }

  /** Insertion into the right subtree, then rebalancing, keeps the promise. */
  lemma GrowRight(l: Tree, q: Parcel, rt: Tree, h: int, p: Parcel, r': Tree)
    requires IsAvl(Node(l, q, rt, h)) && q.weight < p.weight && Inserted(rt, p, r')
    ensures Around(l, q, r')
    ensures Height(l) <= Height(r') + 2 && Height(r') <= Height(l) + 2
    ensures Height(l) == Height(r') + 2 ==> LeansTowards(l, p.weight)
    ensures Height(r') == Height(l) + 2 ==> LeansTowards(r', p.weight)
    ensures Inserted(Node(l, q, rt, h), p, Rebalance(l, q, r', p.weight))
  {
    assert Height(r') == Height(l) + 2 ==> rt.Node?;
  }

  /**
   * insert(): ordered insertion by weight followed by rebalancing on the way
   * back up. A record whose weight is already present is dropped.
   */
  function Insert(t: Tree, p: Parcel): (r: Tree)
    requires IsAvl(t)
    ensures IsAvl(r)
    ensures Weights(r) == Weights(t) + {p.weight}
    ensures p.weight in Weights(t) ==> r == t
    ensures Height(t) <= Height(r) <= Height(t) + 1
    ensures Height(r) == Height(t) + 1 && t.Node? ==> LeansTowards(r, p.weight)
    decreases t
  {
    match t
    case Nil => NewNode(p)
    case Node(l, q, rt, h) =>
      if p.weight < q.weight then
        var l' := Insert(l, p);
        GrowLeft(l, q, rt, h, p, l');
        Rebalance(l', q, rt, p.weight)
      else if p.weight > q.weight then
        var r' := Insert(rt, p);
        GrowRight(l, q, rt, h, p, r');
        Rebalance(l, q, r', p.weight)
      else
        t
  }
}

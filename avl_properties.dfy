/**
 * Properties of the AVL engine of project.cpp:93-197 stated over the
 * in-order record sequence, against an independent reference: insertion
 * into a sorted list.
 */
module AvlProperties {
  import opened Records
  import opened AvlTree

  /** Reference insertion into a list sorted by weight; an equal weight keeps the list. */
  function SeqInsert(s: seq<Parcel>, p: Parcel): seq<Parcel>
  {
    if s == [] then [p]
    else if p.weight < s[0].weight then [p] + s
    else if p.weight == s[0].weight then s
    else [s[0]] + SeqInsert(s[1..], p)
  }

  /** The cached heights of a tree whose heights are correct are its true heights. */
  lemma {:induction false} CachedHeightIsTrue(t: Tree)
    requires HeightsCorrect(t)
    ensures Height(t) == TrueHeight(t)
  {
    match t
    case Nil =>
    case Node(l, _, r, _) =>
      CachedHeightIsTrue(l);
      CachedHeightIsTrue(r);
  }

  /** getBalance() over correct cached heights: the difference of the true subtree heights. */
  lemma BalanceIsTrue(t: Tree)
    requires HeightsCorrect(t)
    ensures t.Nil? ==> Balance(t) == 0
    ensures t.Node? ==> Balance(t) == TrueHeight(t.left) - TrueHeight(t.right)
  {
    if t.Node? {
      CachedHeightIsTrue(t.left);
      CachedHeightIsTrue(t.right);
    }
  }

  /** At every node the true heights of the two subtrees differ by at most one. */
  ghost predicate TrueBalanced(t: Tree)
  {
    match t
    case Nil => true
    case Node(l, _, r, _) =>
      TrueBalanced(l) && TrueBalanced(r) && -1 <= TrueHeight(l) - TrueHeight(r) <= 1
  }

  /** The balance the engine keeps over cached heights is balance over true heights. */
  lemma {:induction false} AvlIsTrulyBalanced(t: Tree)
    requires HeightsCorrect(t) && Balanced(t)
    ensures TrueBalanced(t)
  {
    match t
    case Nil =>
    case Node(l, _, r, _) =>
      AvlIsTrulyBalanced(l);
      AvlIsTrulyBalanced(r);
      BalanceIsTrue(t);
  }

  /** Every record of the in-order dump carries a weight of the tree. */
  lemma {:induction false} InOrderHasOnlyWeights(t: Tree)
    ensures forall i :: 0 <= i < |InOrder(t)| ==> InOrder(t)[i].weight in Weights(t)
  {
    match t
    case Nil =>
    case Node(l, p, r, _) =>
      InOrderHasOnlyWeights(l);
      InOrderHasOnlyWeights(r);
      var a, b := InOrder(l), InOrder(r);
      var s := a + [p] + b;
      assert s == InOrder(t);
      forall i | 0 <= i < |s|
        ensures s[i].weight in Weights(t)
      {
        if i < |a| {
          assert s[i] == a[i];
        } else if i > |a| {
          assert s[i] == b[i - |a| - 1];
        }
      }
  }

  /** Every weight of the tree appears in the in-order dump. */
  lemma {:induction false} InOrderHasAllWeights(t: Tree)
    ensures forall w :: w in Weights(t) ==> exists i :: 0 <= i < |InOrder(t)| && InOrder(t)[i].weight == w
  {
    match t
    case Nil =>
    case Node(l, p, r, _) =>
      InOrderHasAllWeights(l);
      InOrderHasAllWeights(r);
      var a, b := InOrder(l), InOrder(r);
      var s := InOrder(t);
      assert s == a + [p] + b;
      forall w | w in Weights(t)
        ensures exists i :: 0 <= i < |s| && s[i].weight == w
      {
        if w in Weights(l) {
          var i :| 0 <= i < |a| && a[i].weight == w;
          assert s[i].weight == w;
        } else if w in Weights(r) {
          var i :| 0 <= i < |b| && b[i].weight == w;
          assert s[|a| + 1 + i].weight == w;
        } else {
          assert s[|a|].weight == w;
        }
      }
      assert forall w :: w in Weights(t) ==> exists i :: 0 <= i < |InOrder(t)| && InOrder(t)[i].weight == w;
  }

  /** A sequence split around one record ascends iff both sides do and sit on the right sides of it. */
  lemma AscendingSplit(a: seq<Parcel>, q: Parcel, b: seq<Parcel>)
    ensures Ascending(a + [q] + b) <==>
      && Ascending(a) && Ascending(b)
      && (forall i :: 0 <= i < |a| ==> a[i].weight < q.weight)
      && (forall i :: 0 <= i < |b| ==> q.weight < b[i].weight)
  {
    var s := a + [q] + b;
    if Ascending(s) {
      forall i | 0 <= i < |a| ensures a[i].weight < q.weight {
        assert s[i] == a[i] && s[|a|] == q;
      }
      forall i | 0 <= i < |b| ensures q.weight < b[i].weight {
        assert s[|a| + 1 + i] == b[i] && s[|a|] == q;
      }
      forall i, j | 0 <= i < j < |a| ensures a[i].weight < a[j].weight {
        assert s[i] == a[i] && s[j] == a[j];
      }
      forall i, j | 0 <= i < j < |b| ensures b[i].weight < b[j].weight {
        assert s[|a| + 1 + i] == b[i] && s[|a| + 1 + j] == b[j];
      }
    }
  }

  /** Search-tree order is exactly "the in-order weights strictly ascend". */
  lemma {:induction false} OrderedIffAscending(t: Tree)
    ensures Ordered(t) <==> Ascending(InOrder(t))
  {
    match t
    case Nil =>
    case Node(l, q, r, _) =>
      OrderedIffAscending(l);
      OrderedIffAscending(r);
      InOrderHasOnlyWeights(l);
      InOrderHasOnlyWeights(r);
      InOrderHasAllWeights(l);
      InOrderHasAllWeights(r);
      AscendingSplit(InOrder(l), q, InOrder(r));
  }

  /** Inserting before a list's head that is heavier than the record. */
  lemma {:induction false} SeqInsertBefore(a: seq<Parcel>, b: seq<Parcel>, p: Parcel)
    requires b != [] && p.weight < b[0].weight
    ensures SeqInsert(a + b, p) == SeqInsert(a, p) + b
    decreases |a|
  {
    if a == [] {
      assert a + b == b;
    } else {
      assert (a + b)[0] == a[0];
      assert (a + b)[1..] == a[1..] + b;
      SeqInsertBefore(a[1..], b, p);
    }
  }

  /** Inserting past a prefix that is lighter than the record. */
  lemma {:induction false} SeqInsertAfter(a: seq<Parcel>, b: seq<Parcel>, p: Parcel)
    requires forall i :: 0 <= i < |a| ==> a[i].weight < p.weight
    ensures SeqInsert(a + b, p) == a + SeqInsert(b, p)
    decreases |a|
  {
    if a == [] {
      assert a + b == b;
    } else {
      assert (a + b)[0] == a[0];
      assert (a + b)[1..] == a[1..] + b;
      SeqInsertAfter(a[1..], b, p);
    }
  }

  /**
   * The records of the tree insert() returns, in order, are those of the
   * input with the new record placed by weight (or left out if its weight
   * is already present).
   */
  lemma {:induction false} InsertInOrder(t: Tree, p: Parcel)
    requires IsAvl(t)
    ensures InOrder(Insert(t, p)) == SeqInsert(InOrder(t), p)
  {
    match t
    case Nil =>
    case Node(l, q, r, h) =>
      if p.weight < q.weight {
        InsertInOrder(l, p);
        InsertLeftInOrder(l, q, r, h, p);
      } else if p.weight > q.weight {
        InsertInOrder(r, p);
        InsertRightInOrder(l, q, r, h, p);
      } else {
        InOrderHasOnlyWeights(l);
        assert InOrder(t) == InOrder(l) + ([q] + InOrder(r));
        SeqInsertAfter(InOrder(l), [q] + InOrder(r), p);
      }
  }

  /** Reference insertion of a record lighter than `q` into `a + [q] + b` happens inside `a`. */
  lemma SeqInsertLeftOf(a: seq<Parcel>, q: Parcel, b: seq<Parcel>, p: Parcel)
    requires p.weight < q.weight
    ensures SeqInsert(a + [q] + b, p) == SeqInsert(a, p) + [q] + b
  {
    assert a + [q] + b == a + ([q] + b);
    SeqInsertBefore(a, [q] + b, p);
    assert SeqInsert(a, p) + [q] + b == SeqInsert(a, p) + ([q] + b);
  }

  /** Reference insertion of a record heavier than `q` and all of `a` into `a + [q] + b` happens inside `b`. */
  lemma SeqInsertRightOf(a: seq<Parcel>, q: Parcel, b: seq<Parcel>, p: Parcel)
    requires q.weight < p.weight
    requires forall i :: 0 <= i < |a| ==> a[i].weight < q.weight
    ensures SeqInsert(a + [q] + b, p) == a + [q] + SeqInsert(b, p)
  {
    assert forall i :: 0 <= i < |a + [q]| ==> (a + [q])[i].weight < p.weight by {
      forall i | 0 <= i < |a + [q]| ensures (a + [q])[i].weight < p.weight {
        if i < |a| { assert (a + [q])[i] == a[i]; }
      }
    }
    SeqInsertAfter(a + [q], b, p);
  }

  /** The step of InsertInOrder for a record that goes into the left subtree. */
  lemma InsertLeftInOrder(l: Tree, q: Parcel, r: Tree, h: int, p: Parcel)
    requires IsAvl(Node(l, q, r, h)) && p.weight < q.weight
    requires InOrder(Insert(l, p)) == SeqInsert(InOrder(l), p)
    ensures InOrder(Insert(Node(l, q, r, h), p)) == SeqInsert(InOrder(Node(l, q, r, h)), p)
  {
    InsertLeftShape(l, q, r, h, p);
    SeqInsertLeftOf(InOrder(l), q, InOrder(r), p);
  }

  /** insert() into the left subtree keeps the right subtree and the node's record in order. */
  lemma InsertLeftShape(l: Tree, q: Parcel, r: Tree, h: int, p: Parcel)
    requires IsAvl(Node(l, q, r, h)) && p.weight < q.weight
    ensures InOrder(Insert(Node(l, q, r, h), p)) == InOrder(Insert(l, p)) + [q] + InOrder(r)
  {
    var l' := Insert(l, p);
    GrowLeft(l, q, r, h, p, l');
    assert Insert(Node(l, q, r, h), p) == Rebalance(l', q, r, p.weight);
  }

  /** The step of InsertInOrder for a record that goes into the right subtree. */
  lemma InsertRightInOrder(l: Tree, q: Parcel, r: Tree, h: int, p: Parcel)
    requires IsAvl(Node(l, q, r, h)) && p.weight > q.weight
    requires InOrder(Insert(r, p)) == SeqInsert(InOrder(r), p)
    ensures InOrder(Insert(Node(l, q, r, h), p)) == SeqInsert(InOrder(Node(l, q, r, h)), p)
  {
    InsertRightShape(l, q, r, h, p);
    InOrderHasOnlyWeights(l);
    SeqInsertRightOf(InOrder(l), q, InOrder(r), p);
  }

  /** insert() into the right subtree keeps the left subtree and the node's record in order. */
  lemma InsertRightShape(l: Tree, q: Parcel, r: Tree, h: int, p: Parcel)
    requires IsAvl(Node(l, q, r, h)) && p.weight > q.weight
    ensures InOrder(Insert(Node(l, q, r, h), p)) == InOrder(l) + [q] + InOrder(Insert(r, p))
  {
    var r' := Insert(r, p);
    GrowRight(l, q, r, h, p, r');
    assert Insert(Node(l, q, r, h), p) == Rebalance(l, q, r', p.weight);
  }

  /** The tail of an ascending list ascends. */
  lemma AscendingTail(s: seq<Parcel>)
    requires Ascending(s) && s != []
    ensures Ascending(s[1..])
  {
    forall i, j | 0 <= i < j < |s[1..]| ensures s[1..][i].weight < s[1..][j].weight {
      assert s[1..][i] == s[i + 1] && s[1..][j] == s[j + 1];
    }
  }

  /** The head of an ascending list is lighter than everything after it. */
  lemma AscendingHead(s: seq<Parcel>)
    requires Ascending(s) && s != []
    ensures forall x :: x in s[1..] ==> s[0].weight < x.weight
  {
    forall x | x in s[1..] ensures s[0].weight < x.weight {
      var k :| 0 <= k < |s[1..]| && s[1..][k] == x;
      assert s[k + 1] == x;
    }
  }

  /** A record that is lighter than every element of an ascending list can be put in front. */
  lemma AscendingCons(x: Parcel, s: seq<Parcel>)
    requires Ascending(s) && forall y :: y in s ==> x.weight < y.weight
    ensures Ascending([x] + s)
  {
    forall i, j | 0 <= i < j < |[x] + s| ensures ([x] + s)[i].weight < ([x] + s)[j].weight {
      assert ([x] + s)[j] == s[j - 1];
      if i > 0 {
        assert ([x] + s)[i] == s[i - 1];
      } else {
        assert s[j - 1] in s;
      }
    }
  }

  /** Reference insertion adds no record other than the new one. */
  lemma {:induction false} SeqInsertElems(s: seq<Parcel>, p: Parcel)
    ensures forall x :: x in SeqInsert(s, p) ==> x in s || x == p
    decreases |s|
  {
    if s != [] && p.weight > s[0].weight {
      SeqInsertElems(s[1..], p);
      assert s == [s[0]] + s[1..];
    }
  }

  /** Reference insertion keeps a list ascending. */
  lemma {:induction false} SeqInsertAscending(s: seq<Parcel>, p: Parcel)
    requires Ascending(s)
    ensures Ascending(SeqInsert(s, p))
    decreases |s|
  {
    if s != [] {
      if p.weight > s[0].weight {
        AscendingTail(s);
        AscendingHead(s);
        SeqInsertAscending(s[1..], p);
        SeqInsertElems(s[1..], p);
        AscendingCons(s[0], SeqInsert(s[1..], p));
      } else if p.weight < s[0].weight {
        AscendingHead(s);
        assert forall y :: y in s ==> p.weight < y.weight by {
          assert s == [s[0]] + s[1..];
        }
        AscendingCons(p, s);
      }
    }
  }

  /** Reference insertion of a weight already in an ascending list keeps the list. */
  lemma {:induction false} SeqInsertPresent(s: seq<Parcel>, p: Parcel, i: nat)
    requires Ascending(s) && i < |s| && s[i].weight == p.weight
    ensures SeqInsert(s, p) == s
    decreases |s|
  {
    if i > 0 {
      assert s[0].weight < s[i].weight;
      AscendingTail(s);
      assert SeqInsert(s, p) == [s[0]] + SeqInsert(s[1..], p);
      assert s[1..][i - 1] == s[i];
      SeqInsertPresent(s[1..], p, i - 1);
      assert s == [s[0]] + s[1..];
    }
  }

  /** Reference insertion of a new weight adds exactly the new record. */
  lemma {:induction false} SeqInsertAbsent(s: seq<Parcel>, p: Parcel)
    requires forall i :: 0 <= i < |s| ==> s[i].weight != p.weight
    ensures multiset(SeqInsert(s, p)) == multiset(s) + multiset{p}
    ensures |SeqInsert(s, p)| == |s| + 1
    decreases |s|
  {
    if s != [] {
      assert s == [s[0]] + s[1..];
      if p.weight > s[0].weight {
        assert forall i :: 0 <= i < |s[1..]| ==> s[1..][i].weight != p.weight by {
          forall i | 0 <= i < |s[1..]| ensures s[1..][i].weight != p.weight {
            assert s[1..][i] == s[i + 1];
          }
        }
        SeqInsertAbsent(s[1..], p);
      } else {
        assert s[0].weight != p.weight;
      }
    }
  }

  /**
   * What insert() does to the tree's records: a weight already present
   * leaves the tree as it was, a new weight adds exactly the new record and
   * one node, and the in-order weights still strictly ascend.
   */
  lemma {:induction false} InsertContent(t: Tree, p: Parcel)
    requires IsAvl(t)
    ensures Ascending(InOrder(Insert(t, p)))
    ensures p.weight in Weights(t) ==> InOrder(Insert(t, p)) == InOrder(t)
    ensures p.weight !in Weights(t) ==>
      && multiset(InOrder(Insert(t, p))) == multiset(InOrder(t)) + multiset{p}
      && |InOrder(Insert(t, p))| == |InOrder(t)| + 1
  {
    OrderedIffAscending(t);
    InsertInOrder(t, p);
    SeqInsertAscending(InOrder(t), p);
    if p.weight in Weights(t) {
      InOrderHasAllWeights(t);
      var i :| 0 <= i < |InOrder(t)| && InOrder(t)[i].weight == p.weight;
      SeqInsertPresent(InOrder(t), p, i);
    } else {
      InOrderHasOnlyWeights(t);
      SeqInsertAbsent(InOrder(t), p);
    }
  }

  /**
   * The property as stated over in-order weights: if the in-order weights of
   * a tree with correct heights and balance strictly ascend, they still do
   * after insert().
   */
  lemma {:induction false} InsertKeepsAscending(t: Tree, p: Parcel)
    requires HeightsCorrect(t) && Balanced(t) && Ascending(InOrder(t))
    ensures Ordered(t)
    ensures IsAvl(Insert(t, p)) && Ascending(InOrder(Insert(t, p)))
  {
    OrderedIffAscending(t);
    OrderedIffAscending(Insert(t, p));
  }

  /** The cached height of every node insert() leaves behind is the true height of its subtree. */
  lemma {:induction false} InsertHeightsTrue(t: Tree, p: Parcel)
    requires IsAvl(t)
    ensures Height(Insert(t, p)) == TrueHeight(Insert(t, p))
    ensures TrueHeight(t) <= TrueHeight(Insert(t, p)) <= TrueHeight(t) + 1
  {
    CachedHeightIsTrue(t);
    CachedHeightIsTrue(Insert(t, p));
  }
}

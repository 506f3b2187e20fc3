/**
 * Read-only queries over one bucket's tree (project.cpp:285-421). What the
 * source prints is returned here as a sequence of records.
 */
module Queries {
  import opened Records
  import opened AvlTree
  import opened AvlProperties

  /** Sum of the weights of a list of records. */
  function SumWeights(s: seq<Parcel>): int
  {
    if s == [] then 0 else s[0].weight + SumWeights(s[1..])
  }

  lemma {:induction false} SumWeightsConcat(a: seq<Parcel>, b: seq<Parcel>)
    ensures SumWeights(a + b) == SumWeights(a) + SumWeights(b)
    decreases |a|
  {
    if a == [] {
      assert a + b == b;
    } else {
      assert (a + b)[1..] == a[1..] + b;
      SumWeightsConcat(a[1..], b);
    }
  }

  /**
   * calculateLoadAndValuation(), weight part: adds every node's weight to
   * the running total, visiting a node before its left and right subtrees.
   * An empty tree leaves the total unchanged.
   */
  method CalculateLoad(root: Tree, totalLoad: int) returns (total: int)
    ensures total == totalLoad + SumWeights(InOrder(root))
    ensures root.Nil? ==> total == totalLoad
    decreases root
  {
    total := totalLoad;
    if root.Node? {
      total := total + root.parcel.weight;
      total := CalculateLoad(root.left, total);
      total := CalculateLoad(root.right, total);
      SumWeightsConcat(InOrder(root.left), [root.parcel]);
      SumWeightsConcat(InOrder(root.left) + [root.parcel], InOrder(root.right));
    }
  }

  /** The total of a bucket grows by the new weight on insertion of a new weight, and not at all on a duplicate. */
  lemma InsertAddsWeight(t: Tree, p: Parcel)
    requires IsAvl(t)
    ensures SumWeights(InOrder(Insert(t, p))) ==
      SumWeights(InOrder(t)) + (if p.weight in Weights(t) then 0 else p.weight)
  {
    InsertInOrder(t, p);
    InOrderHasOnlyWeights(t);
    if p.weight !in Weights(t) {
      SumOfSeqInsert(InOrder(t), p);
    } else {
      InsertContent(t, p);
    }
  }

  lemma {:induction false} SumOfSeqInsert(s: seq<Parcel>, p: Parcel)
    requires forall i :: 0 <= i < |s| ==> s[i].weight != p.weight
    ensures SumWeights(SeqInsert(s, p)) == SumWeights(s) + p.weight
    decreases |s|
  {
    if s != [] && p.weight > s[0].weight {
      assert forall i :: 0 <= i < |s[1..]| ==> s[1..][i].weight != p.weight by {
        forall i | 0 <= i < |s[1..]| ensures s[1..][i].weight != p.weight {
          assert s[1..][i] == s[i + 1];
        }
      }
      SumOfSeqInsert(s[1..], p);
    } else if s != [] {
      assert s[0].weight != p.weight;
      assert ([p] + s)[1..] == s;
    }
  }

  /** Whether searchByWeight() shows a record: strictly above, or strictly below, the threshold. */
  predicate Matches(p: Parcel, threshold: int, higher: bool)
    ensures Matches(p, threshold, higher) ==> p.weight != threshold
    ensures Matches(p, threshold, higher) ==> (higher <==> p.weight > threshold)
  {
    (higher && p.weight > threshold) || (!higher && p.weight < threshold)
  }

  /** The records of a list that match, in their original order. */
  function Filter(s: seq<Parcel>, threshold: int, higher: bool): seq<Parcel>
  {
    if s == [] then []
    else if Matches(s[0], threshold, higher) then [s[0]] + Filter(s[1..], threshold, higher)
    else Filter(s[1..], threshold, higher)
  }

  /** A record is kept by the filter exactly when it is in the list and matches. */
  lemma {:induction false} FilterElems(s: seq<Parcel>, threshold: int, higher: bool)
    ensures forall x :: x in Filter(s, threshold, higher) <==> x in s && Matches(x, threshold, higher)
    decreases |s|
  {
    if s != [] {
      FilterElems(s[1..], threshold, higher);
      assert s == [s[0]] + s[1..];
    }
  }

  lemma {:induction false} FilterConcat(a: seq<Parcel>, b: seq<Parcel>, threshold: int, higher: bool)
    ensures Filter(a + b, threshold, higher) == Filter(a, threshold, higher) + Filter(b, threshold, higher)
    decreases |a|
  {
    if a == [] {
      assert a + b == b;
    } else {
      assert (a + b)[0] == a[0];
      assert (a + b)[1..] == a[1..] + b;
      FilterConcat(a[1..], b, threshold, higher);
    }
  }

  /** What searchByWeight() shows, in the order it shows it, and whether it found anything. */
  datatype SearchResult = SearchResult(shown: seq<Parcel>, found: bool)

  /**
   * searchByWeight(): an in-order walk that shows every record whose weight
   * is strictly above (`higher`) or strictly below (`!higher`) the
   * threshold, and reports whether it showed any.
   */
  function SearchByWeight(root: Tree, threshold: int, higher: bool): (r: SearchResult)
    ensures r.shown == Filter(InOrder(root), threshold, higher)
    ensures r.found <==> r.shown != []
    ensures r.found <==> exists x :: x in InOrder(root) && Matches(x, threshold, higher)
  {
    match root
    case Nil => SearchResult([], false)
    case Node(l, p, rt, _) =>
      var left := SearchByWeight(l, threshold, higher);
      var here := Matches(p, threshold, higher);
      var right := SearchByWeight(rt, threshold, higher);
      var r := SearchResult(left.shown + (if here then [p] else []) + right.shown,
                            right.found || (here || left.found));
      FilterNode(InOrder(l), p, InOrder(rt), threshold, higher);
      FoundIffNonEmpty(InOrder(root), r.shown, threshold, higher);
      r
  }

  /** Filtering a node's dump filters its left subtree, its record and its right subtree in turn. */
  lemma FilterNode(a: seq<Parcel>, p: Parcel, b: seq<Parcel>, threshold: int, higher: bool)
    ensures Filter(a + [p] + b, threshold, higher) ==
      Filter(a, threshold, higher) + (if Matches(p, threshold, higher) then [p] else []) + Filter(b, threshold, higher)
  {
    FilterConcat(a, [p], threshold, higher);
    FilterConcat(a + [p], b, threshold, higher);
    assert Filter([p], threshold, higher) == if Matches(p, threshold, higher) then [p] else [];
  }

  /** A filtered list is non-empty exactly when some element matches. */
  lemma {:induction false} FoundIffNonEmpty(s: seq<Parcel>, f: seq<Parcel>, threshold: int, higher: bool)
    requires f == Filter(s, threshold, higher)
    ensures f != [] <==> exists x :: x in s && Matches(x, threshold, higher)
  {
    FilterElems(s, threshold, higher);
    if f != [] {
      assert f[0] in f;
    }
  }

  /** The records of a list with exactly the given weight. */
  function AtWeight(s: seq<Parcel>, w: int): seq<Parcel>
  {
    if s == [] then [] else (if s[0].weight == w then [s[0]] else []) + AtWeight(s[1..], w)
  }

  /**
   * On a search tree the two searches partition the dump: the records shown
   * for "lower", then the one record (if any) whose weight equals the
   * threshold, which neither search shows, then those shown for "higher".
   * Both searches therefore show their records in ascending weight order.
   */
  lemma ThresholdPartition(root: Tree, threshold: int)
    requires Ordered(root)
    ensures InOrder(root) ==
      SearchByWeight(root, threshold, false).shown
      + AtWeight(InOrder(root), threshold)
      + SearchByWeight(root, threshold, true).shown
    ensures |AtWeight(InOrder(root), threshold)| <= 1
    ensures Ascending(SearchByWeight(root, threshold, true).shown)
    ensures Ascending(SearchByWeight(root, threshold, false).shown)
  {
    OrderedIffAscending(root);
    PartitionAscending(InOrder(root), threshold);
    FilterAscending(InOrder(root), threshold, true);
    FilterAscending(InOrder(root), threshold, false);
  }

  /** Filtering an ascending list keeps it ascending. */
  lemma {:induction false} FilterAscending(s: seq<Parcel>, threshold: int, higher: bool)
    requires Ascending(s)
    ensures Ascending(Filter(s, threshold, higher))
    decreases |s|
  {
    if s != [] {
      AscendingTail(s);
      AscendingHead(s);
      FilterAscending(s[1..], threshold, higher);
      if Matches(s[0], threshold, higher) {
        FilterElems(s[1..], threshold, higher);
        AscendingCons(s[0], Filter(s[1..], threshold, higher));
      }
    }
  }

  lemma {:induction false} PartitionAscending(s: seq<Parcel>, threshold: int)
    requires Ascending(s)
    ensures s == Filter(s, threshold, false) + AtWeight(s, threshold) + Filter(s, threshold, true)
    ensures |AtWeight(s, threshold)| <= 1
    decreases |s|
  {
    if s != [] {
      var t := s[1..];
      AscendingTail(s);
      if s[0].weight < threshold {
        PartitionAscending(t, threshold);
        PartitionBelow(s, threshold);
      } else {
        AscendingHead(s);
        AllAbove(t, threshold, s[0].weight);
        PartitionHead(s, threshold);
      }
    }
  }

  /** The partition of a list whose head is below the threshold extends that of its tail. */
  lemma PartitionBelow(s: seq<Parcel>, threshold: int)
    requires s != [] && s[0].weight < threshold
    requires s[1..] == Filter(s[1..], threshold, false) + AtWeight(s[1..], threshold) + Filter(s[1..], threshold, true)
    ensures s == Filter(s, threshold, false) + AtWeight(s, threshold) + Filter(s, threshold, true)
    ensures AtWeight(s, threshold) == AtWeight(s[1..], threshold)
  {
    var t := s[1..];
    var lo, at, hi := Filter(t, threshold, false), AtWeight(t, threshold), Filter(t, threshold, true);
    assert Filter(s, threshold, false) == [s[0]] + lo;
    assert AtWeight(s, threshold) == at;
    assert Filter(s, threshold, true) == hi;
    assert s == [s[0]] + t;
    assert [s[0]] + (lo + at + hi) == [s[0]] + lo + at + hi;
  }

  /** The partition of an ascending list whose head is not below the threshold. */
  lemma PartitionHead(s: seq<Parcel>, threshold: int)
    requires s != [] && s[0].weight >= threshold
    requires Filter(s[1..], threshold, false) == [] && AtWeight(s[1..], threshold) == []
    requires Filter(s[1..], threshold, true) == s[1..]
    ensures s == Filter(s, threshold, false) + AtWeight(s, threshold) + Filter(s, threshold, true)
    ensures |AtWeight(s, threshold)| <= 1
  {
    var t := s[1..];
    assert Filter(s, threshold, false) == [];
    if s[0].weight == threshold {
      assert AtWeight(s, threshold) == [s[0]];
      assert Filter(s, threshold, true) == t;
      assert [] + [s[0]] + t == s;
    } else {
      assert AtWeight(s, threshold) == [];
      assert Filter(s, threshold, true) == [s[0]] + t;
      assert [] + [] + ([s[0]] + t) == s;
    }
  }

  /** Every record of a list heavier than `floor >= threshold` goes to the "higher" side. */
  lemma {:induction false} AllAbove(s: seq<Parcel>, threshold: int, floor: int)
    requires floor >= threshold && forall x :: x in s ==> floor < x.weight
    ensures Filter(s, threshold, false) == [] && AtWeight(s, threshold) == []
    ensures Filter(s, threshold, true) == s
    decreases |s|
  {
    if s != [] {
      assert s[0] in s;
      assert forall x :: x in s[1..] ==> x in s;
      AllAbove(s[1..], threshold, floor);
      assert s == [s[0]] + s[1..];
    }
  }

  /**
   * minValueNode(): follows left children from a non-empty root. The record
   * reached is the first of the in-order dump, and on a search tree the
   * lightest record of the tree.
   */
  method MinValueNode(root: Tree) returns (m: Parcel)
    requires root.Node?
    ensures |InOrder(root)| > 0 && m == InOrder(root)[0]
    ensures Ordered(root) ==> forall x :: x in InOrder(root) ==> m.weight <= x.weight
  {
    var current := root;
    while current.left.Node?
      invariant current.Node?
      invariant |InOrder(current)| > 0 && InOrder(current)[0] == InOrder(root)[0]
      decreases current
    {
      current := current.left;
    }
    m := current.parcel;
    OrderedIffAscending(root);
    if Ordered(root) {
      forall x | x in InOrder(root) ensures m.weight <= x.weight {
        var k :| 0 <= k < |InOrder(root)| && InOrder(root)[k] == x;
        assert k == 0 || InOrder(root)[0].weight < InOrder(root)[k].weight;
      }
    }
  }

  /**
   * maxValueNode(): follows right children from a non-empty root. The
   * record reached is the last of the in-order dump, and on a search tree
   * the heaviest record of the tree.
   */
  method MaxValueNode(root: Tree) returns (m: Parcel)
    requires root.Node?
    ensures |InOrder(root)| > 0 && m == InOrder(root)[|InOrder(root)| - 1]
    ensures Ordered(root) ==> forall x :: x in InOrder(root) ==> x.weight <= m.weight
  {
    var current := root;
    while current.right.Node?
      invariant current.Node?
      invariant |InOrder(current)| > 0
      invariant InOrder(current)[|InOrder(current)| - 1] == InOrder(root)[|InOrder(root)| - 1]
      decreases current
    {
      current := current.right;
    }
    m := current.parcel;
    OrderedIffAscending(root);
    if Ordered(root) {
      var s := InOrder(root);
      forall x | x in s ensures x.weight <= m.weight {
        var k :| 0 <= k < |s| && s[k] == x;
        assert k == |s| - 1 || s[k].weight < s[|s| - 1].weight;
      }
    }
  }

  /** What the lightest/heaviest menu queries end in. */
  datatype Extremes = NullDereference | NoParcels | Found(lightest: Parcel, heaviest: Parcel)

  /**
   * The lightest/heaviest queries of the menu (cases 4 and 5) as written:
   * minValueNode() and maxValueNode() run on the bucket's root before the
   * emptiness guard, so an empty bucket dereferences null, and the
   * guard, which tests the two non-null results, always holds.
   */
  method ExtremesAsWritten(root: Tree) returns (e: Extremes)
    ensures root.Nil? <==> e.NullDereference?
    ensures !e.NoParcels?
    ensures e.Found? ==> e.lightest == InOrder(root)[0] && e.heaviest == InOrder(root)[|InOrder(root)| - 1]
  {
    if root.Nil? {
      return NullDereference;
    }
    var lo := MinValueNode(root);
    var hi := MaxValueNode(root);
    e := Found(lo, hi);
  }

  /**
   * The lightest/heaviest queries with the emptiness check first: an empty
   * bucket reports "no parcels", otherwise the lightest and heaviest records
   * of the search tree.
   */
  method ExtremesOf(root: Tree) returns (e: Extremes)
    ensures root.Nil? <==> e.NoParcels?
    ensures !e.NullDereference?
    ensures e.Found? ==> e.lightest == InOrder(root)[0] && e.heaviest == InOrder(root)[|InOrder(root)| - 1]
    ensures e.Found? && Ordered(root) ==>
      forall x :: x in InOrder(root) ==> e.lightest.weight <= x.weight <= e.heaviest.weight
  {
    if root.Nil? {
      return NoParcels;
    }
    var lo := MinValueNode(root);
    var hi := MaxValueNode(root);
    e := Found(lo, hi);
  }

  /**
   * freeAVLTree(): the order in which nodes are released, left subtree,
   * right subtree, then the node itself. Every record is released exactly
   * once.
   */
  function ReleaseOrder(root: Tree): (s: seq<Parcel>)
    ensures multiset(s) == multiset(InOrder(root))
  {
    match root
    case Nil => []
    case Node(l, p, r, _) => ReleaseOrder(l) + ReleaseOrder(r) + [p]
  }
}

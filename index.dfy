/**
 * The bucketed index (project.cpp:28-32, 219-250, 303-323): 127 tree roots
 * in a fixed array, one per djb2 bucket. Destinations whose hashes collide
 * share one tree, ordered by weight alone.
 */
module BucketIndex {
  import opened Records
  import opened Hasher
  import opened AvlTree
  import opened AvlProperties
  import opened Queries

  datatype Option<T> = None | Some(value: T)

  class HashTable {
    var table: array<Tree>

    /** Every slot holds an AVL tree keyed by weight. */
    ghost predicate Valid()
      reads this, table
    {
      table.Length == TableSize && forall i :: 0 <= i < table.Length ==> IsAvl(table[i])
    }

    /** Declaring a `HashTable`: 127 slots whose contents are not yet defined. */
    constructor ()
      ensures table.Length == TableSize && fresh(table)
    {
      table := new Tree[TableSize];
    }

    /** initHashTable(): every slot becomes empty. */
    method InitHashTable()
      requires table.Length == TableSize
      modifies table
      ensures Valid()
      ensures forall i :: 0 <= i < table.Length ==> table[i] == Nil
    {
      for i := 0 to TableSize
        invariant forall j :: 0 <= j < i ==> table[j] == Nil
      {
        table[i] := Nil;
      }
    }

    /**
     * insertParcel(): inserts the record into the tree of the destination's
     * bucket and stores the new root there; no other slot changes. The node
     * keeps a copy of the destination's C string.
     */
    method InsertParcel(destination: seq<byte>, weight: int, valuation: real)
      requires Valid()
      modifies table
      ensures Valid()
      ensures table[Bucket(destination)] ==
        Insert(old(table[Bucket(destination)]), Parcel(CPrefix(destination), weight, valuation))
      ensures forall i :: 0 <= i < table.Length && i != Bucket(destination) ==> table[i] == old(table[i])
    {
      var index := Hash(destination);
      table[index] := Insert(table[index], Parcel(CPrefix(destination), weight, valuation));
    }

    /** The tree a destination's queries run on: the root stored in its bucket. */
    method BucketFor(country: seq<byte>) returns (root: Tree)
      requires Valid()
      ensures root == table[Bucket(country)]
      ensures IsAvl(root)
    {
      var index := Hash(country);
      root := table[index];
    }

    /**
     * searchAndDisplay(): the in-order dump of the destination's bucket, or
     * None (the "no parcels found" message) when that bucket is empty.
     */
    method SearchAndDisplay(country: seq<byte>) returns (shown: Option<seq<Parcel>>)
      requires Valid()
      ensures shown.None? <==> table[Bucket(country)].Nil?
      ensures shown.Some? ==> shown.value == InOrder(table[Bucket(country)]) && Ascending(shown.value)
    {
      var index := Hash(country);
      if table[index] != Nil {
        OrderedIffAscending(table[index]);
        shown := Some(InOrder(table[index]));
      } else {
        shown := None;
      }
    }

    /** The lightest and heaviest records for a destination, or "no parcels" for an empty bucket. */
    method ExtremesFor(country: seq<byte>) returns (e: Extremes)
      requires Valid()
      ensures table[Bucket(country)].Nil? <==> e.NoParcels?
      ensures !e.NullDereference?
      ensures e.Found? ==>
        var dump := InOrder(table[Bucket(country)]);
        && e.lightest == dump[0] && e.heaviest == dump[|dump| - 1]
        && forall x :: x in dump ==> e.lightest.weight <= x.weight <= e.heaviest.weight
    {
      var root := BucketFor(country);
      e := ExtremesOf(root);
    }
  }

  /** The bytes of "Alpha", "Beta", "Bf" and "Peru". */
  const Alpha: seq<byte> := [65, 108, 112, 104, 97]
  const Beta: seq<byte> := [66, 101, 116, 97]
  const Bf: seq<byte> := [66, 102]
  const Peru: seq<byte> := [80, 101, 114, 117]

  /** djb2 buckets of three destinations: "Alpha" and "Bf" collide, "Beta" does not. */
  lemma AlphaBucket()
    ensures Bucket(Alpha) == 123
  {
    CPrefixOfNulFree(Alpha);
    var s0: seq<byte> := [];
    var s1 := s0 + [65];
    Djb2Snoc(s0, 65);
    assert Djb2(s1) == 177638;
    var s2 := s1 + [108];
    Djb2Snoc(s1, 108);
    assert Djb2(s2) == 5862162;
    var s3 := s2 + [112];
    Djb2Snoc(s2, 112);
    assert Djb2(s3) == 193451458;
    var s4 := s3 + [104];
    Djb2Snoc(s3, 104);
    assert Djb2(s4) == 2088930922;
    var s5 := s4 + [97];
    Djb2Snoc(s4, 97);
    assert Djb2(s5) == 215243787;
    assert s5 == Alpha;
  }

  lemma BetaBucket()
    ensures Bucket(Beta) == 115
  {
    CPrefixOfNulFree(Beta);
    var s0: seq<byte> := [];
    var s1 := s0 + [66];
    Djb2Snoc(s0, 66);
    assert Djb2(s1) == 177639;
    var s2 := s1 + [101];
    Djb2Snoc(s1, 101);
    assert Djb2(s2) == 5862188;
    var s3 := s2 + [116];
    Djb2Snoc(s2, 116);
    assert Djb2(s3) == 193452320;
    var s4 := s3 + [97];
    Djb2Snoc(s3, 97);
    assert Djb2(s4) == 2088959361;
    assert s4 == Beta;
  }

  lemma BfBucket()
    ensures Bucket(Bf) == 123
  {
    CPrefixOfNulFree(Bf);
    var s0: seq<byte> := [];
    var s1 := s0 + [66];
    Djb2Snoc(s0, 66);
    assert Djb2(s1) == 177639;
    var s2 := s1 + [102];
    Djb2Snoc(s1, 102);
    assert Djb2(s2) == 5862189;
    assert s2 == Bf;
  }

  lemma PeruBucket()
    ensures Bucket(Peru) == 13
  {
    CPrefixOfNulFree(Peru);
    var s0: seq<byte> := [];
    var s1 := s0 + [80];
    Djb2Snoc(s0, 80);
    assert Djb2(s1) == 177653;
    var s2 := s1 + [101];
    Djb2Snoc(s1, 101);
    assert Djb2(s2) == 5862650;
    var s3 := s2 + [114];
    Djb2Snoc(s2, 114);
    assert Djb2(s3) == 193467564;
    var s4 := s3 + [117];
    Djb2Snoc(s3, 117);
    assert Djb2(s4) == 2089462433;
    assert s4 == Peru;
  }

  /** "Alpha", "Beta", "Bf" and "Peru" meet what Scenario asks of its destinations. */
  lemma ScenarioDestinations()
    ensures NulFree(Alpha) && NulFree(Beta) && NulFree(Bf) && NulFree(Peru)
    ensures Bucket(Alpha) == Bucket(Bf) && Bucket(Alpha) != Bucket(Beta)
    ensures Bucket(Peru) != Bucket(Alpha) && Bucket(Peru) != Bucket(Beta)
  {
    AlphaBucket();
    BetaBucket();
    BfBucket();
    PeruBucket();
  }

  /** The trees insert() builds from 10, then 20, then 7 on an empty bucket. */
  lemma GrowAlphaTree(a10: Parcel, a20: Parcel, bf7: Parcel)
    requires a10.weight == 10 && a20.weight == 20 && bf7.weight == 7
    ensures Insert(Nil, a10) == NewNode(a10)
    ensures Insert(NewNode(a10), a20) == Node(Nil, a10, NewNode(a20), 2)
    ensures IsAvl(Node(Nil, a10, NewNode(a20), 2))
    ensures Insert(Node(Nil, a10, NewNode(a20), 2), bf7) == Node(NewNode(bf7), a10, NewNode(a20), 2)
  {
    assert Insert(NewNode(a10), a20) == Rebalance(Nil, a10, NewNode(a20), 20);
    var u := Node(Nil, a10, NewNode(a20), 2);
    assert Insert(u, bf7) == Rebalance(NewNode(bf7), a10, NewNode(a20), 7);
  }

  /**
   * A client run: records for destination `a` (weights 10 and 20) and `b`
   * (5), then one for `c` (weight 7), which shares `a`'s bucket and so shows
   * up in `a`'s dump, load and lightest record. "Alpha", "Beta" and "Bf" are
   * such destinations (see AlphaBucket, BetaBucket, BfBucket). A lookup of a
   * destination `d` that hashes elsewhere finds nothing.
   */
  method Scenario(a: seq<byte>, b: seq<byte>, c: seq<byte>, d: seq<byte>)
    returns (dumpA: seq<Parcel>, dumpB: seq<Parcel>, load: int, lightest: int, heaviest: int,
             unseen: Option<seq<Parcel>>, unseenExtremes: Extremes)
    requires NulFree(a) && NulFree(b) && NulFree(c)
    requires Bucket(a) == Bucket(c) && Bucket(a) != Bucket(b)
    requires Bucket(d) != Bucket(a) && Bucket(d) != Bucket(b)
    ensures dumpB == [Parcel(b, 5, 2.25)]
    ensures dumpA == [Parcel(c, 7, 1.0), Parcel(a, 10, 5.0), Parcel(a, 20, 15.5)]
    ensures load == 37 && lightest == 7 && heaviest == 20
    ensures unseen == None && unseenExtremes == NoParcels
  {
    CPrefixOfNulFree(a);
    CPrefixOfNulFree(b);
    CPrefixOfNulFree(c);
    var a10, a20 := Parcel(a, 10, 5.0), Parcel(a, 20, 15.5);
    var b5, c7 := Parcel(b, 5, 2.25), Parcel(c, 7, 1.0);
    GrowAlphaTree(a10, a20, c7);
    var ht := new HashTable();
    ht.InitHashTable();
    ht.InsertParcel(a, 10, 5.0);
    assert ht.table[Bucket(a)] == NewNode(a10) && ht.table[Bucket(b)] == Nil && ht.table[Bucket(d)] == Nil;
    ht.InsertParcel(a, 20, 15.5);
    assert ht.table[Bucket(a)] == Node(Nil, a10, NewNode(a20), 2);
    assert ht.table[Bucket(b)] == Nil && ht.table[Bucket(d)] == Nil;
    ht.InsertParcel(b, 5, 2.25);
    assert ht.table[Bucket(b)] == NewNode(b5) && ht.table[Bucket(d)] == Nil;
    ht.InsertParcel(c, 7, 1.0);
    assert ht.table[Bucket(a)] == Node(NewNode(c7), a10, NewNode(a20), 2);
    assert ht.table[Bucket(b)] == NewNode(b5) && ht.table[Bucket(d)] == Nil;
    var treeA := ht.BucketFor(a);
    var treeB := ht.BucketFor(b);
    assert treeA == Node(NewNode(c7), a10, NewNode(a20), 2);
    dumpA, dumpB := InOrder(treeA), InOrder(treeB);
    assert dumpA == [c7, a10, a20];
    assert SumWeights(dumpA) == 7 + SumWeights([a10, a20]);
    assert SumWeights([a10, a20]) == 10 + SumWeights([a20]);
    load := CalculateLoad(treeA, 0);
    var lo := MinValueNode(treeA);
    var hi := MaxValueNode(treeA);
    lightest, heaviest := lo.weight, hi.weight;
    unseen := ht.SearchAndDisplay(d);
    unseenExtremes := ht.ExtremesFor(d);
  }
}

/**
 * `PlanetIndex`: an index of planets ordered by a key drawn from each planet,
 * kept as an unbalanced binary search tree, with its invariant checker.
 */
module PlanetIndexes {
  import opened Wrappers
  import opened Planets
  import opened SearchTrees
  import opened Traversals

  /**
   * `countNodes`: the number of nodes below `r`, or -1 once the descent is
   * `size` levels deep (the guard that stops it on a cyclic structure).
   */
  function CountNodes(r: Tree, d: int, size: int): (c: int)
    ensures c == -1 || c == Count(r)
    decreases r
  {
    match r
    case Nil => 0
    case Node(left, _, right) =>
      if d >= size then -1
      else
        var n1 := CountNodes(left, d + 1, size);
        var n2 := CountNodes(right, d + 1, size);
        if n1 == -1 || n2 == -1 then -1 else 1 + n1 + n2
  }

  /** `countNodes` counts the nodes exactly when the subtree fits in the remaining depth. */
  lemma {:induction false} CountNodesDepth(r: Tree, d: int, size: int)
    ensures CountNodes(r, d, size) ==
      if r.Nil? then 0 else if d + Height(r) <= size then Count(r) else -1
  {
    if r.Node? && d < size {
      CountNodesDepth(r.left, d + 1, size);
      CountNodesDepth(r.right, d + 1, size);
    }
  }

  /** The per-node checks of `okTree` that pass for record `x` under the inherited bounds. */
  predicate InBounds(key: Extractor, x: Planet, lo: Option<int>, hi: Option<int>, p1: Option<Planet>, p2: Option<Planet>)
  {
    && key(x).Some?
    && (lo.Some? ==> lo.value <= key(x).value)
    && (hi.Some? ==> key(x).value <= hi.value)
    && (p1.Some? && key(p1.value) == key(x) ==> CompareTo(p1.value, x) < 0)
    && (p2.Some? && key(p2.value) == key(x) ==> CompareTo(p2.value, x) > 0)
  }

  /**
   * `okTree`: every key lies in the inclusive bounds `lo`..`hi`, and a record with
   * the same key as the exclusive record bound `p1` (`p2`) lies strictly above
   * (below) it; the bounds are narrowed at each node on the way down.
   */
  function OkTree(key: Extractor, r: Tree, lo: Option<int>, hi: Option<int>, p1: Option<Planet>, p2: Option<Planet>): (ok: bool)
    ensures ok ==> Keyed(key, r)
  {
    match r
    case Nil => true
    case Node(left, p, right) =>
      var k := key(p);
      if k.None? then false
      else if lo.Some? && lo.value > k.value then false
      else if hi.Some? && hi.value < k.value then false
      else if p1.Some? && key(p1.value) == k && CompareTo(p1.value, p) >= 0 then false
      else if p2.Some? && key(p2.value) == k && CompareTo(p2.value, p) <= 0 then false
      else OkTree(key, left, lo, k, p1, Some(p)) && OkTree(key, right, k, hi, Some(p), p2)
  }

  /** A record bound always comes from a node whose key is the matching key bound. */
  predicate BoundsAgree(key: Extractor, b: Option<int>, p: Option<Planet>)
  {
    p.Some? ==> b == key(p.value)
  }

  lemma LeftChildBounds(key: Extractor, x: Planet, p: Planet, lo: Option<int>, hi: Option<int>, p1: Option<Planet>, p2: Option<Planet>)
    requires BoundsAgree(key, hi, p2) && InBounds(key, p, lo, hi, p1, p2)
    ensures InBounds(key, x, lo, key(p), p1, Some(p)) <==> InBounds(key, x, lo, hi, p1, p2) && Precedes(key, x, p)
  {
    CompareToFlip(p, x);
    if InBounds(key, x, lo, key(p), p1, Some(p)) && p2.Some? && key(p2.value) == key(x) {
      CompareToFlip(p2.value, p);
      CompareToFlip(p2.value, x);
      if key(x) == key(p) {
        CompareToTransitive(x, p, p2.value);
      }
    }
  }

  lemma RightChildBounds(key: Extractor, y: Planet, p: Planet, lo: Option<int>, hi: Option<int>, p1: Option<Planet>, p2: Option<Planet>)
    requires BoundsAgree(key, lo, p1) && InBounds(key, p, lo, hi, p1, p2)
    ensures InBounds(key, y, key(p), hi, Some(p), p2) <==> InBounds(key, y, lo, hi, p1, p2) && Precedes(key, p, y)
  {
    if InBounds(key, y, key(p), hi, Some(p), p2) && p1.Some? && key(p1.value) == key(y) {
      if key(y) == key(p) {
        CompareToTransitive(p1.value, p, y);
      }
    }
  }

  /**
   * With consistent bounds, `okTree` holds exactly for a search tree all of whose
   * records pass the inherited bounds.
   */
  lemma {:induction false} OkTreeIff(key: Extractor, t: Tree, lo: Option<int>, hi: Option<int>, p1: Option<Planet>, p2: Option<Planet>)
    requires BoundsAgree(key, lo, p1) && BoundsAgree(key, hi, p2)
    ensures OkTree(key, t, lo, hi, p1, p2) <==>
      SearchTree(key, t) && forall x :: x in Contents(t) ==> InBounds(key, x, lo, hi, p1, p2)
  {
    match t
    case Nil =>
    case Node(l, p, r) =>
      if InBounds(key, p, lo, hi, p1, p2) {
        var k := key(p);
        OkTreeIff(key, l, lo, k, p1, Some(p));
        OkTreeIff(key, r, k, hi, Some(p), p2);
        forall x | x in Contents(l)
          ensures InBounds(key, x, lo, k, p1, Some(p)) <==> InBounds(key, x, lo, hi, p1, p2) && Precedes(key, x, p)
        {
          LeftChildBounds(key, x, p, lo, hi, p1, p2);
        }
        forall y | y in Contents(r)
          ensures InBounds(key, y, k, hi, Some(p), p2) <==> InBounds(key, y, lo, hi, p1, p2) && Precedes(key, p, y)
        {
          RightChildBounds(key, y, p, lo, hi, p1, p2);
        }
      }
  }

  /** The unbounded check at the root holds exactly for search trees. */
  lemma OkTreeRoot(key: Extractor, t: Tree)
    ensures OkTree(key, t, None, None, None, None) <==> SearchTree(key, t)
  {
    OkTreeIff(key, t, None, None, None, None);
  }

  /** `wellFormed` as written: the order check, then `countNodes(root, 0) == size`. */
  function WellFormedAsWritten(key: Extractor, root: Tree, size: int): (ok: bool)
    ensures ok ==> Keyed(key, root) && (size == Count(root) || size == -1)
  {
    OkTree(key, root, None, None, None, None) && CountNodes(root, 0, size) == size
  }

  /**
   * What `wellFormed` as written accepts: a search tree whose size is right, or
   * any non-empty search tree with `size == -1`, because the -1 that `countNodes`
   * returns when it gives up is then equal to `size`.
   */
  lemma WellFormedAsWrittenAccepts(key: Extractor, root: Tree, size: int)
    ensures WellFormedAsWritten(key, root, size) <==>
      SearchTree(key, root) && (Count(root) == size || (root != Nil && size == -1))
  {
    OkTreeRoot(key, root);
    CountNodesDepth(root, 0, size);
    HeightAtMostCount(root);
  }

  /** A one-node tree with `size == -1` passes the check as written. */
  lemma WellFormedAsWrittenMissesNegativeSize(key: Extractor, p: Planet)
    requires key(p).Some?
    ensures WellFormedAsWritten(key, Node(Nil, p, Nil), -1)
    ensures Count(Node(Nil, p, Nil)) != -1
  {
    WellFormedAsWrittenAccepts(key, Node(Nil, p, Nil), -1);
  }

  /** A key extractor for the example below: the length of the record's rendering. */
  function LengthKey(p: Planet): Option<int>
  {
    Some(|p.dataString|)
  }

  /** A one-node tree traverses to its record in every order (an unfolding hint for the example). */
  lemma LeafTraversal(p: Planet, order: Traversal)
    ensures Traverse(Node(Nil, p, Nil), order) == [p]
  {
    assert [p] + [] + [] == [] + [p] + [] == [] + [] + [p] == [p];
  }

  /** The three traversals of the tree that the example below builds. */
  lemma ExampleTraversals(a: Planet, b: Planet, c: Planet, d: Planet, e: Planet)
    ensures var t := ExampleTree(a, b, c, d, e);
      && Traverse(t, PreOrder) == [c, a, b, e, d]
      && Traverse(t, PostOrder) == [b, a, d, e, c]
      && Traverse(t, InOrder) == [a, b, c, d, e]
  {
    var l, r := Node(Nil, a, Node(Nil, b, Nil)), Node(Node(Nil, d, Nil), e, Nil);
    LeafTraversal(b, PreOrder);
    LeafTraversal(d, PreOrder);
    LeafTraversal(b, PostOrder);
    LeafTraversal(d, PostOrder);
    LeafTraversal(b, InOrder);
    LeafTraversal(d, InOrder);
    assert Traverse(l, PreOrder) == [a, b];
    assert Traverse(r, PreOrder) == [e, d];
    assert Traverse(l, PostOrder) == [b, a];
    assert Traverse(r, PostOrder) == [d, e];
    assert Traverse(l, InOrder) == [a, b];
    assert Traverse(r, InOrder) == [d, e];
  }

  /**
   * The records of the example below, renderings "a", "bb", "ccc", "dddd" and
   * "eeeee" as UTF-16 code units; `LengthKey` gives them the keys 1 to 5.
   */
  predicate ExampleRecords(a: Planet, b: Planet, c: Planet, d: Planet, e: Planet)
  {
    a == Planet([0x61]) && b == Planet([0x62, 0x62]) && c == Planet([0x63, 0x63, 0x63])
    && d == Planet([0x64, 0x64, 0x64, 0x64]) && e == Planet([0x65, 0x65, 0x65, 0x65, 0x65])
  }

  /** The index of the example below after its last `add`. */
  function ExampleTree(a: Planet, b: Planet, c: Planet, d: Planet, e: Planet): Tree
  {
    Node(Node(Nil, a, Node(Nil, b, Nil)), c, Node(Node(Nil, d, Nil), e, Nil))
  }

  /** The first three `add`s of the example below. */
  lemma ExampleAddsRight(a: Planet, b: Planet, c: Planet, d: Planet, e: Planet)
    requires ExampleRecords(a, b, c, d, e)
    ensures Insert(LengthKey, Nil, c) == Node(Nil, c, Nil)
    ensures Insert(LengthKey, Node(Nil, c, Nil), e) == Node(Nil, c, Node(Nil, e, Nil))
    ensures Insert(LengthKey, Node(Nil, c, Node(Nil, e, Nil)), d) == Node(Nil, c, Node(Node(Nil, d, Nil), e, Nil))
  {
  }

  /** The last two `add`s of the example below. */
  lemma ExampleAddsLeft(a: Planet, b: Planet, c: Planet, d: Planet, e: Planet)
    requires ExampleRecords(a, b, c, d, e)
    ensures Insert(LengthKey, Node(Nil, c, Node(Node(Nil, d, Nil), e, Nil)), a)
      == Node(Node(Nil, a, Nil), c, Node(Node(Nil, d, Nil), e, Nil))
    ensures Insert(LengthKey, Node(Node(Nil, a, Nil), c, Node(Node(Nil, d, Nil), e, Nil)), b) == ExampleTree(a, b, c, d, e)
  {
    assert Insert(LengthKey, Node(Nil, a, Nil), b) == Node(Nil, a, Node(Nil, b, Nil));
  }

  /**
   * Records with keys 3, 5, 4, 1, 2 added in that order to an empty index are
   * handed over in pre-order as 3 1 2 5 4, in post-order as 2 1 4 5 3 and in
   * order as 1 2 3 4 5.
   */
  lemma AddThenVisitExample(a: Planet, b: Planet, c: Planet, d: Planet, e: Planet)
    requires ExampleRecords(a, b, c, d, e)
    ensures var t := Insert(LengthKey, Insert(LengthKey, Insert(LengthKey, Insert(LengthKey, Insert(LengthKey, Nil, c), e), d), a), b);
      && Visit(LengthKey, t, None, None, PreOrder) == [c, a, b, e, d]
      && Visit(LengthKey, t, None, None, PostOrder) == [b, a, d, e, c]
      && Visit(LengthKey, t, None, None, InOrder) == [a, b, c, d, e]
  {
    ExampleAddsRight(a, b, c, d, e);
    ExampleAddsLeft(a, b, c, d, e);
    var t1 := Node(Nil, c, Nil);
    var t2 := Node(Nil, c, Node(Nil, e, Nil));
    var t3 := Node(Nil, c, Node(Node(Nil, d, Nil), e, Nil));
    var t4 := Node(Node(Nil, a, Nil), c, Node(Node(Nil, d, Nil), e, Nil));
    var t := ExampleTree(a, b, c, d, e);
    InsertSearchTree(LengthKey, Nil, c);
    InsertSearchTree(LengthKey, t1, e);
    InsertSearchTree(LengthKey, t2, d);
    InsertSearchTree(LengthKey, t3, a);
    InsertSearchTree(LengthKey, t4, b);
    ExampleTraversals(a, b, c, d, e);
    VisitIsFilter(LengthKey, t, None, None, PreOrder);
    FilterUnbounded(LengthKey, Traverse(t, PreOrder));
    VisitIsFilter(LengthKey, t, None, None, PostOrder);
    FilterUnbounded(LengthKey, Traverse(t, PostOrder));
    VisitIsFilter(LengthKey, t, None, None, InOrder);
    FilterUnbounded(LengthKey, Traverse(t, InOrder));
  }

  class PlanetIndex {
    const keyExtractor: Extractor
    var root: Tree
    var size: int

    /**
     * `wellFormed`, with the count check corrected so that the -1 of
     * `countNodes` is never taken for a node count.
     */
    function WellFormed(): (ok: bool)
      reads this
      ensures ok <==> SearchTree(keyExtractor, root) && size == Count(root)
    {
      WellFormedAsWrittenAccepts(keyExtractor, root, size);
      CountNodesDepth(root, 0, size);
      var n := CountNodes(root, 0, size);
      OkTree(keyExtractor, root, None, None, None, None) && n != -1 && n == size
    }

    constructor (ex: Extractor)
      ensures keyExtractor == ex && root == Nil && size == 0
      ensures WellFormed()
    {
      keyExtractor := ex;
      root := Nil;
      size := 0;
    }

    /** `size()`: the number of distinct records stored. */
    function Size(): (n: int)
      reads this
      requires WellFormed()
      ensures n == |Contents(root)|
    {
      SearchTreeCount(keyExtractor, root);
      size
    }

    /**
     * `add`: a record with a null key is refused; otherwise the record is
     * inserted unless one equal under `compareTo` is already stored.
     */
    method Add(p: Planet) returns (added: bool)
      requires WellFormed()
      modifies this
      ensures WellFormed()
      ensures keyExtractor(p).None? ==> !added && root == old(root) && size == old(size)
      ensures keyExtractor(p).Some? ==> root == Insert(keyExtractor, old(root), p)
      ensures added <==> keyExtractor(p).Some? && p !in old(Contents(root))
      ensures added <==> size == old(size) + 1
      ensures !added ==> root == old(root) && size == old(size)
      ensures added ==> LeafAdded(old(root), root, p)
      ensures Contents(root) == if keyExtractor(p).Some? then old(Contents(root)) + {p} else old(Contents(root))
    {
      var key := keyExtractor(p);
      if key.None? {
        return false;
      }
      var oldSize := size;
      root := DoAdd(root, p, key.value);
      added := oldSize < size;
      InsertSearchTree(keyExtractor, old(root), p);
      if p in old(Contents(root)) {
        InsertExisting(keyExtractor, old(root), p);
      } else {
        InsertNew(keyExtractor, old(root), p);
      }
    }

    /** `doAdd`: the recursive descent, counting the new leaf in `size`. */
    method DoAdd(r: Tree, p: Planet, key: int) returns (t: Tree)
      requires keyExtractor(p) == Some(key) && Keyed(keyExtractor, r)
      modifies this`size
      ensures t == Insert(keyExtractor, r, p)
      ensures size == old(size) + Count(t) - Count(r)
      decreases r
    {
      if r.Nil? {
        size := size + 1;
        return Node(Nil, p, Nil);
      }
      var here := keyExtractor(r.data).value;
      var c := CompareKeys(key, here);
      if c == 0 {
        c := CompareTo(p, r.data);
      }
      if c == 0 {
        return r;
      }
      if c < 0 {
        var l := DoAdd(r.left, p, key);
        t := Node(l, r.data, r.right);
      } else {
        var rt := DoAdd(r.right, p, key);
        t := Node(r.left, r.data, rt);
      }
    }

    /** `addAll(Collection)`: `add` each record in iteration order. */
    method AddAll(coll: seq<Planet>)
      requires WellFormed()
      modifies this
      ensures WellFormed()
      ensures root == InsertAll(keyExtractor, old(root), coll)
      ensures Contents(root) == old(Contents(root)) + KeyedRecords(keyExtractor, coll)
    {
      for i := 0 to |coll|
        invariant WellFormed()
        invariant root == InsertAll(keyExtractor, old(root), coll[..i])
      {
        var _ := Add(coll[i]);
        assert coll[..i + 1][..i] == coll[..i];
      }
      assert coll[..|coll|] == coll;
    }

    /**
     * `doAll`: the records whose key lies in the inclusive range (an absent
     * bound is no bound), in the order the visitor would receive them.
     */
    function DoAll(lo: Option<int>, hi: Option<int>, order: Traversal): (visited: seq<Planet>)
      reads this
      requires WellFormed()
      ensures visited == Filter(keyExtractor, Traverse(root, order), lo, hi)
      ensures forall x :: x in visited <==> x in Contents(root) && InRange(keyExtractor, x, lo, hi)
      ensures order == InOrder ==> Sorted(keyExtractor, visited)
      ensures lo.Some? && hi.Some? && lo.value > hi.value ==> visited == []
    {
      VisitIsFilter(keyExtractor, root, lo, hi, order);
      FilterMembers(keyExtractor, Traverse(root, order), lo, hi);
      TraverseContents(root, order);
      InOrderVisitSorted(keyExtractor, root, lo, hi);
      if lo.Some? && hi.Some? && lo.value > hi.value then
        InvertedRangeVisitsNothing(keyExtractor, root, lo, hi, order);
        Visit(keyExtractor, root, lo, hi, order)
      else
        Visit(keyExtractor, root, lo, hi, order)
    }

    /**
     * `addAll(PlanetIndex)`: `add` the records of `index` in the order of its
     * unbounded pre-order traversal.
     */
    method AddAllFrom(index: PlanetIndex)
      requires WellFormed() && index.WellFormed()
      modifies this
      ensures WellFormed()
      ensures root == InsertAll(keyExtractor, old(root), old(index.DoAll(None, None, PreOrder)))
      ensures Contents(root) == old(Contents(root)) + (set x | x in old(Contents(index.root)) && keyExtractor(x).Some?)
      ensures old(root) == Nil && keyExtractor == index.keyExtractor ==> root == old(index.root)
      ensures index == this ==> root == old(root)
    {
      var visited := index.DoAll(None, None, PreOrder);
      ghost var other, otherKey := index.root, index.keyExtractor;
      ghost var pre := Traverse(other, PreOrder);
      TraverseContents(other, PreOrder);
      FilterUnbounded(otherKey, pre);
      assert visited == pre;
      assert KeyedRecords(keyExtractor, visited) == set x | x in Contents(other) && keyExtractor(x).Some?;
      if root == Nil && keyExtractor == otherKey {
        PreOrderCopy(keyExtractor, other);
      }
      if index == this {
        InsertAllExisting(keyExtractor, root, visited);
      }
      AddAll(visited);
    }
  }
}

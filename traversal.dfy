/**
 * Bounded traversal of the index (the private `doAll`): which records are handed
 * to the visitor, and in which order.
 */
module Traversals {
  import opened Wrappers
  import opened Planets
  import opened SearchTrees

  /** The record's key lies in the inclusive range; an absent bound is no bound. */
  predicate InRange(key: Extractor, x: Planet, lo: Option<int>, hi: Option<int>)
  {
    && key(x).Some?
    && (lo.None? || lo.value <= key(x).value)
    && (hi.None? || key(x).value <= hi.value)
  }

  /** The records of `s` in range, in their order in `s`. */
  function Filter(key: Extractor, s: seq<Planet>, lo: Option<int>, hi: Option<int>): seq<Planet>
  {
    if s == [] then []
    else (if InRange(key, s[0], lo, hi) then [s[0]] else []) + Filter(key, s[1..], lo, hi)
  }

  /** The filtered sequence holds exactly the records of `s` in range. */
  lemma {:induction false} FilterMembers(key: Extractor, s: seq<Planet>, lo: Option<int>, hi: Option<int>)
    ensures forall x :: x in Filter(key, s, lo, hi) <==> x in s && InRange(key, x, lo, hi)
  {
    if s != [] {
      FilterMembers(key, s[1..], lo, hi);
      assert s == [s[0]] + s[1..];
    }
  }

  lemma {:induction false} FilterConcat(key: Extractor, a: seq<Planet>, b: seq<Planet>, lo: Option<int>, hi: Option<int>)
    ensures Filter(key, a + b, lo, hi) == Filter(key, a, lo, hi) + Filter(key, b, lo, hi)
  {
    if a == [] {
      assert a + b == b;
    } else {
      var head := if InRange(key, a[0], lo, hi) then [a[0]] else [];
      assert (a + b)[0] == a[0] && (a + b)[1..] == a[1..] + b;
      assert Filter(key, a + b, lo, hi) == head + Filter(key, a[1..] + b, lo, hi);
      FilterConcat(key, a[1..], b, lo, hi);
      assert Filter(key, a, lo, hi) == head + Filter(key, a[1..], lo, hi);
    }
  }

  lemma FilterNone(key: Extractor, s: seq<Planet>, lo: Option<int>, hi: Option<int>)
    requires forall x :: x in s ==> !InRange(key, x, lo, hi)
    ensures Filter(key, s, lo, hi) == []
  {
    FilterMembers(key, s, lo, hi);
    if Filter(key, s, lo, hi) != [] {
      assert Filter(key, s, lo, hi)[0] in Filter(key, s, lo, hi);
    }
  }

  /** With no bounds, nothing with a key is dropped. */
  lemma {:induction false} FilterUnbounded(key: Extractor, s: seq<Planet>)
    requires forall x :: x in s ==> key(x).Some?
    ensures Filter(key, s, None, None) == s
  {
    if s != [] {
      assert s[0] in s;
      FilterUnbounded(key, s[1..]);
    }
  }

  lemma FilterConcat3(key: Extractor, a: seq<Planet>, b: seq<Planet>, c: seq<Planet>, lo: Option<int>, hi: Option<int>)
    ensures Filter(key, a + b + c, lo, hi) == Filter(key, a, lo, hi) + Filter(key, b, lo, hi) + Filter(key, c, lo, hi)
  {
    FilterConcat(key, a + b, c, lo, hi);
    FilterConcat(key, a, b, lo, hi);
  }

  /** Dropping records from an ascending sequence leaves it ascending. */
  lemma {:induction false} FilterSorted(key: Extractor, s: seq<Planet>, lo: Option<int>, hi: Option<int>)
    requires Sorted(key, s)
    ensures Sorted(key, Filter(key, s, lo, hi))
  {
    if s != [] {
      assert s == [] + [s[0]] + s[1..];
      SortedConcat(key, [], s[0], s[1..]);
      FilterSorted(key, s[1..], lo, hi);
      var rest := Filter(key, s[1..], lo, hi);
      FilterMembers(key, s[1..], lo, hi);
      if InRange(key, s[0], lo, hi) {
        SortedConcat(key, [], s[0], rest);
        assert [] + [s[0]] + rest == [s[0]] + rest;
      }
    }
  }

  /**
   * The private `doAll`: at a node with key k, descend left when lo <= k, right
   * when hi >= k, and visit the node only when both hold, before, between or
   * after the two descents as the traversal order says.
   */
  function Visit(key: Extractor, t: Tree, lo: Option<int>, hi: Option<int>, order: Traversal): (s: seq<Planet>)
    requires Keyed(key, t)
    ensures |s| <= Count(t)
  {
    match t
    case Nil => []
    case Node(l, p, r) =>
      var k := key(p).value;
      var inLeft := lo.None? || lo.value <= k;
      var inRight := hi.None? || hi.value >= k;
      var here := if inLeft && inRight then [p] else [];
      var before := if inLeft then Visit(key, l, lo, hi, order) else [];
      var after := if inRight then Visit(key, r, lo, hi, order) else [];
      match order
      case PreOrder => here + before + after
      case InOrder => before + here + after
      case PostOrder => before + after + here
  }

  /**
   * On a search tree, pruning the subtrees beyond a bound loses nothing: the
   * visited records are the full traversal filtered to the range.
   */
  lemma {:induction false} VisitIsFilter(key: Extractor, t: Tree, lo: Option<int>, hi: Option<int>, order: Traversal)
    requires SearchTree(key, t)
    ensures Visit(key, t, lo, hi, order) == Filter(key, Traverse(t, order), lo, hi)
  {
    match t
    case Nil =>
    case Node(l, p, r) =>
      var k := key(p).value;
      var inLeft := lo.None? || lo.value <= k;
      var inRight := hi.None? || hi.value >= k;
      var tl, tr := Traverse(l, order), Traverse(r, order);
      VisitIsFilter(key, l, lo, hi, order);
      VisitIsFilter(key, r, lo, hi, order);
      assert Filter(key, tl, lo, hi) == if inLeft then Visit(key, l, lo, hi, order) else [] by {
        if !inLeft {
          TraverseContents(l, order);
          forall x | x in tl ensures !InRange(key, x, lo, hi) {
            assert Precedes(key, x, p);
          }
          FilterNone(key, tl, lo, hi);
        }
      }
      assert Filter(key, tr, lo, hi) == if inRight then Visit(key, r, lo, hi, order) else [] by {
        if !inRight {
          TraverseContents(r, order);
          forall y | y in tr ensures !InRange(key, y, lo, hi) {
            assert Precedes(key, p, y);
          }
          FilterNone(key, tr, lo, hi);
        }
      }
      VisitNode(key, l, p, r, lo, hi, order);
  }

  /** One node of `VisitIsFilter`: the visit of a node is assembled from the filtered parts. */
  lemma VisitNode(key: Extractor, l: Tree, p: Planet, r: Tree, lo: Option<int>, hi: Option<int>, order: Traversal)
    requires Keyed(key, Node(l, p, r))
    requires Filter(key, Traverse(l, order), lo, hi) ==
      if lo.None? || lo.value <= key(p).value then Visit(key, l, lo, hi, order) else []
    requires Filter(key, Traverse(r, order), lo, hi) ==
      if hi.None? || hi.value >= key(p).value then Visit(key, r, lo, hi, order) else []
    ensures Visit(key, Node(l, p, r), lo, hi, order) == Filter(key, Traverse(Node(l, p, r), order), lo, hi)
  {
    var tl, tr := Traverse(l, order), Traverse(r, order);
    assert Filter(key, [p], lo, hi) == if InRange(key, p, lo, hi) then [p] else [] by {
      assert [p][1..] == [];
    }
    VisitUnfold(key, l, p, r, lo, hi, order);
    match order
    case PreOrder =>
      FilterConcat3(key, [p], tl, tr, lo, hi);
      assert Traverse(Node(l, p, r), order) == [p] + tl + tr;
    case InOrder =>
      FilterConcat3(key, tl, [p], tr, lo, hi);
      assert Traverse(Node(l, p, r), order) == tl + [p] + tr;
    case PostOrder =>
      FilterConcat3(key, tl, tr, [p], lo, hi);
      assert Traverse(Node(l, p, r), order) == tl + tr + [p];
  }

  /** The visit of a node, from the visits of its children (an unfolding hint). */
  lemma VisitUnfold(key: Extractor, l: Tree, p: Planet, r: Tree, lo: Option<int>, hi: Option<int>, order: Traversal)
    requires Keyed(key, Node(l, p, r))
    ensures var k := key(p).value;
      var here := if InRange(key, p, lo, hi) then [p] else [];
      var before := if lo.None? || lo.value <= k then Visit(key, l, lo, hi, order) else [];
      var after := if hi.None? || hi.value >= k then Visit(key, r, lo, hi, order) else [];
      Visit(key, Node(l, p, r), lo, hi, order) ==
        match order
        case PreOrder => here + before + after
        case InOrder => before + here + after
        case PostOrder => before + after + here
  {
  }

  /**
   * An in-order visit yields exactly the stored records whose key is in range,
   * in strictly ascending (key, then `compareTo`) order.
   */
  lemma InOrderVisitSorted(key: Extractor, t: Tree, lo: Option<int>, hi: Option<int>)
    requires SearchTree(key, t)
    ensures Sorted(key, Visit(key, t, lo, hi, InOrder))
    ensures forall x :: x in Visit(key, t, lo, hi, InOrder) <==> x in Contents(t) && InRange(key, x, lo, hi)
  {
    VisitIsFilter(key, t, lo, hi, InOrder);
    InOrderSorted(key, t);
    FilterSorted(key, Traverse(t, InOrder), lo, hi);
    FilterMembers(key, Traverse(t, InOrder), lo, hi);
    TraverseContents(t, InOrder);
  }

  /** A range whose lower bound exceeds its upper bound visits nothing. */
  lemma {:induction false} InvertedRangeVisitsNothing(key: Extractor, t: Tree, lo: Option<int>, hi: Option<int>, order: Traversal)
    requires Keyed(key, t)
    requires lo.Some? && hi.Some? && lo.value > hi.value
    ensures Visit(key, t, lo, hi, order) == []
  {
    if t.Node? {
      InvertedRangeVisitsNothing(key, t.left, lo, hi, order);
      InvertedRangeVisitsNothing(key, t.right, lo, hi, order);
    }
  }

  /** Pre-order and post-order visits hand over the same records as the in-order visit. */
  lemma {:induction false} VisitSameRecords(key: Extractor, t: Tree, lo: Option<int>, hi: Option<int>, order: Traversal)
    requires Keyed(key, t)
    ensures multiset(Visit(key, t, lo, hi, order)) == multiset(Visit(key, t, lo, hi, InOrder))
  {
    if t.Node? {
      VisitSameRecords(key, t.left, lo, hi, order);
      VisitSameRecords(key, t.right, lo, hi, order);
    }
  }

  /** The three unbounded traversals list the same records. */
  lemma {:induction false} TraverseSameRecords(t: Tree, order: Traversal)
    ensures multiset(Traverse(t, order)) == multiset(Traverse(t, InOrder))
  {
    if t.Node? {
      TraverseSameRecords(t.left, order);
      TraverseSameRecords(t.right, order);
    }
  }

  /** `VisitAtMostOnce` for the in-order visit. */
  lemma {:induction false} InOrderVisitAtMostOnce(key: Extractor, t: Tree, lo: Option<int>, hi: Option<int>)
    requires Keyed(key, t)
    ensures multiset(Visit(key, t, lo, hi, InOrder)) <= multiset(Traverse(t, InOrder))
  {
    if t.Node? {
      InOrderVisitAtMostOnce(key, t.left, lo, hi);
      InOrderVisitAtMostOnce(key, t.right, lo, hi);
    }
  }

  /**
   * The visitor is handed each node at most once: the visited records are a
   * sub-multiset of the full traversal.
   */
  lemma VisitAtMostOnce(key: Extractor, t: Tree, lo: Option<int>, hi: Option<int>, order: Traversal)
    requires Keyed(key, t)
    ensures multiset(Visit(key, t, lo, hi, order)) <= multiset(Traverse(t, order))
  {
    InOrderVisitAtMostOnce(key, t, lo, hi);
    VisitSameRecords(key, t, lo, hi, order);
    TraverseSameRecords(t, order);
  }
}

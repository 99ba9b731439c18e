/**
 * The binary search tree behind `PlanetIndex`: its nodes, the order records are
 * kept in, insertion (`doAdd`), bounded traversal (the private `doAll`) and the
 * facts about them that the index relies on.
 */
module SearchTrees {
  import opened Wrappers
  import opened Planets

  /** The key extractor an index is built with; `None` is a null key. */
  type Extractor = Planet -> Option<int>

  /** A node owns its record and its two (possibly absent) children. */
  datatype Tree = Nil | Node(left: Tree, data: Planet, right: Tree)

  datatype Traversal = PreOrder | InOrder | PostOrder

  function Count(t: Tree): nat
  {
    match t
    case Nil => 0
    case Node(l, _, r) => 1 + Count(l) + Count(r)
  }

  function Height(t: Tree): nat
  {
    match t
    case Nil => 0
    case Node(l, _, r) => 1 + (if Height(l) < Height(r) then Height(r) else Height(l))
  }

  function Contents(t: Tree): set<Planet>
  {
    match t
    case Nil => {}
    case Node(l, p, r) => Contents(l) + {p} + Contents(r)
  }

  /** Every record in the tree has a key. */
  predicate Keyed(key: Extractor, t: Tree)
    ensures Keyed(key, t) <==> forall x :: x in Contents(t) ==> key(x).Some?
  {
    match t
    case Nil => true
    case Node(l, p, r) => key(p).Some? && Keyed(key, l) && Keyed(key, r)
  }

  /** The order of the index: by key first, then by the record's own `compareTo`. */
  predicate Precedes(key: Extractor, x: Planet, y: Planet)
  {
    && key(x).Some? && key(y).Some?
    && (key(x).value < key(y).value || (key(x).value == key(y).value && CompareTo(x, y) < 0))
  }

  lemma PrecedesTransitive(key: Extractor, x: Planet, y: Planet, z: Planet)
    requires Precedes(key, x, y) && Precedes(key, y, z)
    ensures Precedes(key, x, z)
  {
    if key(x).value == key(y).value == key(z).value {
      CompareToTransitive(x, y, z);
    }
  }

  /** `Precedes` is a strict total order on keyed records. */
  lemma PrecedesStrictTotal(key: Extractor, x: Planet, y: Planet)
    requires key(x).Some? && key(y).Some?
    ensures x == y || Precedes(key, x, y) || Precedes(key, y, x)
    ensures !(Precedes(key, x, y) && Precedes(key, y, x))
    ensures !Precedes(key, x, x)
  {
    CompareToZero(x, y);
    CompareToZero(x, x);
    CompareToFlip(x, y);
  }

  /**
   * The ordering invariant of the index: at every node, every record of the left
   * subtree comes before the node's record and every record of the right subtree
   * after it, by key and, among equal keys, by `compareTo`.
   */
  predicate SearchTree(key: Extractor, t: Tree)
    ensures SearchTree(key, t) ==> Keyed(key, t)
  {
    match t
    case Nil => true
    case Node(l, p, r) =>
      && key(p).Some? && SearchTree(key, l) && SearchTree(key, r)
      && (forall x :: x in Contents(l) ==> Precedes(key, x, p))
      && (forall y :: y in Contents(r) ==> Precedes(key, p, y))
  }

  /** The records of a tree, visited unbounded in the given order. */
  function Traverse(t: Tree, order: Traversal): (s: seq<Planet>)
    ensures |s| == Count(t)
  {
    match t
    case Nil => []
    case Node(l, p, r) =>
      match order
      case PreOrder => [p] + Traverse(l, order) + Traverse(r, order)
      case InOrder => Traverse(l, order) + [p] + Traverse(r, order)
      case PostOrder => Traverse(l, order) + Traverse(r, order) + [p]
  }

  lemma {:induction false} TraverseContents(t: Tree, order: Traversal)
    ensures |Traverse(t, order)| == Count(t)
    ensures forall x :: x in Traverse(t, order) <==> x in Contents(t)
  {
    if t.Node? {
      TraverseContents(t.left, order);
      TraverseContents(t.right, order);
    }
  }

  predicate Sorted(key: Extractor, s: seq<Planet>)
  {
    forall i, j :: 0 <= i < j < |s| ==> Precedes(key, s[i], s[j])
  }

  lemma SortedConcat(key: Extractor, a: seq<Planet>, p: Planet, b: seq<Planet>)
    ensures Sorted(key, a + [p] + b) <==>
      && Sorted(key, a) && Sorted(key, b)
      && (forall x :: x in a ==> Precedes(key, x, p))
      && (forall y :: y in b ==> Precedes(key, p, y))
  {
    var s := a + [p] + b;
    if Sorted(key, s) {
      forall i, j | 0 <= i < j < |a| ensures Precedes(key, a[i], a[j]) {
        assert s[i] == a[i] && s[j] == a[j];
      }
      forall i, j | 0 <= i < j < |b| ensures Precedes(key, b[i], b[j]) {
        assert s[|a| + 1 + i] == b[i] && s[|a| + 1 + j] == b[j];
      }
      forall x | x in a ensures Precedes(key, x, p) {
        var i :| 0 <= i < |a| && a[i] == x;
        assert s[i] == x && s[|a|] == p;
      }
      forall y | y in b ensures Precedes(key, p, y) {
        var j :| 0 <= j < |b| && b[j] == y;
        assert s[|a| + 1 + j] == y && s[|a|] == p;
      }
    }
    if && Sorted(key, a) && Sorted(key, b)
       && (forall x :: x in a ==> Precedes(key, x, p))
       && (forall y :: y in b ==> Precedes(key, p, y))
    {
      forall i, j | 0 <= i < j < |s| ensures Precedes(key, s[i], s[j]) {
        if j < |a| {
          assert s[i] == a[i] && s[j] == a[j];
        } else if i < |a| && j == |a| {
          assert s[i] == a[i] && s[j] == p;
        } else if i < |a| {
          assert s[i] == a[i] && s[j] == b[j - |a| - 1];
          PrecedesTransitive(key, a[i], p, b[j - |a| - 1]);
        } else if i == |a| {
          assert s[j] == b[j - |a| - 1];
        } else {
          assert s[i] == b[i - |a| - 1] && s[j] == b[j - |a| - 1];
        }
      }
    }
  }

  /** The ordering invariant says exactly that the in-order sequence is strictly ascending. */
  lemma {:induction false} InOrderSorted(key: Extractor, t: Tree)
    ensures SearchTree(key, t) <==> Keyed(key, t) && Sorted(key, Traverse(t, InOrder))
  {
    if t.Node? {
      InOrderSorted(key, t.left);
      InOrderSorted(key, t.right);
      TraverseContents(t.left, InOrder);
      TraverseContents(t.right, InOrder);
      SortedConcat(key, Traverse(t.left, InOrder), t.data, Traverse(t.right, InOrder));
    }
  }

  /** A search tree holds no record twice, so its node count is the number of distinct records. */
  lemma {:induction false} SearchTreeCount(key: Extractor, t: Tree)
    requires SearchTree(key, t)
    ensures Count(t) == |Contents(t)|
  {
    if t.Node? {
      var l, p, r := t.left, t.data, t.right;
      SearchTreeCount(key, l);
      SearchTreeCount(key, r);
      PrecedesStrictTotal(key, p, p);
      assert p !in Contents(l) && p !in Contents(r);
      forall x | x in Contents(l) ensures x !in Contents(r) {
        PrecedesStrictTotal(key, x, p);
      }
      assert Contents(l) * Contents(r) == {};
      assert (Contents(l) + {p}) * Contents(r) == {};
    }
  }

  lemma {:induction false} HeightAtMostCount(t: Tree)
    ensures Height(t) <= Count(t)
  {
    if t.Node? {
      HeightAtMostCount(t.left);
      HeightAtMostCount(t.right);
    }
  }

  /** The sign of `key.compareTo(here)` for the `Integer`-like keys. */
  function CompareKeys(a: int, b: int): int
  {
    if a < b then -1 else if a > b then 1 else 0
  }

  /**
   * `doAdd`: descend by key, break key ties with `compareTo`, stop on a record
   * equal under `compareTo`, and attach a new leaf at the first absent child.
   */
  function Insert(key: Extractor, t: Tree, p: Planet): (u: Tree)
    requires key(p).Some? && Keyed(key, t)
    ensures Keyed(key, u) && Contents(u) == Contents(t) + {p}
  {
    match t
    case Nil => Node(Nil, p, Nil)
    case Node(l, q, r) =>
      var c0 := CompareKeys(key(p).value, key(q).value);
      var c := if c0 == 0 then CompareTo(p, q) else c0;
      if c == 0 then
        CompareToZero(p, q);
        t
      else if c < 0 then Node(Insert(key, l, p), q, r)
      else Node(l, q, Insert(key, r, p))
  }

  /** `u` is `t` with one absent child replaced by a new leaf holding `p`; no other node changes. */
  predicate LeafAdded(t: Tree, u: Tree, p: Planet)
  {
    match t
    case Nil => u == Node(Nil, p, Nil)
    case Node(l, q, r) =>
      && u.Node? && u.data == q
      && ((LeafAdded(l, u.left, p) && u.right == r) || (u.left == l && LeafAdded(r, u.right, p)))
  }

  lemma {:induction false} LeafAddedCount(t: Tree, u: Tree, p: Planet)
    requires LeafAdded(t, u, p)
    ensures Count(u) == Count(t) + 1
  {
    if t.Node? {
      if LeafAdded(t.left, u.left, p) && u.right == t.right {
        LeafAddedCount(t.left, u.left, p);
      } else {
        LeafAddedCount(t.right, u.right, p);
      }
    }
  }

  /** Inserting a record that is not stored hangs it on a fresh leaf and grows the tree by one. */
  lemma {:induction false} InsertNew(key: Extractor, t: Tree, p: Planet)
    requires key(p).Some? && Keyed(key, t) && p !in Contents(t)
    ensures LeafAdded(t, Insert(key, t, p), p)
    ensures Count(Insert(key, t, p)) == Count(t) + 1
  {
    match t
    case Nil =>
    case Node(l, q, r) =>
      var c0 := CompareKeys(key(p).value, key(q).value);
      var c := if c0 == 0 then CompareTo(p, q) else c0;
      CompareToZero(p, q);
      if c < 0 {
        InsertNew(key, l, p);
      } else {
        InsertNew(key, r, p);
      }
      LeafAddedCount(t, Insert(key, t, p), p);
  }

  /** Inserting a record already stored (equal under `compareTo`) leaves the tree as it was. */
  lemma {:induction false} InsertExisting(key: Extractor, t: Tree, p: Planet)
    requires SearchTree(key, t) && p in Contents(t)
    ensures Insert(key, t, p) == t
  {
    match t
    case Node(l, q, r) =>
      CompareToZero(p, q);
      if p != q {
        PrecedesStrictTotal(key, p, q);
        CompareToFlip(p, q);
        if p in Contents(l) {
          assert Precedes(key, p, q);
          InsertExisting(key, l, p);
        } else {
          assert p in Contents(r) && Precedes(key, q, p);
          InsertExisting(key, r, p);
        }
      }
  }

  lemma {:induction false} InsertSearchTree(key: Extractor, t: Tree, p: Planet)
    requires SearchTree(key, t) && key(p).Some?
    ensures SearchTree(key, Insert(key, t, p))
  {
    match t
    case Nil =>
    case Node(l, q, r) =>
      var c0 := CompareKeys(key(p).value, key(q).value);
      var c := if c0 == 0 then CompareTo(p, q) else c0;
      CompareToFlip(p, q);
      if c < 0 {
        InsertSearchTree(key, l, p);
        assert Precedes(key, p, q);
      } else if c > 0 {
        InsertSearchTree(key, r, p);
        assert Precedes(key, q, p);
      }
  }

  /** Adding the same record twice is the same as adding it once. */
  lemma InsertIdempotent(key: Extractor, t: Tree, p: Planet)
    requires SearchTree(key, t) && key(p).Some?
    ensures Insert(key, Insert(key, t, p), p) == Insert(key, t, p)
  {
    InsertSearchTree(key, t, p);
    InsertExisting(key, Insert(key, t, p), p);
  }

  /** Two different records with the same key are both stored. */
  lemma SameKeyBothStored(key: Extractor, t: Tree, x: Planet, y: Planet)
    requires SearchTree(key, t) && key(x).Some? && key(y) == key(x)
    requires x != y && x !in Contents(t) && y !in Contents(t)
    ensures Count(Insert(key, Insert(key, t, x), y)) == Count(t) + 2
    ensures Contents(Insert(key, Insert(key, t, x), y)) == Contents(t) + {x, y}
  {
    InsertNew(key, t, x);
    InsertNew(key, Insert(key, t, x), y);
  }

  /** `add`: a record with a null key is ignored, any other goes through `doAdd`. */
  function AddOne(key: Extractor, t: Tree, p: Planet): (u: Tree)
    requires Keyed(key, t)
    ensures Keyed(key, u)
    ensures Contents(u) == if key(p).Some? then Contents(t) + {p} else Contents(t)
  {
    if key(p).None? then t else Insert(key, t, p)
  }

  function KeyedRecords(key: Extractor, ps: seq<Planet>): set<Planet>
  {
    set x | x in ps && key(x).Some?
  }

  /** `addAll`: `add` applied to each record in turn. */
  function InsertAll(key: Extractor, t: Tree, ps: seq<Planet>): (u: Tree)
    requires Keyed(key, t)
    ensures Keyed(key, u) && Contents(u) == Contents(t) + KeyedRecords(key, ps)
    decreases |ps|
  {
    if ps == [] then t
    else
      var n := |ps| - 1;
      assert ps == ps[..n] + [ps[n]];
      AddOne(key, InsertAll(key, t, ps[..n]), ps[n])
  }

  lemma {:induction false} InsertAllSearchTree(key: Extractor, t: Tree, ps: seq<Planet>)
    requires SearchTree(key, t)
    ensures SearchTree(key, InsertAll(key, t, ps))
    decreases |ps|
  {
    if ps != [] {
      var n := |ps| - 1;
      InsertAllSearchTree(key, t, ps[..n]);
      if key(ps[n]).Some? {
        InsertSearchTree(key, InsertAll(key, t, ps[..n]), ps[n]);
      }
    }
  }

  /** Filling an empty index stores one node per distinct record that has a key. */
  lemma InsertAllCount(key: Extractor, ps: seq<Planet>)
    ensures Count(InsertAll(key, Nil, ps)) == |KeyedRecords(key, ps)|
  {
    InsertAllSearchTree(key, Nil, ps);
    SearchTreeCount(key, InsertAll(key, Nil, ps));
  }

  lemma {:induction false} InsertAllAppend(key: Extractor, t: Tree, a: seq<Planet>, b: seq<Planet>)
    requires Keyed(key, t)
    ensures InsertAll(key, t, a + b) == InsertAll(key, InsertAll(key, t, a), b)
    decreases |b|
  {
    if b == [] {
      assert a + b == a;
    } else {
      var n := |b| - 1;
      assert (a + b)[..|a + b| - 1] == a + b[..n];
      InsertAllAppend(key, t, a, b[..n]);
    }
  }

  /** Adding records that are all stored already changes nothing, so an index may copy itself. */
  lemma {:induction false} InsertAllExisting(key: Extractor, t: Tree, ps: seq<Planet>)
    requires SearchTree(key, t)
    requires forall x :: x in ps ==> x in Contents(t)
    ensures InsertAll(key, t, ps) == t
    decreases |ps|
  {
    if ps != [] {
      var n := |ps| - 1;
      InsertAllExisting(key, t, ps[..n]);
      InsertExisting(key, t, ps[n]);
    }
  }

  /** Records that all come before the root's record all go into its left subtree. */
  lemma {:induction false} InsertAllLeft(key: Extractor, l: Tree, p: Planet, r: Tree, ps: seq<Planet>)
    requires Keyed(key, Node(l, p, r))
    requires forall x :: x in ps ==> Precedes(key, x, p)
    ensures InsertAll(key, Node(l, p, r), ps) == Node(InsertAll(key, l, ps), p, r)
    decreases |ps|
  {
    if ps != [] {
      var n := |ps| - 1;
      assert ps[n] in ps;
      InsertAllLeft(key, l, p, r, ps[..n]);
    }
  }

  /** Records that all come after the root's record all go into its right subtree. */
  lemma {:induction false} InsertAllRight(key: Extractor, l: Tree, p: Planet, r: Tree, ps: seq<Planet>)
    requires Keyed(key, Node(l, p, r))
    requires forall y :: y in ps ==> Precedes(key, p, y)
    ensures InsertAll(key, Node(l, p, r), ps) == Node(l, p, InsertAll(key, r, ps))
    decreases |ps|
  {
    if ps != [] {
      var n := |ps| - 1;
      assert ps[n] in ps;
      CompareToFlip(p, ps[n]);
      InsertAllRight(key, l, p, r, ps[..n]);
    }
  }

  /**
   * Copying a search tree into an empty one, in pre-order and with the same key,
   * rebuilds exactly the same tree: this is why `addAll(PlanetIndex)` copies in
   * pre-order.
   */
  lemma {:induction false} PreOrderCopy(key: Extractor, t: Tree)
    requires SearchTree(key, t)
    ensures InsertAll(key, Nil, Traverse(t, PreOrder)) == t
  {
    match t
    case Nil =>
    case Node(l, p, r) =>
      var pl, pr := Traverse(l, PreOrder), Traverse(r, PreOrder);
      TraverseContents(l, PreOrder);
      TraverseContents(r, PreOrder);
      PreOrderCopy(key, l);
      PreOrderCopy(key, r);
      assert Traverse(t, PreOrder) == [p] + pl + pr;
      InsertAllAppend(key, Nil, [p] + pl, pr);
      InsertAllAppend(key, Nil, [p], pl);
      assert [p][..0] == [];
      assert InsertAll(key, Nil, [p]) == Node(Nil, p, Nil);
      InsertAllLeft(key, Nil, p, Nil, pl);
      InsertAllRight(key, l, p, Nil, pr);
  }
}

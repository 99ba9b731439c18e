/**
 * A planet record, seen from the index only through its full comparison.
 * `Planet.compareTo` compares the `dataString()` renderings of two planets with
 * `String.compareTo`, so a planet is modelled by that rendering. A Java string
 * is a sequence of UTF-16 code units, and `String.compareTo` orders by those
 * units, one after the other (a proper prefix comes first). A character outside
 * the Basic Multilingual Plane is therefore two units, a surrogate pair, and
 * sorts below a unit such as U+FFFF.
 */
module Planets {

  /** One UTF-16 code unit, Java's `char`. */
  type CodeUnit = u: int | 0 <= u < 0x1_0000

  /** A Java `String`: its UTF-16 code units. */
  type JavaString = seq<CodeUnit>

  datatype Planet = Planet(dataString: JavaString)

  /** The sign of Java's `String.compareTo`: -1, 0 or 1. */
  function CompareStrings(a: JavaString, b: JavaString): (c: int)
    ensures -1 <= c <= 1
  {
    if a == [] then (if b == [] then 0 else -1)
    else if b == [] then 1
    else if a[0] < b[0] then -1
    else if a[0] > b[0] then 1
    else CompareStrings(a[1..], b[1..])
  }

  /** The sign of `Planet.compareTo`. */
  function CompareTo(p: Planet, q: Planet): (c: int)
    ensures -1 <= c <= 1
  {
    CompareStrings(p.dataString, q.dataString)
  }

  lemma {:induction false} CompareStringsZero(a: JavaString, b: JavaString)
    ensures CompareStrings(a, b) == 0 <==> a == b
  {
    if a != [] && b != [] && a[0] == b[0] {
      CompareStringsZero(a[1..], b[1..]);
      assert a == [a[0]] + a[1..] && b == [b[0]] + b[1..];
    }
  }

  lemma {:induction false} CompareStringsFlip(a: JavaString, b: JavaString)
    ensures CompareStrings(a, b) == -CompareStrings(b, a)
  {
    if a != [] && b != [] && a[0] == b[0] {
      CompareStringsFlip(a[1..], b[1..]);
    }
  }

  lemma {:induction false} CompareStringsTransitive(a: JavaString, b: JavaString, c: JavaString)
    requires CompareStrings(a, b) < 0 && CompareStrings(b, c) < 0
    ensures CompareStrings(a, c) < 0
  {
    if a != [] && b != [] && c != [] && a[0] == b[0] == c[0] {
      CompareStringsTransitive(a[1..], b[1..], c[1..]);
    }
  }

  /** `compareTo` returns 0 exactly for equal planets, which is what `Planet.equals` relies on. */
  lemma CompareToZero(p: Planet, q: Planet)
    ensures CompareTo(p, q) == 0 <==> p == q
  {
    CompareStringsZero(p.dataString, q.dataString);
  }

  /**
   * Code units, not code points, decide the order: U+FFFF is one unit, while
   * U+1F600 is the surrogate pair D83D DE00, so the first sorts above the second.
   */
  lemma SurrogatePairSortsBelow()
    ensures CompareTo(Planet([0xFFFF]), Planet([0xD83D, 0xDE00])) == 1
  {
  }

  lemma CompareToFlip(p: Planet, q: Planet)
    ensures CompareTo(p, q) == -CompareTo(q, p)
  {
    CompareStringsFlip(p.dataString, q.dataString);
  }

  lemma CompareToTransitive(p: Planet, q: Planet, r: Planet)
    requires CompareTo(p, q) < 0 && CompareTo(q, r) < 0
    ensures CompareTo(p, r) < 0
  {
    CompareStringsTransitive(p.dataString, q.dataString, r.dataString);
  }
}

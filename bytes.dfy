/**
 * Byte strings and Go's `bytes.Compare`, the lexicographic order the skip
 * list falls back to when two scores tie.
 */
module Bytes {
  type Byte = b: int | 0 <= b < 256

  /**
   * Three-way lexicographic comparison: -1 when `a` sorts before `b`,
   * 0 when they are byte-identical, +1 otherwise. A proper prefix sorts first.
   */
  function Compare(a: seq<Byte>, b: seq<Byte>): (r: int)
    ensures -1 <= r <= 1
    ensures r == 0 <==> a == b
  {
    if a == [] then (if b == [] then 0 else -1)
    else if b == [] then 1
    else if a[0] < b[0] then -1
    else if a[0] > b[0] then 1
    else
      var r := Compare(a[1..], b[1..]);
      assert r == 0 ==> a == [a[0]] + a[1..] == [b[0]] + b[1..] == b;
      r
  }

  /** `a` sorts strictly before `b`. */
  predicate Less(a: seq<Byte>, b: seq<Byte>) {
    Compare(a, b) < 0
  }

  /** Swapping the arguments flips the sign. */
  lemma {:induction false} CompareAntisymmetric(a: seq<Byte>, b: seq<Byte>)
    ensures Compare(b, a) == -Compare(a, b)
  {
    if a != [] && b != [] && a[0] == b[0] {
      CompareAntisymmetric(a[1..], b[1..]);
    }
  }

  /** Any two keys are ordered one way or the other, or are equal. */
  lemma {:induction false} LessTotal(a: seq<Byte>, b: seq<Byte>)
    ensures Less(a, b) || a == b || Less(b, a)
  {
    CompareAntisymmetric(a, b);
  }

  /** The order is transitive. */
  lemma {:induction false} LessTransitive(a: seq<Byte>, b: seq<Byte>, c: seq<Byte>)
    requires Less(a, b) && Less(b, c)
    ensures Less(a, c)
  {
    if a != [] && b != [] && c != [] && a[0] == b[0] == c[0] {
      LessTransitive(a[1..], b[1..], c[1..]);
    }
  }
}

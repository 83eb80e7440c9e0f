/**
 * `calcScore`: the first (at most) eight bytes of a key packed big-endian into
 * a 64-bit integer, so that most comparisons are settled by one integer test.
 */
module Scores {
  import opened Bytes

  /** `b << s` on unbounded integers: `b` doubled `s` times. */
  function Shl(b: nat, s: nat): nat {
    if s == 0 then b else 2 * Shl(b, s - 1)
  }

  lemma {:induction false} ShlShl(b: nat, k: nat, s: nat)
    ensures Shl(b, k + s) == Shl(Shl(b, k), s)
  {
    if s > 0 {
      ShlShl(b, k, s - 1);
    }
  }

  lemma {:induction false} ShlMul(b: nat, s: nat)
    ensures Shl(b, s) == b * Shl(1, s)
  {
    if s > 0 {
      ShlMul(b, s - 1);
    }
  }

  /** Byte `i` of the key, or 0 once the key has run out. */
  function ByteAt(key: seq<Byte>, i: nat): Byte {
    if i < |key| then key[i] else 0
  }

  /** The bit offset at which byte `i` (0 <= i < 8) lands: 56 - 8i. */
  function Shift(i: nat): nat
    requires i < 8
  {
    64 - 8 - i * 8
  }

  /** `256` to the power `n`. */
  function Pow256(n: nat): nat {
    if n == 0 then 1 else 256 * Pow256(n - 1)
  }

  /** `256` to the power `8 - i`: one more than the largest value bytes `i..7` can hold. */
  function Unit(i: nat): nat
    requires i <= 8
  {
    Pow256(8 - i)
  }

  /** Shifting byte `i` into place multiplies it by the unit of the bytes after it. */
  lemma {:induction false} ShlIsUnit(b: nat, i: nat)
    requires i < 8
    ensures Shl(b, Shift(i)) == b * Unit(i + 1)
  {
    ShlMul(b, Shift(i));
    ShlOneIsUnit(i);
  }

  lemma {:induction false} ShlOneIsUnit(i: nat)
    requires i < 8
    ensures Shl(1, Shift(i)) == Unit(i + 1)
  {
    assert Shift(i) == 8 * (7 - i);
    ShlPow(7 - i);
  }

  /** `1 << 8n` is `256` to the power `n`. */
  lemma {:induction false} ShlPow(n: nat)
    ensures Shl(1, 8 * n) == Pow256(n)
  {
    if n > 0 {
      ShlPow(n - 1);
      ShlShl(1, 8, 8 * (n - 1));
      assert Shl(1, 8) == 256;
      ShlMul(256, 8 * (n - 1));
    }
  }

  /** The eight bytes `calcScore` reads: the key's first eight, zero once it runs out. */
  function Head(key: seq<Byte>): seq<Byte> {
    seq(8, i requires 0 <= i < 8 => ByteAt(key, i))
  }

  /** Bytes read big-endian as one number. */
  function Pack(s: seq<Byte>): nat {
    if s == [] then 0 else s[0] * Pow256(|s| - 1) + Pack(s[1..])
  }

  /** The part of the score contributed by bytes `i` through 7. */
  function ScoreFrom(key: seq<Byte>, i: nat): nat
    requires i <= 8
  {
    Pack(Head(key)[i..])
  }

  /** Bytes `i..7` are byte `i` in its place plus bytes `i + 1..7`. */
  lemma {:induction false} ScoreFromDef(key: seq<Byte>, i: nat)
    requires i <= 8
    ensures ScoreFrom(key, i) == if i == 8 then 0 else ByteAt(key, i) * Unit(i + 1) + ScoreFrom(key, i + 1)
  {
    var s := Head(key)[i..];
    if i == 8 {
      assert s == [];
    } else {
      assert s[0] == ByteAt(key, i) && s[1..] == Head(key)[i + 1..];
    }
  }

  /** `1 << 64`: one more than the largest `uint64`. */
  const ScoreLimit: nat := 0x1_0000_0000_0000_0000

  /** The score of a key; it always fits in a `uint64`. */
  function Score(key: seq<Byte>): (r: nat)
    ensures r < ScoreLimit
  {
    ScoreFromBound(key, 0);
    assert Unit(0) == Pow256(8) == ScoreLimit;
    ScoreFrom(key, 0)
  }

  /** A byte times `u`, plus less than `u`, stays below any larger byte times `u`. */
  lemma {:induction false} Place(x: nat, r: nat, y: nat, u: nat)
    requires r < u && x < y
    ensures x * u + r < y * u
  {
    assert y * u == x * u + u + (y - x - 1) * u;
  }

  /** Bytes `i..7` fill exactly the low 64 - 8i bits. */
  lemma {:induction false} ScoreFromBound(key: seq<Byte>, i: nat)
    requires i <= 8
    ensures ScoreFrom(key, i) < Unit(i)
    decreases 8 - i
  {
    ScoreFromDef(key, i);
    if i < 8 {
      ScoreFromBound(key, i + 1);
      Place(ByteAt(key, i), ScoreFrom(key, i + 1), 256, Unit(i + 1));
    }
  }

  /** Positions past the end of the key contribute nothing. */
  lemma {:induction false} ScoreFromPastEnd(key: seq<Byte>, i: nat)
    requires |key| <= i <= 8
    ensures ScoreFrom(key, i) == 0
    decreases 8 - i
  {
    ScoreFromDef(key, i);
    if i < 8 {
      ScoreFromPastEnd(key, i + 1);
    }
  }

  /**
   * The loop of `calcScore`. `hash |= key[i] << shift` is written as an
   * addition: each shifted byte occupies bits that are still zero in `hash`.
   */
  method CalcScore(key: seq<Byte>) returns (score: nat)
    ensures score == Score(key)
  {
    var hash: nat := 0;
    var l := |key|;
    if l > 8 {
      l := 8;
    }
    var i := 0;
    while i < l
      invariant 0 <= i <= l <= 8 && l <= |key|
      invariant hash + ScoreFrom(key, i) == Score(key)
    {
      var shift := Shift(i);
      ShlIsUnit(key[i], i);
      ScoreFromDef(key, i);
      hash := hash + Shl(key[i], shift);
      i := i + 1;
    }
    if l < 8 {
      ScoreFromPastEnd(key, l);
    }
    score := hash;
  }

  /** A larger byte at position `i` outweighs everything after it. */
  lemma {:induction false} ScoreFromStrict(a: seq<Byte>, b: seq<Byte>, i: nat)
    requires i < 8 && ByteAt(a, i) < ByteAt(b, i)
    ensures ScoreFrom(a, i) < ScoreFrom(b, i)
  {
    ScoreFromDef(a, i);
    ScoreFromDef(b, i);
    ScoreFromBound(a, i + 1);
    Place(ByteAt(a, i), ScoreFrom(a, i + 1), ByteAt(b, i), Unit(i + 1));
  }

  /**
   * Two keys have the same score exactly when their first eight bytes agree,
   * counting missing bytes as zero.
   */
  lemma {:induction false} ScoreEqual(a: seq<Byte>, b: seq<Byte>)
    ensures Score(a) == Score(b) <==> forall t :: 0 <= t < 8 ==> ByteAt(a, t) == ByteAt(b, t)
  {
    ScoreFromEqual(a, b, 0);
  }

  lemma {:induction false} ScoreFromEqual(a: seq<Byte>, b: seq<Byte>, i: nat)
    requires i <= 8
    ensures ScoreFrom(a, i) == ScoreFrom(b, i) <==> forall t :: i <= t < 8 ==> ByteAt(a, t) == ByteAt(b, t)
    decreases 8 - i
  {
    ScoreFromDef(a, i);
    ScoreFromDef(b, i);
    if i < 8 {
      ScoreFromEqual(a, b, i + 1);
      if ByteAt(a, i) < ByteAt(b, i) {
        ScoreFromStrict(a, b, i);
      } else if ByteAt(b, i) < ByteAt(a, i) {
        ScoreFromStrict(b, a, i);
      }
    }
  }

  /** Bytes after the eighth never affect the score. */
  lemma {:induction false} ScoreIgnoresTail(a: seq<Byte>, b: seq<Byte>)
    requires |a| >= 8 && |b| >= 8 && a[..8] == b[..8]
    ensures Score(a) == Score(b)
  {
    forall t | 0 <= t < 8
      ensures ByteAt(a, t) == ByteAt(b, t)
    {
      assert a[t] == a[..8][t];
    }
    ScoreEqual(a, b);
  }

  /** The key with its first `i` bytes dropped (empty once `i` runs past it). */
  function Drop(key: seq<Byte>, i: nat): seq<Byte> {
    if i <= |key| then key[i..] else []
  }

  /** The score never contradicts the lexicographic order. */
  lemma {:induction false} ScoreMonotone(a: seq<Byte>, b: seq<Byte>)
    requires Less(a, b)
    ensures Score(a) <= Score(b)
  {
    assert Drop(a, 0) == a && Drop(b, 0) == b;
    ScoreFromMonotone(a, b, 0);
  }

  lemma {:induction false} ScoreFromMonotone(a: seq<Byte>, b: seq<Byte>, i: nat)
    requires i <= 8 && Less(Drop(a, i), Drop(b, i))
    ensures ScoreFrom(a, i) <= ScoreFrom(b, i)
    decreases 8 - i
  {
    if i < 8 {
      var x, y := Drop(a, i), Drop(b, i);
      if x == [] {
        ScoreFromPastEnd(a, i);
      } else {
        assert y != [];
        assert x[0] == ByteAt(a, i) && y[0] == ByteAt(b, i);
        if x[0] < y[0] {
          ScoreFromStrict(a, b, i);
        } else {
          assert x[1..] == Drop(a, i + 1) && y[1..] == Drop(b, i + 1);
          ScoreFromMonotone(a, b, i + 1);
          ScoreFromDef(a, i);
          ScoreFromDef(b, i);
        }
      }
    }
  }

  /** A strictly smaller score means a strictly smaller key. */
  lemma {:induction false} ScoreLess(a: seq<Byte>, b: seq<Byte>)
    requires Score(a) < Score(b)
    ensures Less(a, b)
  {
    LessTotal(a, b);
    if Less(b, a) {
      ScoreMonotone(b, a);
    }
  }
}

/**
 * 64-bit machine words (Go's uint64) and the bit operations the bitmaps apply
 * to them. A word is modelled as its 64 bits: w[i] is the bit of weight 2^i.
 * Each Go operator used by the bitmaps has a counterpart here (`&`, `|`, `^`,
 * `&^`, unary `^`, `<<`, `>>` and `+ 1`), and the hardware intrinsics
 * OnesCount64 and TrailingZeros64 are replaced by the specification functions
 * Popcount and TrailingZeros.
 */
module Words {

  /** A uint64, as its 64 bits, least significant first. */
  type Word = w: seq<bool> | |w| == 64 witness seq(64, _ => false)

  /** `uint64(0)` */
  function Zero(): Word
  {
    seq(64, _ => false)
  }

  /** `^uint64(0)` */
  function AllOnes(): Word
  {
    seq(64, _ => true)
  }

  /** `uint64(1)` */
  function One(): Word
  {
    seq(64, i => i == 0)
  }

  /** `a & b` */
  function And(a: Word, b: Word): Word
  {
    seq(64, i requires 0 <= i < 64 => a[i] && b[i])
  }

  /** `a | b` */
  function Or(a: Word, b: Word): Word
  {
    seq(64, i requires 0 <= i < 64 => a[i] || b[i])
  }

  /** `a ^ b` */
  function Xor(a: Word, b: Word): Word
  {
    seq(64, i requires 0 <= i < 64 => a[i] != b[i])
  }

  /** `a &^ b` (and not) */
  function AndNot(a: Word, b: Word): Word
  {
    seq(64, i requires 0 <= i < 64 => a[i] && !b[i])
  }

  /** `^a` (bitwise complement) */
  function Not(a: Word): Word
  {
    seq(64, i requires 0 <= i < 64 => !a[i])
  }

  /** `w << s`: zero when s >= 64, as in Go. */
  function ShiftLeft(w: Word, s: nat): Word
  {
    seq(64, i requires 0 <= i < 64 => i >= s && w[i - s])
  }

  /** `w >> s` (logical): zero when s >= 64, as in Go. */
  function ShiftRight(w: Word, s: nat): Word
  {
    seq(64, i requires 0 <= i < 64 => i + s < 64 && w[i + s])
  }

  /** 2^n */
  function Pow2(n: nat): (r: nat)
    ensures r >= 1
  {
    if n == 0 then 1 else 2 * Pow2(n - 1)
  }

  /** The unsigned number a sequence of bits denotes, least significant bit first. */
  function Value(bits: seq<bool>): (r: nat)
    ensures r < Pow2(|bits|)
  {
    if bits == [] then 0 else (if bits[0] then 1 else 0) + 2 * Value(bits[1..])
  }

  /** The low `width` bits of n, least significant first. */
  function ToBits(n: nat, width: nat): (r: seq<bool>)
    ensures |r| == width
  {
    if width == 0 then [] else [n % 2 == 1] + ToBits(n / 2, width - 1)
  }

  /** Ripple-carry increment of a bit sequence, wrapping around at its width. */
  function Increment(bits: seq<bool>): (r: seq<bool>)
    ensures |r| == |bits|
  {
    if bits == [] then []
    else if bits[0] then [false] + Increment(bits[1..])
    else [true] + bits[1..]
  }

  /** `w + 1` on uint64 (wrapping). */
  function Inc(w: Word): Word
  {
    Increment(w)
  }

  /** The positions >= k set in w, in ascending order. */
  function Positions(w: Word, k: nat): seq<nat>
    requires k <= 64
    decreases 64 - k
  {
    if k == 64 then []
    else if w[k] then [k] + Positions(w, k + 1)
    else Positions(w, k + 1)
  }

  /** The number of set bits of w (what OnesCount64 computes). */
  function Popcount(w: Word): nat
  {
    |Positions(w, 0)|
  }

  /** A word has at most 64 - k set positions at or above k. */
  lemma {:induction false} PositionsCount(w: Word, k: nat)
    requires k <= 64
    ensures |Positions(w, k)| <= 64 - k
    decreases 64 - k
  {
    if k < 64 {
      PositionsCount(w, k + 1);
    }
  }

  /** Strictly increasing sequence of naturals. */
  predicate Increasing(s: seq<nat>)
  {
    forall i, j :: 0 <= i < j < |s| ==> s[i] < s[j]
  }

  // ---------------------------------------------------------------------
  // Numbers and their bits

  /** Value and ToBits are inverse on numbers below 2^width. */
  lemma {:induction false} ValueOfBits(n: nat, width: nat)
    requires n < Pow2(width)
    ensures Value(ToBits(n, width)) == n
  {
    if width > 0 {
      ValueOfBits(n / 2, width - 1);
      assert ToBits(n, width)[1..] == ToBits(n / 2, width - 1);
    }
  }

  lemma {:induction false} BitsOfValue(bits: seq<bool>)
    ensures ToBits(Value(bits), |bits|) == bits
  {
    if bits != [] {
      BitsOfValue(bits[1..]);
    }
  }

  lemma {:induction false} ValueOfZeros(n: nat)
    ensures Value(seq(n, _ => false)) == 0
  {
    if n > 0 {
      assert seq(n, _ => false)[1..] == seq(n - 1, _ => false);
      ValueOfZeros(n - 1);
    }
  }

  /** The word zero denotes 0 and the word one denotes 1. */
  lemma ValueOfZeroAndOne()
    ensures Value(Zero()) == 0
    ensures Value(One()) == 1
  {
    ValueOfZeros(64);
    assert One()[1..] == seq(63, _ => false);
    ValueOfZeros(63);
  }

  /** Increment adds one modulo 2^width: it carries out exactly when every bit is set. */
  lemma {:induction false} IncrementValue(bits: seq<bool>)
    ensures Value(Increment(bits)) + (if forall i | 0 <= i < |bits| :: bits[i] then Pow2(|bits|) else 0)
      == Value(bits) + 1
  {
    if bits != [] {
      var rest := bits[1..];
      if bits[0] {
        IncrementValue(rest);
        assert (forall i | 0 <= i < |bits| :: bits[i]) == (forall i | 0 <= i < |rest| :: rest[i]) by {
          if forall i | 0 <= i < |rest| :: rest[i] {
            forall i | 0 <= i < |bits|
              ensures bits[i]
            {
              if i > 0 {
                assert bits[i] == rest[i - 1];
              }
            }
          }
        }
        assert Increment(bits)[1..] == Increment(rest);
      } else {
        assert Increment(bits)[1..] == rest;
      }
    }
  }

  /** Bit i of the increment flips exactly when every lower bit is set (the carry reaches it). */
  lemma {:induction false} IncrementBit(bits: seq<bool>, i: nat)
    requires i < |bits|
    ensures Increment(bits)[i] == (bits[i] != forall j | 0 <= j < i :: bits[j])
  {
    if i > 0 {
      var rest := bits[1..];
      if bits[0] {
        IncrementBit(rest, i - 1);
        assert (forall j | 0 <= j < i :: bits[j]) == (forall j | 0 <= j < i - 1 :: rest[j]) by {
          if forall j | 0 <= j < i - 1 :: rest[j] {
            forall j | 0 <= j < i
              ensures bits[j]
            {
              if j > 0 {
                assert bits[j] == rest[j - 1];
              }
            }
          }
        }
      } else {
        assert !(forall j | 0 <= j < i :: bits[j]);
      }
    }
  }

  // ---------------------------------------------------------------------
  // Positions

  lemma {:induction false} PositionsMembership(w: Word, k: nat, p: nat)
    requires k <= 64
    ensures p in Positions(w, k) <==> k <= p < 64 && w[p]
    decreases 64 - k
  {
    if k < 64 {
      PositionsMembership(w, k + 1, p);
    }
  }

  lemma {:induction false} PositionsBounds(w: Word, k: nat)
    requires k <= 64
    ensures Increasing(Positions(w, k))
    ensures forall i :: 0 <= i < |Positions(w, k)| ==> k <= Positions(w, k)[i] < 64
    decreases 64 - k
  {
    if k < 64 {
      PositionsBounds(w, k + 1);
    }
  }

  /** Positions depend only on the bits at or above k. */
  lemma {:induction false} PositionsAgree(w1: Word, w2: Word, k: nat)
    requires k <= 64
    requires forall p :: k <= p < 64 ==> w1[p] == w2[p]
    ensures Positions(w1, k) == Positions(w2, k)
    decreases 64 - k
  {
    if k < 64 {
      PositionsAgree(w1, w2, k + 1);
    }
  }

  /** Clear bits between k and r contribute nothing. */
  lemma {:induction false} PositionsSkip(w: Word, k: nat, r: nat)
    requires k <= r <= 64
    requires forall p :: k <= p < r ==> !w[p]
    ensures Positions(w, k) == Positions(w, r)
    decreases r - k
  {
    if k < r {
      PositionsSkip(w, k + 1, r);
    }
  }

  /** A word is zero exactly when it has no positions. */
  lemma PopcountZero(w: Word)
    ensures Popcount(w) == 0 <==> w == Zero()
  {
    if w == Zero() {
      PositionsSkip(w, 0, 64);
    } else {
      var p :| 0 <= p < 64 && w[p];
      PositionsMembership(w, 0, p);
    }
  }

  lemma {:induction false} PositionsOfAll(k: nat)
    requires k <= 64
    ensures |Positions(AllOnes(), k)| == 64 - k
    decreases 64 - k
  {
    if k < 64 {
      PositionsOfAll(k + 1);
    }
  }

  /**
   * Two words that differ only at position j, set in w1 and clear in w2:
   * w1 has one more position from k on when j >= k.
   */
  lemma {:induction false} PositionsOneMore(w1: Word, w2: Word, j: nat, k: nat)
    requires j < 64 && k <= 64
    requires w1[j] && !w2[j]
    requires forall p :: 0 <= p < 64 && p != j ==> w1[p] == w2[p]
    ensures |Positions(w1, k)| == |Positions(w2, k)| + (if k <= j then 1 else 0)
    decreases 64 - k
  {
    if k < 64 {
      PositionsOneMore(w1, w2, j, k + 1);
    }
  }

  /** Per position, inclusion-exclusion: |x or y| + |x and y| == |x| + |y|. */
  lemma {:induction false} PositionsInclusionExclusion(x: Word, y: Word, k: nat)
    requires k <= 64
    ensures |Positions(Or(x, y), k)| + |Positions(And(x, y), k)| == |Positions(x, k)| + |Positions(y, k)|
    decreases 64 - k
  {
    if k < 64 {
      PositionsInclusionExclusion(x, y, k + 1);
    }
  }

  /** The positions of x &^ y and of x & y split those of x. */
  lemma {:induction false} PositionsSplit(x: Word, y: Word, k: nat)
    requires k <= 64
    ensures |Positions(AndNot(x, y), k)| + |Positions(And(x, y), k)| == |Positions(x, k)|
    decreases 64 - k
  {
    if k < 64 {
      PositionsSplit(x, y, k + 1);
    }
  }

  // ---------------------------------------------------------------------
  // One bit at a time

  /** Setting bit j raises the population count by one exactly when it was clear. */
  lemma PopcountSet(w: Word, j: nat)
    requires j < 64
    ensures Popcount(Or(w, ShiftLeft(One(), j))) == Popcount(w) + (if w[j] then 0 else 1)
  {
    var w1 := Or(w, ShiftLeft(One(), j));
    if w[j] {
      PositionsAgree(w1, w, 0);
    } else {
      PositionsOneMore(w1, w, j, 0);
    }
  }

  /** Clearing bit j lowers the population count by one exactly when it was set. */
  lemma PopcountClear(w: Word, j: nat)
    requires j < 64
    ensures Popcount(AndNot(w, ShiftLeft(One(), j))) + (if w[j] then 1 else 0) == Popcount(w)
  {
    var w1 := AndNot(w, ShiftLeft(One(), j));
    if w[j] {
      PositionsOneMore(w, w1, j, 0);
    } else {
      PositionsAgree(w1, w, 0);
    }
  }

  /**
   * The increment `int((previous ^ (previous | mask)) >> (v & 63))` that Add
   * uses is 1 exactly when bit v & 63 was clear, and 0 when it was set.
   */
  lemma AddIncrement(w: Word, j: nat)
    requires j < 64
    ensures Value(ShiftRight(Xor(w, Or(w, ShiftLeft(One(), j))), j)) == if w[j] then 0 else 1
  {
    var x := Xor(w, Or(w, ShiftLeft(One(), j)));
    forall i | 0 <= i < 64 ensures x[i] == (i == j && !w[j]) {
    }
    ValueOfZeroAndOne();
    ShiftedFlag(x, j, !w[j]);
  }

  /** A word whose only possible set bit is bit j, shifted right by j, is 0 or 1. */
  lemma ShiftedFlag(x: Word, j: nat, b: bool)
    requires j < 64 && forall i :: 0 <= i < 64 ==> x[i] == (i == j && b)
    ensures ShiftRight(x, j) == if b then One() else Zero()
  {
    var d := ShiftRight(x, j);
    forall i | 0 <= i < 64 ensures d[i] == (if b then One() else Zero())[i] {
      if i + j < 64 {
        assert d[i] == x[i + j];
      }
    }
  }

  /** The test `w & (1 << p) != 0` reads bit p. */
  lemma TestBit(w: Word, p: nat)
    requires p < 64
    ensures (And(w, ShiftLeft(One(), p)) != Zero()) == w[p]
  {
    if w[p] {
      assert And(w, ShiftLeft(One(), p))[p];
    } else {
      assert And(w, ShiftLeft(One(), p)) == Zero();
    }
  }

  // ---------------------------------------------------------------------
  // Lowest set bit

  /** The index of the lowest set bit of a non-zero word (TrailingZeros64). */
  function TrailingZeros(w: Word): (r: nat)
    requires w != Zero()
    ensures r < 64 && w[r]
    ensures forall p :: 0 <= p < r ==> !w[p]
    ensures Positions(w, 0) == [r] + Positions(w, r + 1)
  {
    PopcountZero(w);
    PositionsBounds(w, 0);
    var r := Positions(w, 0)[0];
    PositionsMembership(w, 0, r);
    forall p | 0 <= p < r
      ensures !w[p]
    {
      PositionsMembership(w, 0, p);
    }
    PositionsSkip(w, 0, r);
    r
  }

  /** Lowest-bit isolation: `word & (^word + 1)` is `1 << TrailingZeros64(word)`. */
  lemma IsolateLowest(w: Word)
    requires w != Zero()
    ensures And(w, Inc(Not(w))) == ShiftLeft(One(), TrailingZeros(w))
  {
    var r := TrailingZeros(w);
    forall p | 0 <= p < 64
      ensures And(w, Inc(Not(w)))[p] == (p == r)
    {
      IncrementBit(Not(w), p);
      if p > r {
        assert !Not(w)[r];
      }
    }
  }

  /** Clearing the lowest set bit with `word ^= t` removes exactly the first position. */
  lemma ClearLowest(w: Word)
    requires w != Zero()
    ensures Positions(w, 0) == [TrailingZeros(w)] + Positions(Xor(w, And(w, Inc(Not(w)))), 0)
    ensures Popcount(Xor(w, And(w, Inc(Not(w))))) + 1 == Popcount(w)
  {
    var r := TrailingZeros(w);
    IsolateLowest(w);
    var w2 := Xor(w, And(w, Inc(Not(w))));
    PositionsSkip(w2, 0, r + 1);
    PositionsAgree(w2, w, r + 1);
  }
}

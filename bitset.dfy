/**
 * A dense bitset as a sequence of 64-bit words: value v is stored at bit
 * v % 64 of word v / 64 (the Go code's `v >> log2WordSize` and
 * `v & (wordSize - 1)`). This module holds the value-level meaning of such a
 * word sequence, shared by both dense bitmaps (fixed.Bitmap and the internal
 * boring.bitmap) and, through fixed.Bitmap, by the chunks of bitmaps.Bitmaps.
 */
module Bitset {
  import opened Words

  /** Value v is present in the words ws. */
  predicate Has(ws: seq<Word>, v: nat)
  {
    v / 64 < |ws| && ws[v / 64][v % 64]
  }

  /** The positions ps moved up by base. */
  function Offset(ps: seq<nat>, base: nat): (r: seq<nat>)
    ensures |r| == |ps|
    ensures forall i :: 0 <= i < |ps| ==> r[i] == base + ps[i]
  {
    if ps == [] then [] else [base + ps[0]] + Offset(ps[1..], base)
  }

  /** The values held by ws, in ascending order. */
  function Members(ws: seq<Word>): seq<nat>
  {
    if ws == [] then []
    else Members(ws[..|ws| - 1]) + Offset(Positions(ws[|ws| - 1], 0), 64 * (|ws| - 1))
  }

  /** Sum of the population counts of the words (what computeCardinality adds up). */
  function Card(ws: seq<Word>): nat
  {
    if ws == [] then 0 else Card(ws[..|ws| - 1]) + Popcount(ws[|ws| - 1])
  }

  /** A word sequence of n zero words (a freshly allocated bitset). */
  function Zeros(n: nat): (r: seq<Word>)
    ensures |r| == n
  {
    seq(n, _ => Zero())
  }

  // ---------------------------------------------------------------------
  // Members lists exactly the present values, once each, ascending

  /** Value 64 * n + p lives at bit p of word n. */
  lemma Split(n: nat, p: nat)
    requires p < 64
    ensures (64 * n + p) / 64 == n && (64 * n + p) % 64 == p
  {
  }

  /** The shifted positions of one word are the values that word holds. */
  lemma OffsetPositions(w: Word, n: nat, v: nat)
    ensures v in Offset(Positions(w, 0), 64 * n) <==> (v / 64 == n && w[v % 64])
  {
    if v in Offset(Positions(w, 0), 64 * n) {
      OffsetPositionsFrom(w, n, v);
    }
    if v / 64 == n && w[v % 64] {
      OffsetPositionsTo(w, n, v);
    }
  }

  lemma OffsetPositionsFrom(w: Word, n: nat, v: nat)
    requires v in Offset(Positions(w, 0), 64 * n)
    ensures v / 64 == n && w[v % 64]
  {
    var ps := Positions(w, 0);
    var tail := Offset(ps, 64 * n);
    PositionsBounds(w, 0);
    var i :| 0 <= i < |tail| && tail[i] == v;
    var p := ps[i];
    assert v == 64 * n + p && p < 64;
    Split(n, p);
    PositionsMembership(w, 0, p);
  }

  lemma OffsetPositionsTo(w: Word, n: nat, v: nat)
    requires v / 64 == n && w[v % 64]
    ensures v in Offset(Positions(w, 0), 64 * n)
  {
    var ps := Positions(w, 0);
    var p := v % 64;
    PositionsMembership(w, 0, p);
    var i :| 0 <= i < |ps| && ps[i] == p;
    assert v == 64 * n + p;
    assert Offset(ps, 64 * n)[i] == v;
  }

  lemma {:induction false} MembersOrder(ws: seq<Word>)
    ensures Increasing(Members(ws))
    ensures forall i :: 0 <= i < |Members(ws)| ==> Members(ws)[i] < 64 * |ws|
    ensures |Members(ws)| == Card(ws)
  {
    if ws != [] {
      var n := |ws| - 1;
      MembersOrder(ws[..n]);
      PositionsBounds(ws[n], 0);
      var a := Members(ws[..n]);
      var b := Offset(Positions(ws[n], 0), 64 * n);
      assert forall i :: 0 <= i < |b| ==> 64 * n <= b[i] < 64 * |ws|;
      assert Increasing(b);
    }
  }

  lemma {:induction false} MembersProperties(ws: seq<Word>)
    ensures Increasing(Members(ws))
    ensures forall i :: 0 <= i < |Members(ws)| ==> Members(ws)[i] < 64 * |ws|
    ensures forall v: nat :: v in Members(ws) <==> Has(ws, v)
    ensures |Members(ws)| == Card(ws)
  {
    MembersOrder(ws);
    if ws != [] {
      var n := |ws| - 1;
      MembersProperties(ws[..n]);
      forall v: nat
        ensures v in Members(ws) <==> Has(ws, v)
      {
        OffsetPositions(ws[n], n, v);
        assert Has(ws[..n], v) <==> (v / 64 < n && Has(ws, v));
      }
    }
  }

  /** Members of ws are exactly its present values. */
  lemma MembersHas(ws: seq<Word>, v: nat)
    ensures v in Members(ws) <==> Has(ws, v)
  {
    MembersProperties(ws);
  }

  /** The members of a prefix are a prefix of the members. */
  lemma MembersOfPrefix(ws: seq<Word>, i: nat)
    requires i < |ws|
    ensures Members(ws[..i + 1]) == Members(ws[..i]) + Offset(Positions(ws[i], 0), 64 * i)
  {
    assert ws[..i + 1][..i] == ws[..i];
  }

  /** The members of the first k words come first among all members. */
  lemma {:induction false} MembersPrefix(ws: seq<Word>, k: nat)
    requires k <= |ws|
    ensures |Members(ws[..k])| <= |Members(ws)|
    ensures Members(ws)[..|Members(ws[..k])|] == Members(ws[..k])
  {
    if k < |ws| {
      var n := |ws| - 1;
      assert ws[..n][..k] == ws[..k];
      MembersPrefix(ws[..n], k);
    } else {
      assert ws[..k] == ws;
    }
  }

  // ---------------------------------------------------------------------
  // Cardinality

  lemma CardOfPrefix(ws: seq<Word>, i: nat)
    requires i < |ws|
    ensures Card(ws[..i + 1]) == Card(ws[..i]) + Popcount(ws[i])
  {
    assert ws[..i + 1][..i] == ws[..i];
  }

  /** At most 64 values per word. */
  lemma {:induction false} CardBound(ws: seq<Word>)
    ensures Card(ws) <= 64 * |ws|
  {
    if ws != [] {
      CardBound(ws[..|ws| - 1]);
      PositionsCount(ws[|ws| - 1], 0);
    }
  }

  /** Replacing word i changes the cardinality by the difference of the two population counts. */
  lemma {:induction false} CardUpdate(ws: seq<Word>, i: nat, w: Word)
    requires i < |ws|
    ensures Card(ws[i := w]) + Popcount(ws[i]) == Card(ws) + Popcount(w)
  {
    var n := |ws| - 1;
    if i < n {
      assert ws[i := w][..n] == ws[..n][i := w];
      CardUpdate(ws[..n], i, w);
    } else {
      assert ws[i := w][..n] == ws[..n];
    }
  }

  /** A fresh bitset holds nothing. */
  lemma {:induction false} ZerosEmpty(n: nat)
    ensures Card(Zeros(n)) == 0
    ensures Members(Zeros(n)) == []
    ensures forall v: nat :: !Has(Zeros(n), v)
  {
    if n > 0 {
      assert Zeros(n)[..n - 1] == Zeros(n - 1);
      ZerosEmpty(n - 1);
      PopcountZero(Zero());
    }
  }

  /** A bitset is empty exactly when its cardinality is 0. */
  lemma CardZero(ws: seq<Word>)
    ensures Card(ws) == 0 <==> ws == Zeros(|ws|)
  {
    MembersProperties(ws);
    ZerosEmpty(|ws|);
    if Card(ws) == 0 {
      forall v: nat ensures Has(ws, v) == Has(Zeros(|ws|), v) {
        if Has(ws, v) {
          MembersHas(ws, v);
        }
      }
      SameValues(ws, Zeros(|ws|));
    }
  }

  /** Two word sequences of the same length holding the same values are equal. */
  lemma SameValues(a: seq<Word>, b: seq<Word>)
    requires |a| == |b|
    requires forall v: nat :: Has(a, v) == Has(b, v)
    ensures a == b
  {
    forall i | 0 <= i < |a|
      ensures a[i] == b[i]
    {
      forall p | 0 <= p < 64
        ensures a[i][p] == b[i][p]
      {
        var v := 64 * i + p;
        assert v / 64 == i && v % 64 == p;
        assert Has(a, v) == Has(b, v);
      }
    }
  }

  // ---------------------------------------------------------------------
  // One value at a time

  /** `set[v >> 6] |= 1 << (v & 63)` */
  function SetBit(ws: seq<Word>, v: nat): (r: seq<Word>)
    requires v / 64 < |ws|
    ensures |r| == |ws|
  {
    ws[v / 64 := Or(ws[v / 64], ShiftLeft(One(), v % 64))]
  }

  /** `set[v >> 6] &^= 1 << (v & 63)` */
  function ClearBit(ws: seq<Word>, v: nat): (r: seq<Word>)
    requires v / 64 < |ws|
    ensures |r| == |ws|
  {
    ws[v / 64 := AndNot(ws[v / 64], ShiftLeft(One(), v % 64))]
  }

  /** Setting bit v adds v and nothing else, and counts one more exactly when v was absent. */
  lemma SetBitEffect(ws: seq<Word>, v: nat)
    requires v / 64 < |ws|
    ensures forall u: nat :: Has(SetBit(ws, v), u) == (u == v || Has(ws, u))
    ensures Card(SetBit(ws, v)) == Card(ws) + (if Has(ws, v) then 0 else 1)
  {
    forall u: nat ensures Has(SetBit(ws, v), u) == (u == v || Has(ws, u)) {
      if u / 64 == v / 64 && u % 64 == v % 64 {
        assert u == 64 * (u / 64) + u % 64;
        assert v == 64 * (v / 64) + v % 64;
      }
    }
    CardUpdate(ws, v / 64, Or(ws[v / 64], ShiftLeft(One(), v % 64)));
    PopcountSet(ws[v / 64], v % 64);
  }

  /** Clearing bit v removes v and nothing else, and counts one fewer exactly when v was present. */
  lemma ClearBitEffect(ws: seq<Word>, v: nat)
    requires v / 64 < |ws|
    ensures forall u: nat :: Has(ClearBit(ws, v), u) == (u != v && Has(ws, u))
    ensures Card(ClearBit(ws, v)) + (if Has(ws, v) then 1 else 0) == Card(ws)
  {
    forall u: nat ensures Has(ClearBit(ws, v), u) == (u != v && Has(ws, u)) {
      if u / 64 == v / 64 && u % 64 == v % 64 {
        assert u == 64 * (u / 64) + u % 64;
        assert v == 64 * (v / 64) + v % 64;
      }
    }
    CardUpdate(ws, v / 64, AndNot(ws[v / 64], ShiftLeft(One(), v % 64)));
    PopcountClear(ws[v / 64], v % 64);
  }

  /** Setting then clearing (or clearing twice) leaves the cleared state: removal is idempotent. */
  lemma ClearBitTwice(ws: seq<Word>, v: nat)
    requires v / 64 < |ws|
    ensures ClearBit(ClearBit(ws, v), v) == ClearBit(ws, v)
  {
    ClearBitEffect(ws, v);
    ClearBitEffect(ClearBit(ws, v), v);
    SameValues(ClearBit(ClearBit(ws, v), v), ClearBit(ws, v));
  }

  // ---------------------------------------------------------------------
  // Word-wise operations over the first |o| words (and, or, and-not)

  /** Bitwise operator selector of the binary operations. */
  datatype Op = Intersect | Union | Difference

  /** `x & y`, `x | y` or `x &^ y`. */
  function Apply(op: Op, x: Word, y: Word): Word
  {
    match op
    case Intersect => And(x, y)
    case Union => Or(x, y)
    case Difference => AndNot(x, y)
  }

  /**
   * The receiver's words after `set[i] = set[i] <op> o.set[i]` for every
   * i < len(o.set); the words beyond len(o.set) are left as they are. (The Go
   * loops index past the receiver when o is longer; the methods require
   * that it is not, so the words of o beyond a play no part here.)
   */
  function Combine(op: Op, a: seq<Word>, o: seq<Word>): (r: seq<Word>)
    ensures |r| == |a|
  {
    seq(|a|, i requires 0 <= i < |a| => if i < |o| then Apply(op, a[i], o[i]) else a[i])
  }

  /** What the combined value set means, value by value. */
  predicate Combined(op: Op, inA: bool, inO: bool)
  {
    match op
    case Intersect => inA && inO
    case Union => inA || inO
    case Difference => inA && !inO
  }

  /**
   * Combining two word sequences of the same length yields the intersection,
   * union or difference of their values. When o is shorter, the values of a in
   * the words beyond o are kept unchanged.
   */
  lemma CombineHas(op: Op, a: seq<Word>, o: seq<Word>, v: nat)
    requires |o| <= |a|
    ensures Has(Combine(op, a, o), v) ==
      if v / 64 < |o| then Combined(op, Has(a, v), Has(o, v)) else Has(a, v)
  {
  }

  /** Inclusion-exclusion over words: |a or b| + |a and b| == |a| + |b|. */
  lemma {:induction false} CardInclusionExclusion(a: seq<Word>, b: seq<Word>)
    requires |a| == |b|
    ensures Card(Combine(Union, a, b)) + Card(Combine(Intersect, a, b)) == Card(a) + Card(b)
  {
    if a != [] {
      var n := |a| - 1;
      assert Combine(Union, a, b)[..n] == Combine(Union, a[..n], b[..n]);
      assert Combine(Intersect, a, b)[..n] == Combine(Intersect, a[..n], b[..n]);
      CardInclusionExclusion(a[..n], b[..n]);
      PositionsInclusionExclusion(a[n], b[n], 0);
    }
  }

  /** The difference and the intersection split the receiver: |a &^ b| + |a & b| == |a|. */
  lemma {:induction false} CardSplit(a: seq<Word>, b: seq<Word>)
    requires |a| == |b|
    ensures Card(Combine(Difference, a, b)) + Card(Combine(Intersect, a, b)) == Card(a)
  {
    if a != [] {
      var n := |a| - 1;
      assert Combine(Difference, a, b)[..n] == Combine(Difference, a[..n], b[..n]);
      assert Combine(Intersect, a, b)[..n] == Combine(Intersect, a[..n], b[..n]);
      CardSplit(a[..n], b[..n]);
      PositionsSplit(a[n], b[n], 0);
    }
  }

  /** Folding the operation over several operands, in order (the `*Bitmaps` helpers). */
  function CombineAll(op: Op, a: seq<Word>, os: seq<seq<Word>>): (r: seq<Word>)
    ensures |r| == |a|
  {
    if os == [] then a
    else Combine(op, CombineAll(op, a, os[..|os| - 1]), os[|os| - 1])
  }

  /** One more operand folded in. */
  lemma CombineAllStep(op: Op, a: seq<Word>, os: seq<seq<Word>>, i: nat)
    requires i < |os|
    ensures CombineAll(op, a, os[..i + 1]) == Combine(op, CombineAll(op, a, os[..i]), os[i])
  {
    assert os[..i + 1][..i] == os[..i];
  }

  /** Over operands of equal length, folding and is the intersection of all, folding or the union of all. */
  lemma {:induction false} CombineAllHas(op: Op, a: seq<Word>, os: seq<seq<Word>>, v: nat)
    requires forall i :: 0 <= i < |os| ==> |os[i]| == |a|
    requires op != Difference
    ensures Has(CombineAll(op, a, os), v) ==
      if op == Intersect then Has(a, v) && forall i :: 0 <= i < |os| ==> Has(os[i], v)
      else Has(a, v) || exists i :: 0 <= i < |os| && Has(os[i], v)
  {
    if os != [] {
      var n := |os| - 1;
      var init := os[..n];
      CombineAllHas(op, a, init, v);
      CombineHas(op, CombineAll(op, a, init), os[n], v);
      if op == Intersect {
        if forall i :: 0 <= i < |init| ==> Has(init[i], v) {
          if Has(os[n], v) {
            assert forall i :: 0 <= i < |os| ==> Has(os[i], v) by {
              forall i | 0 <= i < |os| ensures Has(os[i], v) {
                if i < n {
                  assert os[i] == init[i];
                }
              }
            }
          }
        } else {
          var i :| 0 <= i < |init| && !Has(init[i], v);
          assert os[i] == init[i];
        }
      } else {
        if exists i :: 0 <= i < |os| && Has(os[i], v) {
          var i :| 0 <= i < |os| && Has(os[i], v);
          if i < n {
            assert init[i] == os[i];
          }
        }
      }
    }
  }

  /**
   * Folding over a list of operands of equal length: and keeps the values
   * present in all of them, or the values present in any of them.
   */
  lemma FoldHas(op: Op, all: seq<seq<Word>>, v: nat)
    requires |all| > 0 && forall i :: 0 <= i < |all| ==> |all[i]| == |all[0]|
    requires op != Difference
    ensures Has(CombineAll(op, all[0], all[1..]), v) ==
      if op == Intersect then forall i :: 0 <= i < |all| ==> Has(all[i], v)
      else exists i :: 0 <= i < |all| && Has(all[i], v)
  {
    var os := all[1..];
    CombineAllHas(op, all[0], os, v);
    if op == Intersect {
      if Has(all[0], v) && forall i :: 0 <= i < |os| ==> Has(os[i], v) {
        forall i | 0 <= i < |all| ensures Has(all[i], v) {
          if i > 0 {
            assert all[i] == os[i - 1];
          }
        }
      } else if !Has(all[0], v) {
      } else {
        var i :| 0 <= i < |os| && !Has(os[i], v);
        assert os[i] == all[i + 1];
      }
    } else {
      if exists i :: 0 <= i < |all| && Has(all[i], v) {
        var i :| 0 <= i < |all| && Has(all[i], v);
        if i > 0 {
          assert all[i] == os[i - 1];
        }
      }
      if exists i :: 0 <= i < |os| && Has(os[i], v) {
        var i :| 0 <= i < |os| && Has(os[i], v);
        assert os[i] == all[i + 1];
      }
    }
  }

  /** A bitset has no value exactly when its count is 0. */
  lemma CardEmpty(ws: seq<Word>)
    ensures Card(ws) == 0 <==> forall v: nat :: !Has(ws, v)
  {
    MembersProperties(ws);
    if Card(ws) != 0 {
      assert Has(ws, Members(ws)[0]);
    }
  }

  /** Equal words with equal counts are exactly equal value sets (the test `Equals` makes). */
  lemma SameBitmap(a: seq<Word>, b: seq<Word>)
    requires |a| == |b|
    ensures (Card(a) == Card(b) && a == b) <==> forall v: nat :: Has(a, v) == Has(b, v)
  {
    if forall v: nat :: Has(a, v) == Has(b, v) {
      SameValues(a, b);
    }
  }

  // ---------------------------------------------------------------------
  // Flipping a range

  /** `^(^uint64(0) << (start & 63))`: the positions of the start word below start. */
  function LowMask(start: nat): Word
  {
    Not(ShiftLeft(AllOnes(), start % 64))
  }

  /** `^uint64(0) >> (-stop & 63)`: the positions of the end word below stop, or all 64 when stop % 64 == 0. */
  function EndMask(stop: nat): Word
  {
    ShiftRight(AllOnes(), (64 - stop % 64) % 64)
  }

  /** What word j has been xored with once the complementing loop has reached word i. */
  function RunMask(j: nat, start: nat, i: nat): Word
  {
    Xor(if j == start / 64 then LowMask(start) else Zero(),
        if start / 64 <= j < i then AllOnes() else Zero())
  }

  /**
   * The mask FlipInt xors into word i: the low mask in the start word, all
   * ones from the start word up to (not including) the end word, and the end
   * mask in the end word.
   */
  function FlipMask(i: nat, start: nat, stop: nat): Word
  {
    Xor(RunMask(i, start, stop / 64), if i == stop / 64 then EndMask(stop) else Zero())
  }

  /** The words after the three xor steps of FlipInt(start, stop). */
  function Flip(ws: seq<Word>, start: nat, stop: nat): (r: seq<Word>)
    ensures |r| == |ws|
  {
    seq(|ws|, i requires 0 <= i < |ws| => Xor(ws[i], FlipMask(i, start, stop)))
  }

  /**
   * Where the flipped range ends: stop, except when stop is a multiple of 64,
   * where the end mask `^uint64(0) >> 0` covers the whole end word.
   */
  function FlipEnd(stop: nat): (e: nat)
    ensures stop <= e <= stop + 64
    ensures stop % 64 != 0 ==> e == stop
  {
    if stop % 64 == 0 then stop + 64 else stop
  }

  /**
   * For start <= stop, flipping toggles exactly the values in
   * [start, FlipEnd(stop)) among those the words can hold, and no other.
   */
  lemma FlipHas(ws: seq<Word>, start: nat, stop: nat, v: nat)
    requires start <= stop && v < 64 * |ws|
    ensures Has(Flip(ws, start, stop), v) == (Has(ws, v) != (start <= v < FlipEnd(stop)))
  {
    var i := v / 64;
    var p := v % 64;
    assert v == 64 * i + p;
    assert start == 64 * (start / 64) + start % 64;
    assert stop == 64 * (stop / 64) + stop % 64;
  }

  /**
   * For start > stop the complementing loop runs no round, so flipping
   * toggles the values below start in the start word and those of the end
   * word below FlipEnd(stop), each once: a value in both is kept.
   */
  lemma FlipHasReversed(ws: seq<Word>, start: nat, stop: nat, v: nat)
    requires stop < start && v < 64 * |ws|
    ensures Has(Flip(ws, start, stop), v) ==
      (Has(ws, v) != ((64 * (start / 64) <= v < start) != (64 * (stop / 64) <= v < FlipEnd(stop))))
  {
    var i := v / 64;
    var p := v % 64;
    assert v == 64 * i + p;
    assert start == 64 * (start / 64) + start % 64;
    assert stop == 64 * (stop / 64) + stop % 64;
    assert stop / 64 <= start / 64;
    assert RunMask(i, start, stop / 64)[p] == (i == start / 64 && p < start % 64);
    assert (i == stop / 64 && EndMask(stop)[p]) == (64 * (stop / 64) <= v < FlipEnd(stop));
    assert (i == start / 64 && p < start % 64) == (64 * (start / 64) <= v < start);
  }

  /** The words a flip cannot reach are beyond the end word: flipping keeps values past it. */
  lemma FlipBeyond(ws: seq<Word>, start: nat, stop: nat, v: nat)
    requires start <= stop && v / 64 > stop / 64
    ensures Has(Flip(ws, start, stop), v) == Has(ws, v)
  {
  }
}

/**
 * bitmaps.Bitmaps (bitmaps/bitmaps.go): a domain of Chunks * Bits values cut
 * into Chunks chunks, each an optional fixed.Bitmap of capacity Bits. Value v
 * lives in chunk v / Bits at offset v % Bits.
 *
 * The abstract state of a Bitmaps is one Slot per chunk; every method is
 * stated as a function of the old slots, and the functions below are related
 * to membership (Contains) and to the listing (ToArray) by lemmas.
 */
module Chunked {
  import opened Words
  import opened Bitset
  import opened Format
  import Dense
  import Fixed
  import Arrays

  /** Go's `uint32` arithmetic wraps modulo this. */
  const Modulus32 := 0x1_0000_0000

  /** A chunk: nil, or a fixed.Bitmap's capacity, words and cached count. */
  datatype Slot = Absent | Present(nbits: nat, words: seq<Word>, cardinality: int)

  /** What `fixed.NewBitmap(bits)` holds. */
  function Fresh(bits: nat): (r: Slot)
    ensures r.Present? && |r.words| == NumWords(bits) && r.cardinality == 0
    ensures SlotValid(r, bits) && forall v: nat :: !Has(r.words, v)
  {
    ZerosEmpty(NumWords(bits));
    Present(bits, Zeros(NumWords(bits)), 0)
  }

  /** A present chunk has capacity bits, NumWords(bits) words and its population count cached. */
  predicate SlotValid(a: Slot, bits: nat)
  {
    a.Present? ==> a.nbits == bits && |a.words| == NumWords(bits) && a.cardinality == Card(a.words)
  }

  /** Every chunk is valid for capacity bits. */
  predicate Uniform(s: seq<Slot>, bits: nat)
  {
    forall i :: 0 <= i < |s| ==> SlotValid(s[i], bits)
  }

  /** The chunk is present and holds offset v. */
  predicate Holds(a: Slot, v: nat)
  {
    a.Present? && Has(a.words, v)
  }

  /** No chunk holds an offset of bits or more (only Flip can break this; see FlipStray). */
  ghost predicate Tidy(s: seq<Slot>, bits: nat)
  {
    forall i, v: nat :: 0 <= i < |s| && Holds(s[i], v) ==> v < bits
  }

  /** Chunk v / bits exists and is present. */
  predicate Kept(s: seq<Slot>, bits: nat, v: nat)
    requires bits > 0
  {
    v / bits < |s| && s[v / bits].Present?
  }

  /** `Contains(v)`: chunk v / bits is present and holds offset v % bits. */
  predicate In(s: seq<Slot>, bits: nat, v: nat)
    requires bits > 0
  {
    v / bits < |s| && Holds(s[v / bits], v % bits)
  }

  // ---------------------------------------------------------------------
  // The listing: chunk after chunk, chunk * Bits + offset as uint32

  /** The offsets ms moved up by base, each sum wrapped to uint32 as Go's `uint32(chunk)*Bits + v` is. */
  function Shifted(ms: seq<nat>, base: nat): (r: seq<U32>)
    ensures |r| == |ms|
  {
    Dense.Convert(m => Trunc32(base + m), ms)
  }

  /** Ascending offsets below bits stay ascending, and unwrapped, when the band [base, base + bits) fits uint32. */
  lemma ShiftedFacts(ms: seq<nat>, base: nat, bits: nat)
    requires Increasing(ms) && base + bits <= Modulus32
    requires forall k :: 0 <= k < |ms| ==> ms[k] < bits
    ensures forall k :: 0 <= k < |ms| ==> Shifted(ms, base)[k] == base + ms[k]
    ensures Increasing(Shifted(ms, base))
    ensures forall x :: x in Shifted(ms, base) <==> base <= x && x - base in ms
  {
    var r := Shifted(ms, base);
    ShiftedUnwrapped(ms, base, bits);
    forall i, j | 0 <= i < j < |r|
      ensures r[i] < r[j]
    {
      assert ms[i] < ms[j];
    }
    MovedUp(ms, r, base);
  }

  /** A sequence whose every element is base above ms's holds exactly the values base above ms's. */
  lemma MovedUp(ms: seq<nat>, r: seq<U32>, base: nat)
    requires |r| == |ms| && forall k :: 0 <= k < |ms| ==> r[k] == base + ms[k]
    ensures forall x :: x in r <==> base <= x && x - base in ms
  {
    forall x | x in r
      ensures base <= x && x - base in ms
    {
      var k :| 0 <= k < |r| && r[k] == x;
      assert ms[k] == x - base;
    }
    forall x | base <= x && x - base in ms
      ensures x in r
    {
      var k :| 0 <= k < |ms| && ms[k] == x - base;
      assert r[k] == x;
    }
  }

  /** Offsets below bits placed in a band that fits uint32 do not wrap. */
  lemma ShiftedUnwrapped(ms: seq<nat>, base: nat, bits: nat)
    requires base + bits <= Modulus32
    requires forall k :: 0 <= k < |ms| ==> ms[k] < bits
    ensures forall k :: 0 <= k < |ms| ==> Shifted(ms, base)[k] == base + ms[k]
  {
    var r := Shifted(ms, base);
    forall k | 0 <= k < |ms|
      ensures r[k] == base + ms[k]
    {
      ModSmall(base + ms[k], Modulus32);
      assert r[k] == Trunc32(base + ms[k]);
    }
  }

  /** What `ToArray()` appends for a chunk whose values start at base. */
  function ChunkValues(a: Slot, base: nat): (r: seq<U32>)
    ensures a.Absent? ==> r == []
  {
    if a.Absent? then [] else Shifted(Members(a.words), base)
  }

  /** One listing piece per chunk, chunk i starting at i * bits. */
  function Pieces(s: seq<Slot>, bits: nat): (r: seq<seq<U32>>)
    ensures |r| == |s| && forall i :: 0 <= i < |s| ==> r[i] == ChunkValues(s[i], i * bits)
  {
    seq(|s|, i requires 0 <= i < |s| => ChunkValues(s[i], i * bits))
  }

  /** The pieces one after the other. */
  function Concat(p: seq<seq<U32>>): seq<U32>
  {
    if p == [] then [] else Concat(p[..|p| - 1]) + p[|p| - 1]
  }

  /** `ToArray()`: every chunk's values, in chunk order. */
  function Elements(s: seq<Slot>, bits: nat): seq<U32>
  {
    Concat(Pieces(s, bits))
  }

  lemma {:induction false} ConcatSplit(p: seq<seq<U32>>, k: nat)
    requires k <= |p|
    ensures Concat(p) == Concat(p[..k]) + Concat(p[k..])
  {
    if k < |p| {
      var n := |p| - 1;
      ConcatSplit(p[..n], k);
      assert p[..n][..k] == p[..k];
      assert p[k..][..|p[k..]| - 1] == p[..n][k..];
    } else {
      assert p[..k] == p;
    }
  }

  /** Every piece holds ascending values whose chunk, value / bits, is the piece's index. */
  ghost predicate Banded(p: seq<seq<U32>>, bits: nat)
    requires bits > 0
  {
    (forall i :: 0 <= i < |p| ==> Increasing(p[i])) &&
    forall i, x :: 0 <= i < |p| && x in p[i] ==> x / bits == i
  }

  /** Banded pieces concatenate to ascending values, each found in the piece of its chunk. */
  lemma {:induction false} ConcatFacts(p: seq<seq<U32>>, bits: nat)
    requires bits > 0 && Banded(p, bits)
    ensures Increasing(Concat(p))
    ensures forall x: nat :: x in Concat(p) <==> x / bits < |p| && x in p[x / bits]
  {
    if p != [] {
      var n := |p| - 1;
      var c, q := Concat(p[..n]), p[n];
      assert Banded(p[..n], bits);
      ConcatFacts(p[..n], bits);
      forall i, j | 0 <= i < j < |c + q|
        ensures (c + q)[i] < (c + q)[j]
      {
        if i < |c| && j >= |c| {
          var x, y := c[i], q[j - |c|];
          assert x in c && y in q;
          if y <= x {
            DivMono(y, x, bits);
          }
        }
      }
    }
  }

  /** Division by a positive number is monotone. */
  lemma DivMono(x: nat, y: nat, bits: nat)
    requires bits > 0 && x <= y
    ensures x / bits <= y / bits
  {
    if x / bits > y / bits {
      MulAtLeast(x / bits - y / bits, bits);
    }
  }

  lemma {:induction false} MulAtLeast(k: int, d: int)
    requires k >= 1 && d > 0
    ensures k * d >= d
  {
    if k > 1 {
      MulAtLeast(k - 1, d);
      assert k * d == (k - 1) * d + d;
    }
  }

  /** x lies in band [n * bits, n * bits + bits) exactly when its chunk is n, and then its offset is x - n * bits. */
  lemma BandOf(x: nat, n: nat, bits: nat, base: nat)
    requires bits > 0 && base == n * bits
    ensures base <= x < base + bits <==> x / bits == n
    ensures x / bits == n ==> x % bits == x - base
  {
    if base <= x < base + bits {
      DivModUnique(x, bits, n, x - base);
    }
    if x / bits == n {
      assert x == n * bits + x % bits;
    }
  }

  /** Quotient and remainder are the only ones with x == q * d + r and 0 <= r < d. */
  lemma DivModUnique(x: int, d: int, q: int, r: int)
    requires d > 0 && 0 <= r < d && x == q * d + r
    ensures x / d == q && x % d == r
  {
    var q' := x / d;
    assert x == q' * d + x % d;
    if q' > q {
      MulAtLeast(q' - q, d);
    } else if q' < q {
      MulAtLeast(q - q', d);
    }
  }

  /** Adding a multiple of the modulus leaves the remainder alone. */
  lemma ModMultiple(x: int, k: int, d: int)
    requires d > 0
    ensures (x + k * d) % d == x % d
  {
    assert (x / d + k) * d == x / d * d + k * d;
    DivModUnique(x + k * d, d, x / d + k, x % d);
  }

  /** Go's uint64 `c += x`: summing remainders is the remainder of the sum. */
  lemma ModAdd(a: nat, b: nat, d: nat)
    requires d > 0
    ensures (a % d + b % d) % d == (a + b) % d
  {
    assert a == a / d * d + a % d && b == b / d * d + b % d;
    assert a % d + b % d + (a / d + b / d) * d == a + b;
    ModMultiple(a % d + b % d, a / d + b / d, d);
  }

  /** `uint32(c)*bits + v` in uint32 arithmetic is c * bits + v modulo 2^32. */
  lemma WrapPlace(c: nat, bits: nat, v: nat)
    ensures Trunc32(Trunc32(Trunc32(c) * bits) + Trunc32(v)) == Trunc32(c * bits + v)
  {
    var m := Modulus32;
    var c0 := Trunc32(c);
    var p := c0 * bits;
    var p0 := Trunc32(p);
    assert c == c / m * m + c0;
    assert c * bits == (c / m * m + c0) * bits == c / m * m * bits + p;
    assert c * bits == p + c / m * bits * m;
    assert p == p / m * m + p0;
    assert v == v / m * m + Trunc32(v);
    assert p0 + Trunc32(v) + (c / m * bits + p / m + v / m) * m == c * bits + v;
    ModMultiple(p0 + Trunc32(v), c / m * bits + p / m + v / m, m);
  }

  /** Adding a uint32 value wraps like adding the value itself. */
  lemma AddWrap(y: nat, m: nat)
    ensures Trunc32(y + Trunc32(m)) == Trunc32(y + m)
  {
    assert m == m / Modulus32 * Modulus32 + Trunc32(m);
    ModMultiple(y + Trunc32(m), m / Modulus32, Modulus32);
  }

  /** A chunk with offsets below bits lists ascending values, exactly those of band n that it holds. */
  lemma ChunkFacts(a: Slot, n: nat, bits: nat, base: nat)
    requires bits > 0 && base == n * bits && base + bits <= Modulus32
    requires forall v: nat :: Holds(a, v) ==> v < bits
    ensures Increasing(ChunkValues(a, base))
    ensures forall x: nat :: x in ChunkValues(a, base) <==> x / bits == n && Holds(a, x % bits)
  {
    if a.Present? {
      forall v: nat | Has(a.words, v)
        ensures v < bits
      {
        assert Holds(a, v);
      }
      WordsFacts(a.words, n, bits, base);
    }
  }

  /** ChunkFacts for the words of a present chunk. */
  lemma WordsFacts(ws: seq<Word>, n: nat, bits: nat, base: nat)
    requires bits > 0 && base == n * bits && base + bits <= Modulus32
    requires forall v: nat :: Has(ws, v) ==> v < bits
    ensures Increasing(Shifted(Members(ws), base))
    ensures forall x: nat :: x in Shifted(Members(ws), base) <==> x / bits == n && Has(ws, x % bits)
  {
    var ms := Members(ws);
    MembersProperties(ws);
    forall k | 0 <= k < |ms|
      ensures ms[k] < bits
    {
      assert ms[k] in ms;
    }
    ShiftedFacts(ms, base, bits);
    var sh := Shifted(ms, base);
    forall x: nat
      ensures x in sh <==> x / bits == n && Has(ws, x % bits)
    {
      BandOf(x, n, bits, base);
      if base <= x {
        assert (x in sh) == (x - base in ms) == Has(ws, x - base);
      } else {
        assert x !in sh;
      }
    }
  }

  /** Chunk i's piece lists exactly the values x with x / bits == i that are present. */
  lemma PieceFacts(s: seq<Slot>, bits: nat, i: nat)
    requires bits > 0 && i < |s| && (i + 1) * bits <= Modulus32 && Tidy(s, bits)
    ensures Increasing(Pieces(s, bits)[i])
    ensures forall x: nat :: x in Pieces(s, bits)[i] <==> x / bits == i && In(s, bits, x)
  {
    MulSucc(i, bits);
    ChunkFacts(s[i], i, bits, i * bits);
  }

  lemma MulSucc(n: nat, bits: nat)
    ensures (n + 1) * bits == n * bits + bits
  {
  }

  /**
   * When no chunk holds an offset of bits or more and the domain fits
   * uint32, the listing is ascending and holds exactly the present values.
   */
  lemma ElementsFacts(s: seq<Slot>, bits: nat)
    requires bits > 0 && |s| * bits <= Modulus32 && Tidy(s, bits)
    ensures Increasing(Elements(s, bits))
    ensures forall x: nat :: x in Elements(s, bits) <==> In(s, bits, x)
  {
    var p := Pieces(s, bits);
    forall i | 0 <= i < |s|
      ensures Increasing(p[i]) && forall x: nat :: x in p[i] <==> x / bits == i && In(s, bits, x)
    {
      PieceInDomain(s, bits, i);
    }
    assert Banded(p, bits);
    ConcatFacts(p, bits);
    forall x: nat
      ensures x in Elements(s, bits) <==> In(s, bits, x)
    {
      if x / bits < |s| {
        PieceInDomain(s, bits, x / bits);
      }
    }
  }

  /** PieceFacts for any chunk of a domain that fits uint32. */
  lemma PieceInDomain(s: seq<Slot>, bits: nat, i: nat)
    requires bits > 0 && i < |s| && |s| * bits <= Modulus32 && Tidy(s, bits)
    ensures Increasing(Pieces(s, bits)[i])
    ensures forall x: nat :: x in Pieces(s, bits)[i] <==> x / bits == i && In(s, bits, x)
  {
    MulMono(i + 1, |s|, bits);
    PieceFacts(s, bits, i);
  }

  lemma MulMono(a: nat, b: nat, bits: nat)
    requires a <= b
    ensures a * bits <= b * bits
  {
    if a < b {
      MulAtLeast(b - a, bits + 1);
      assert (b - a) * bits == b * bits - a * bits;
    }
  }

  /** The sum of the present chunks' cached counts. */
  function SumCard(s: seq<Slot>): int
  {
    if s == [] then 0
    else SumCard(s[..|s| - 1]) + (if s[|s| - 1].Present? then s[|s| - 1].cardinality else 0)
  }

  /** For valid chunks the counts add up to the length of the listing. */
  lemma {:induction false} SumCardLength(s: seq<Slot>, bits: nat)
    requires Uniform(s, bits)
    ensures SumCard(s) == |Elements(s, bits)|
  {
    if s != [] {
      var n := |s| - 1;
      assert Uniform(s[..n], bits);
      SumCardLength(s[..n], bits);
      PiecesPrefix(s, bits, n);
      if s[n].Present? {
        MembersProperties(s[n].words);
      }
    }
  }

  /** The pieces of the first n chunks are the first n pieces. */
  lemma PiecesPrefix(s: seq<Slot>, bits: nat, n: nat)
    requires n <= |s|
    ensures Pieces(s[..n], bits) == Pieces(s, bits)[..n]
  {
  }

  // ---------------------------------------------------------------------
  // What each operation does to the chunks

  /** Fixed's And, Or and AndNot stay within a's words (a longer operand is an index panic in Go). */
  predicate Fits(a: Slot, o: Slot)
  {
    a.Present? && o.Present? ==> |o.words| <= |a.words|
  }

  /** Fixed's And, Or or AndNot of two present chunks: the combined words, counted over o's words. */
  function Merge(op: Op, a: Slot, o: Slot): (r: Slot)
    requires a.Present? && o.Present? && |o.words| <= |a.words|
    ensures r.Present? && r.nbits == a.nbits && |r.words| == |a.words|
  {
    var ws := Combine(op, a.words, o.words);
    Present(a.nbits, ws, Card(ws[..|o.words|]))
  }

  /** Two valid chunks of one capacity merge into a valid chunk holding the combined values. */
  lemma MergeFacts(op: Op, a: Slot, o: Slot, bits: nat)
    requires a.Present? && o.Present? && SlotValid(a, bits) && SlotValid(o, bits)
    ensures SlotValid(Merge(op, a, o), bits)
    ensures forall v: nat :: Has(Merge(op, a, o).words, v) == Combined(op, Has(a.words, v), Has(o.words, v))
  {
    var ws := Combine(op, a.words, o.words);
    assert ws[..|o.words|] == ws;
    forall v: nat
      ensures Has(ws, v) == Combined(op, Has(a.words, v), Has(o.words, v))
    {
      CombineHas(op, a.words, o.words, v);
    }
  }

  /** The old and new chunk of `b.And(o)`: gone unless both are present. */
  function AndSlot(a: Slot, o: Slot): Slot
    requires Fits(a, o)
  {
    if a.Absent? || o.Absent? then Absent else Merge(Intersect, a, o)
  }

  /** The chunk of o after `b.And(o)`: dropped where b has none. */
  function AndOperandSlot(a: Slot, o: Slot): Slot
  {
    if a.Absent? then Absent else o
  }

  /** The chunk `b.Or(o)` works on: b's own, or a new one of capacity bits. */
  function OrBase(a: Slot, bits: nat): (r: Slot)
    ensures r.Present?
  {
    if a.Absent? then Fresh(bits) else a
  }

  /** The chunk of b after `b.Or(o)`: unchanged where o has none. */
  function OrSlot(a: Slot, o: Slot, bits: nat): Slot
    requires Fits(OrBase(a, bits), o)
  {
    if o.Absent? then a else Merge(Union, OrBase(a, bits), o)
  }

  /** The chunk of b after `b.AndNot(o)`: changed only where both are present. */
  function AndNotSlot(a: Slot, o: Slot): Slot
    requires Fits(a, o)
  {
    if a.Absent? || o.Absent? then a else Merge(Difference, a, o)
  }

  /** The chunk after `Flip()`: a new one where absent, then FlipInt(0, bits). */
  function FlipSlot(a: Slot, bits: nat): (r: Slot)
    requires a.Present? ==> bits / 64 < |a.words|
    ensures r.Present?
  {
    var b := OrBase(a, bits);
    if bits == 0 then b
    else
      var ws := Flip(b.words, 0, bits);
      Present(b.nbits, ws, Card(ws))
  }

  function AndSlots(s: seq<Slot>, t: seq<Slot>): (r: seq<Slot>)
    requires |s| == |t| && forall i :: 0 <= i < |s| ==> Fits(s[i], t[i])
    ensures |r| == |s| && forall i :: 0 <= i < |s| ==> r[i] == AndSlot(s[i], t[i])
  {
    seq(|s|, i requires 0 <= i < |s| => AndSlot(s[i], t[i]))
  }

  function AndOperands(s: seq<Slot>, t: seq<Slot>): (r: seq<Slot>)
    requires |s| == |t|
    ensures |r| == |t| && forall i :: 0 <= i < |t| ==> r[i] == AndOperandSlot(s[i], t[i])
  {
    seq(|t|, i requires 0 <= i < |t| => AndOperandSlot(s[i], t[i]))
  }

  function OrSlots(s: seq<Slot>, t: seq<Slot>, bits: nat): (r: seq<Slot>)
    requires |s| == |t| && forall i :: 0 <= i < |s| ==> Fits(OrBase(s[i], bits), t[i])
    ensures |r| == |s| && forall i :: 0 <= i < |s| ==> r[i] == OrSlot(s[i], t[i], bits)
  {
    seq(|s|, i requires 0 <= i < |s| => OrSlot(s[i], t[i], bits))
  }

  function AndNotSlots(s: seq<Slot>, t: seq<Slot>): (r: seq<Slot>)
    requires |s| == |t| && forall i :: 0 <= i < |s| ==> Fits(s[i], t[i])
    ensures |r| == |s| && forall i :: 0 <= i < |s| ==> r[i] == AndNotSlot(s[i], t[i])
  {
    seq(|s|, i requires 0 <= i < |s| => AndNotSlot(s[i], t[i]))
  }

  function FlipSlots(s: seq<Slot>, bits: nat): (r: seq<Slot>)
    requires forall i :: 0 <= i < |s| && s[i].Present? ==> bits / 64 < |s[i].words|
    ensures |r| == |s| && forall i :: 0 <= i < |s| ==> r[i] == FlipSlot(s[i], bits)
  {
    seq(|s|, i requires 0 <= i < |s| => FlipSlot(s[i], bits))
  }

  /** Fixed's `Add(off)` on the chunk, a new one if absent. */
  function AddSlot(a: Slot, bits: nat, off: nat): (r: Slot)
    requires SlotValid(a, bits) && off < bits
    ensures r.Present?
  {
    var b := OrBase(a, bits);
    Present(b.nbits, SetBit(b.words, off), b.cardinality + (if Has(b.words, off) then 0 else 1))
  }

  /** Fixed's `Remove(off)` on the chunk, if present. */
  function RemoveSlot(a: Slot, bits: nat, off: nat): Slot
    requires SlotValid(a, bits) && off < bits
  {
    if a.Absent? || !Has(a.words, off) then a
    else Present(a.nbits, ClearBit(a.words, off), a.cardinality - 1)
  }

  /** `Add(v)`: Fixed's Add of offset v % bits on chunk v / bits. */
  function AddSlots(s: seq<Slot>, bits: nat, v: nat): (r: seq<Slot>)
    requires bits > 0 && v / bits < |s| && Uniform(s, bits)
    ensures |r| == |s|
  {
    s[v / bits := AddSlot(s[v / bits], bits, v % bits)]
  }

  /** `Remove(v)`: Fixed's Remove of offset v % bits on chunk v / bits. */
  function RemoveSlots(s: seq<Slot>, bits: nat, v: nat): (r: seq<Slot>)
    requires bits > 0 && v / bits < |s| && Uniform(s, bits)
    ensures |r| == |s|
  {
    s[v / bits := RemoveSlot(s[v / bits], bits, v % bits)]
  }

  // ---------------------------------------------------------------------
  // What each operation does to the values

  /** The chunk after `b.And(o)` holds the offsets both held. */
  lemma AndSlotFacts(a: Slot, o: Slot, bits: nat)
    requires SlotValid(a, bits) && SlotValid(o, bits)
    ensures SlotValid(AndSlot(a, o), bits)
    ensures forall v: nat :: Holds(AndSlot(a, o), v) == (Holds(a, v) && Holds(o, v))
  {
    if a.Present? && o.Present? {
      MergeFacts(Intersect, a, o, bits);
    }
  }

  /** The chunk after `b.Or(o)` holds the offsets either held. */
  lemma OrSlotFacts(a: Slot, o: Slot, bits: nat)
    requires SlotValid(a, bits) && SlotValid(o, bits)
    ensures SlotValid(OrSlot(a, o, bits), bits)
    ensures forall v: nat :: Holds(OrSlot(a, o, bits), v) == (Holds(a, v) || Holds(o, v))
  {
    if o.Present? {
      MergeFacts(Union, OrBase(a, bits), o, bits);
    }
  }

  /** The chunk after `b.AndNot(o)` holds the offsets a held and o did not. */
  lemma AndNotSlotFacts(a: Slot, o: Slot, bits: nat)
    requires SlotValid(a, bits) && SlotValid(o, bits)
    ensures SlotValid(AndNotSlot(a, o), bits)
    ensures forall v: nat :: Holds(AndNotSlot(a, o), v) == (Holds(a, v) && !Holds(o, v))
  {
    if a.Present? && o.Present? {
      MergeFacts(Difference, a, o, bits);
    }
  }

  /** A flipped chunk holds exactly the offsets below FlipEnd(bits) it did not hold, and the ones above it held. */
  lemma FlipSlotFacts(a: Slot, bits: nat)
    requires bits > 0 && SlotValid(a, bits)
    ensures SlotValid(FlipSlot(a, bits), bits)
    ensures forall v: nat :: Holds(FlipSlot(a, bits), v) == (Holds(a, v) != (v < FlipEnd(bits)))
  {
    var b := OrBase(a, bits);
    var ws := Flip(b.words, 0, bits);
    assert 64 * |b.words| >= FlipEnd(bits);
    forall v: nat
      ensures Has(ws, v) == (Holds(a, v) != (v < FlipEnd(bits)))
    {
      if v < 64 * |b.words| {
        FlipHas(b.words, 0, bits, v);
      }
    }
  }

  /** After `b.And(o)` b holds the values both held; o keeps only the chunks b has. */
  lemma AndSlotsFacts(s: seq<Slot>, t: seq<Slot>, bits: nat)
    requires |s| == |t| && Uniform(s, bits) && Uniform(t, bits)
    ensures Uniform(AndSlots(s, t), bits)
    ensures bits > 0 ==> forall x: nat :: In(AndSlots(s, t), bits, x) <==> In(s, bits, x) && In(t, bits, x)
    ensures Tidy(s, bits) ==> Tidy(AndSlots(s, t), bits)
  {
    var r := AndSlots(s, t);
    forall i | 0 <= i < |s|
      ensures SlotValid(r[i], bits)
    {
      AndSlotFacts(s[i], t[i], bits);
    }
    if bits > 0 {
      forall x: nat
        ensures In(r, bits, x) <==> In(s, bits, x) && In(t, bits, x)
      {
        if x / bits < |s| {
          AndSlotFacts(s[x / bits], t[x / bits], bits);
        }
      }
    }
    if Tidy(s, bits) {
      forall i, v: nat | 0 <= i < |s| && Holds(r[i], v)
        ensures v < bits
      {
        AndSlotFacts(s[i], t[i], bits);
      }
    }
  }

  /** After `b.And(o)` o holds its values in the chunks b has, and no others. */
  lemma AndOperandsFacts(s: seq<Slot>, t: seq<Slot>, bits: nat)
    requires bits > 0 && |s| == |t| && Uniform(t, bits)
    ensures Uniform(AndOperands(s, t), bits)
    ensures forall x: nat :: In(AndOperands(s, t), bits, x) <==> In(t, bits, x) && Kept(s, bits, x)
    ensures Tidy(t, bits) ==> Tidy(AndOperands(s, t), bits)
  {
    var r := AndOperands(s, t);
    forall x: nat
      ensures In(r, bits, x) <==> In(t, bits, x) && Kept(s, bits, x)
    {
      if x / bits < |s| {
        assert r[x / bits] == AndOperandSlot(s[x / bits], t[x / bits]);
      }
    }
  }

  /** After `b.Or(o)` b holds the values either held. */
  lemma OrSlotsFacts(s: seq<Slot>, t: seq<Slot>, bits: nat)
    requires |s| == |t| && Uniform(s, bits) && Uniform(t, bits)
    ensures Uniform(OrSlots(s, t, bits), bits)
    ensures bits > 0 ==> forall x: nat :: In(OrSlots(s, t, bits), bits, x) <==> In(s, bits, x) || In(t, bits, x)
    ensures Tidy(s, bits) && Tidy(t, bits) ==> Tidy(OrSlots(s, t, bits), bits)
  {
    var r := OrSlots(s, t, bits);
    forall i | 0 <= i < |s|
      ensures SlotValid(r[i], bits)
    {
      OrSlotFacts(s[i], t[i], bits);
    }
    if bits > 0 {
      forall x: nat
        ensures In(r, bits, x) <==> In(s, bits, x) || In(t, bits, x)
      {
        if x / bits < |s| {
          OrSlotFacts(s[x / bits], t[x / bits], bits);
        }
      }
    }
    if Tidy(s, bits) && Tidy(t, bits) {
      forall i, v: nat | 0 <= i < |s| && Holds(r[i], v)
        ensures v < bits
      {
        OrSlotFacts(s[i], t[i], bits);
      }
    }
  }

  /** After `b.AndNot(o)` b holds the values it held and o did not. */
  lemma AndNotSlotsFacts(s: seq<Slot>, t: seq<Slot>, bits: nat)
    requires bits > 0 && |s| == |t| && Uniform(s, bits) && Uniform(t, bits)
    ensures Uniform(AndNotSlots(s, t), bits)
    ensures forall x: nat :: In(AndNotSlots(s, t), bits, x) <==> In(s, bits, x) && !In(t, bits, x)
    ensures Tidy(s, bits) ==> Tidy(AndNotSlots(s, t), bits)
  {
    var r := AndNotSlots(s, t);
    forall i | 0 <= i < |s|
      ensures SlotValid(r[i], bits)
    {
      AndNotSlotFacts(s[i], t[i], bits);
    }
    forall x: nat
      ensures In(r, bits, x) <==> In(s, bits, x) && !In(t, bits, x)
    {
      if x / bits < |s| {
        AndNotSlotFacts(s[x / bits], t[x / bits], bits);
      }
    }
    if Tidy(s, bits) {
      forall i, v: nat | 0 <= i < |s| && Holds(r[i], v)
        ensures v < bits
      {
        AndNotSlotFacts(s[i], t[i], bits);
      }
    }
  }

  /**
   * After `Flip()` every chunk is present and holds exactly the offsets below
   * bits it did not hold. When bits is not a multiple of 64 nothing else
   * changes; FlipStray shows what happens when it is.
   */
  lemma FlipSlotsFacts(s: seq<Slot>, bits: nat)
    requires bits > 0 && Uniform(s, bits)
    ensures Uniform(FlipSlots(s, bits), bits)
    ensures forall i :: 0 <= i < |s| ==> FlipSlots(s, bits)[i].Present?
    ensures forall x: nat :: x / bits < |s| ==> (In(FlipSlots(s, bits), bits, x) <==> !In(s, bits, x))
    ensures bits % 64 != 0 && Tidy(s, bits) ==> Tidy(FlipSlots(s, bits), bits)
  {
    var r := FlipSlots(s, bits);
    forall i | 0 <= i < |s|
      ensures SlotValid(r[i], bits) && forall v: nat :: Holds(r[i], v) == (Holds(s[i], v) != (v < FlipEnd(bits)))
    {
      FlipSlotFacts(s[i], bits);
    }
  }

  /**
   * When bits is a multiple of 64, FlipInt(0, bits) flips the whole word
   * holding offset bits as well (Fixed's end mask), so every flipped chunk
   * holds offset bits: a value of the next chunk's band.
   */
  lemma FlipStray(s: seq<Slot>, bits: nat, i: nat)
    requires bits > 0 && bits % 64 == 0 && Uniform(s, bits) && Tidy(s, bits) && i < |s|
    ensures Holds(FlipSlots(s, bits)[i], bits)
    ensures !Tidy(FlipSlots(s, bits), bits)
  {
    FlipSlotFacts(s[i], bits);
    assert !Holds(s[i], bits);
    assert FlipSlots(s, bits)[i] == FlipSlot(s[i], bits);
  }

  /** A chunk after Fixed's `Add(off)` holds off as well. */
  lemma AddSlotFacts(a: Slot, bits: nat, off: nat)
    requires SlotValid(a, bits) && off < bits
    ensures SlotValid(AddSlot(a, bits, off), bits)
    ensures forall u: nat :: Holds(AddSlot(a, bits, off), u) == (u == off || Holds(a, u))
  {
    SetBitEffect(OrBase(a, bits).words, off);
  }

  /** A chunk after Fixed's `Remove(off)` holds everything it held but off. */
  lemma RemoveSlotFacts(a: Slot, bits: nat, off: nat)
    requires SlotValid(a, bits) && off < bits
    ensures SlotValid(RemoveSlot(a, bits, off), bits)
    ensures forall u: nat :: Holds(RemoveSlot(a, bits, off), u) == (u != off && Holds(a, u))
  {
    if a.Present? {
      ClearBitEffect(a.words, off);
    }
  }

  /** After `Add(v)` the chunks hold v as well. */
  lemma AddSlotsFacts(s: seq<Slot>, bits: nat, v: nat)
    requires bits > 0 && v / bits < |s| && Uniform(s, bits)
    ensures Uniform(AddSlots(s, bits, v), bits)
    ensures forall x: nat :: In(AddSlots(s, bits, v), bits, x) <==> x == v || In(s, bits, x)
    ensures Tidy(s, bits) ==> Tidy(AddSlots(s, bits, v), bits)
  {
    var c, off := v / bits, v % bits;
    AddSlotFacts(s[c], bits, off);
    var r := AddSlots(s, bits, v);
    forall x: nat
      ensures In(r, bits, x) <==> x == v || In(s, bits, x)
    {
      InUpdate(s, bits, c, AddSlot(s[c], bits, off), x);
      if x / bits == c && x % bits == off {
        SameDivMod(x, v, bits);
      }
    }
  }

  /** After `Remove(v)` the chunks hold everything but v. */
  lemma RemoveSlotsFacts(s: seq<Slot>, bits: nat, v: nat)
    requires bits > 0 && v / bits < |s| && Uniform(s, bits)
    ensures Uniform(RemoveSlots(s, bits, v), bits)
    ensures forall x: nat :: In(RemoveSlots(s, bits, v), bits, x) <==> x != v && In(s, bits, x)
    ensures Tidy(s, bits) ==> Tidy(RemoveSlots(s, bits, v), bits)
  {
    var c, off := v / bits, v % bits;
    RemoveSlotFacts(s[c], bits, off);
    var r := RemoveSlots(s, bits, v);
    forall x: nat
      ensures In(r, bits, x) <==> x != v && In(s, bits, x)
    {
      InUpdate(s, bits, c, RemoveSlot(s[c], bits, off), x);
      if x / bits == c && x % bits == off {
        SameDivMod(x, v, bits);
      }
    }
  }

  /** Replacing chunk c changes membership only in chunk c's band. */
  lemma InUpdate(s: seq<Slot>, bits: nat, c: nat, a: Slot, x: nat)
    requires bits > 0 && c < |s|
    ensures In(s[c := a], bits, x) == if x / bits == c then Holds(a, x % bits) else In(s, bits, x)
  {
  }

  /** Two numbers with the same chunk and offset are equal. */
  lemma SameDivMod(x: nat, y: nat, bits: nat)
    requires bits > 0 && x / bits == y / bits && x % bits == y % bits
    ensures x == y
  {
    assert x == x / bits * bits + x % bits;
    assert y == y / bits * bits + y % bits;
  }

  // The heap: a Bitmaps object and its chunk objects

  /** The slot a chunk reference stands for. */
  ghost function SlotOf(c: Fixed.Bitmap?): Slot
    reads if c == null then {} else {c as object, c.words}
  {
    if c == null then Absent else Present(c.nbits, c.words[..], c.cardinality)
  }

  /** No two chunks share a bitmap or a word array. */
  ghost predicate Distinct(cs: seq<Fixed.Bitmap?>)
  {
    forall i, j :: 0 <= i < |cs| && 0 <= j < |cs| && i != j && cs[i] != null && cs[j] != null ==>
      cs[i] != cs[j] && cs[i].words != cs[j].words
  }

  /** `v / sz.Bits` and `v % sz.Bits`: the chunk of v and its offset there. */
  method Locate(v: U32, bits: U32) returns (c: nat, off: U32)
    requires bits > 0
    ensures c == v / bits && off == v % bits && off < bits
  {
    c, off := v / bits, v % bits;
  }

  /** `b.And(c)`, `b.Or(c)` or `b.AndNot(c)`: chunk b becomes the merge of the two, and c is left as it was. */
  method MergeInto(op: Op, b: Fixed.Bitmap, c: Fixed.Bitmap)
    requires c.words.Length <= b.words.Length && b != c && b.words != c.words
    modifies b, b.words
    ensures SlotOf(b) == Merge(op, old(SlotOf(b)), old(SlotOf(c)))
  {
    if op == Intersect {
      b.And(c);
    } else if op == Union {
      b.Or(c);
    } else {
      b.AndNot(c);
    }
  }

  /** Two Bitmaps that share neither themselves nor any chunk object. */
  ghost predicate Separate(b: Bitmaps, o: Bitmaps)
    reads b, o
  {
    b != o && b.Repr !! o.Repr && b !in o.Repr && o !in b.Repr
  }

  /** The size a Bitmaps is made with: the capacity of each chunk and the number of chunks. */
  datatype Size = Size(bits: U32, chunks: nat)

  class Bitmaps {
    /** `sz.Bits`: the capacity of every chunk. */
    const bits: U32
    /** `b`: one optional fixed.Bitmap per chunk. */
    var chunks: seq<Fixed.Bitmap?>
    /** The value of every chunk. */
    ghost var state: seq<Slot>
    /** The chunk objects and their word arrays (and possibly chunks dropped since). */
    ghost var Repr: set<object>

    /** The state is the value of the chunks, which are separate objects inside Repr. */
    ghost predicate Linked()
      reads this, Repr
    {
      |state| == |chunks| &&
      (forall i :: 0 <= i < |chunks| && chunks[i] != null ==> chunks[i] in Repr && chunks[i].words in Repr) &&
      Distinct(chunks) &&
      forall i :: 0 <= i < |chunks| ==> state[i] == SlotOf(chunks[i])
    }

    /** Linked, and every chunk of capacity bits with its count cached. */
    ghost predicate Valid()
      reads this, Repr
    {
      Linked() && Uniform(state, bits)
    }

    /** `New(sz)`: every chunk nil. */
    constructor (sz: Size)
      ensures bits == sz.bits && |chunks| == sz.chunks && Repr == {}
      ensures Valid() && state == seq(sz.chunks, _ => Absent)
      ensures Elements(state, bits) == []
    {
      bits := sz.bits;
      chunks := seq(sz.chunks, _ => null);
      state := seq(sz.chunks, _ => Absent);
      Repr := {};
      new;
      EmptyListing(state, bits);
    }

    /** `Contains(v)`: the bit of offset v % bits in chunk v / bits, false when that chunk is nil. */
    function Contains(v: U32): (r: bool)
      reads this, Repr
      requires Valid() && bits > 0 && v / bits < |chunks|
      ensures r == In(state, bits, v)
    {
      var c, off := v / bits, v % bits;
      if chunks[c] != null then
        assert SlotValid(state[c], bits);
        chunks[c].Contains(off)
      else false
    }

    /** `b[c] = bm` for a nil chunk c and a bitmap that no chunk shares. */
    method Put(c: nat, bm: Fixed.Bitmap)
      requires Linked() && c < |chunks| && chunks[c] == null && bm !in Repr && bm.words !in Repr
      modifies this
      ensures chunks == old(chunks)[c := bm] && Repr == old(Repr) + {bm, bm.words}
      ensures Linked() && state == old(state)[c := SlotOf(bm)]
      ensures old(Valid()) && SlotValid(SlotOf(bm), bits) ==> Valid()
    {
      chunks := chunks[c := bm];
      state := state[c := SlotOf(bm)];
      Repr := Repr + {bm, bm.words};
    }

    /** `b[c] = fixed.NewBitmap(int(sz.Bits))`: a new empty chunk c. */
    method Grow(c: nat)
      requires Linked() && c < |chunks| && chunks[c] == null
      modifies this
      ensures Linked() && state == old(state)[c := Fresh(bits)]
      ensures old(Valid()) ==> Valid()
      ensures chunks == old(chunks)[c := chunks[c]] && chunks[c] != null
      ensures fresh(Repr - old(Repr))
    {
      var nb := new Fixed.Bitmap(bits);
      Put(c, nb);
    }

    /** `b[i] = nil`. */
    method Drop(i: nat)
      requires Linked() && i < |chunks|
      modifies this
      ensures chunks == old(chunks)[i := null] && Repr == old(Repr)
      ensures Linked() && state == old(state)[i := Absent]
    {
      chunks := chunks[i := null];
      state := state[i := Absent];
    }

    /** `Add(v)`: a new chunk v / bits if it is nil, then add offset v % bits to it. */
    method Add(v: U32)
      requires Valid() && bits > 0 && v / bits < |chunks|
      modifies this, Repr
      ensures Valid() && state == AddSlots(old(state), bits, v) && fresh(Repr - old(Repr))
    {
      var c, off := Locate(v, bits);
      if chunks[c] == null {
        Grow(c);
      }
      AddAt(c, off);
    }

    /** `b[c].Add(off)` on a present chunk. */
    method AddAt(c: nat, off: U32)
      requires Valid() && c < |chunks| && chunks[c] != null && off < bits
      modifies this, chunks[c], chunks[c].words
      ensures chunks == old(chunks) && Repr == old(Repr)
      ensures Valid() && state == old(state)[c := AddSlot(old(state)[c], bits, off)]
    {
      assert SlotValid(state[c], bits);
      chunks[c].Add(off);
      state := state[c := SlotOf(chunks[c])];
    }

    /** `Remove(v)`: remove offset v % bits from chunk v / bits unless that chunk is nil. */
    method Remove(v: U32)
      requires Valid() && bits > 0 && v / bits < |chunks|
      modifies this, Repr
      ensures Valid() && state == RemoveSlots(old(state), bits, v) && Repr == old(Repr)
    {
      var c, off := Locate(v, bits);
      if chunks[c] != null {
        RemoveAt(c, off);
      }
    }

    /** `b[c].Remove(off)` on a present chunk. */
    method RemoveAt(c: nat, off: U32)
      requires Valid() && c < |chunks| && chunks[c] != null && off < bits
      modifies this, chunks[c], chunks[c].words
      ensures chunks == old(chunks) && Repr == old(Repr)
      ensures Valid() && state == old(state)[c := RemoveSlot(old(state)[c], bits, off)]
    {
      assert SlotValid(state[c], bits);
      chunks[c].Remove(off);
      state := state[c := SlotOf(chunks[c])];
    }

    /** `Clone()`: a new Bitmaps of the same size holding a clone of every present chunk. */
    method Clone() returns (r: Bitmaps)
      requires Valid()
      ensures fresh(r) && fresh(r.Repr)
      ensures r.bits == bits && r.Valid() && r.state == state
    {
      r := new Bitmaps(Size(bits, |chunks|));
      var i := 0;
      while i < |chunks|
        invariant 0 <= i <= |chunks| == |r.chunks|
        invariant fresh(r) && fresh(r.Repr) && r.bits == bits && r.Valid()
        invariant forall j :: 0 <= j < i ==> r.state[j] == state[j]
        invariant forall j :: i <= j < |chunks| ==> r.chunks[j] == null
      {
        if chunks[i] != null {
          assert SlotOf(chunks[i]) == state[i] && SlotValid(state[i], bits);
          r.CloneFrom(i, chunks[i]);
        }
        i := i + 1;
      }
      assert r.state == state;
    }

    /** `b1.b[i] = b.b[i].Clone()`: chunk i, which is nil, becomes a clone of src. */
    method CloneFrom(i: nat, src: Fixed.Bitmap)
      requires Linked() && i < |chunks| && chunks[i] == null && src.Shaped()
      modifies this
      ensures Linked() && state == old(state)[i := SlotOf(src)]
      ensures old(Valid()) && SlotValid(SlotOf(src), bits) ==> Valid()
      ensures fresh(Repr - old(Repr))
    {
      var c := src.Clone();
      Put(i, c);
    }

    /** `b[i].And(o.b[i])`, `b[i].Or(o.b[i])` or `b[i].AndNot(o.b[i])` on two present chunks. */
    method MergeAt(op: Op, o: Bitmaps, i: nat)
      requires Linked() && o.Linked() && Separate(this, o)
      requires i < |chunks| && i < |o.chunks| && chunks[i] != null && o.chunks[i] != null
      requires o.chunks[i].words.Length <= chunks[i].words.Length
      modifies this, chunks[i], chunks[i].words
      ensures chunks == old(chunks) && Repr == old(Repr)
      ensures Linked() && state == old(state)[i := Merge(op, old(state)[i], old(o.state)[i])]
    {
      var b := chunks[i];
      MergeInto(op, b, o.chunks[i]);
      state := state[i := SlotOf(b)];
    }

    /**
     * `And(o)`: a chunk nil on either side becomes nil on both sides (o loses
     * the chunks b lacks); two present chunks are intersected in b. Bitmaps of
     * different lengths are a panic in Go.
     */
    method And(o: Bitmaps)
      requires Valid() && o.Valid() && Separate(this, o) && |o.chunks| == |chunks|
      requires forall i :: 0 <= i < |chunks| ==> Fits(state[i], o.state[i])
      modifies this, o, Repr
      ensures state == AndSlots(old(state), old(o.state))
      ensures o.state == AndOperands(old(state), old(o.state))
      ensures Linked() && o.Valid() && Separate(this, o) && Repr == old(Repr) && o.Repr == old(o.Repr)
      ensures o.bits == bits ==> Valid()
    {
      ghost var s, t := state, o.state;
      ghost var r, q := AndSlots(s, t), AndOperands(s, t);
      var i := 0;
      while i < |chunks|
        invariant 0 <= i <= |chunks| == |o.chunks| == |s| == |t|
        invariant Linked() && o.Linked() && Repr == old(Repr) && o.Repr == old(o.Repr)
        invariant forall j :: 0 <= j < |s| ==> state[j] == if j < i then r[j] else s[j]
        invariant forall j :: 0 <= j < |t| ==> o.state[j] == if j < i then q[j] else t[j]
      {
        AndAt(o, i);
        i := i + 1;
      }
      assert state == r && o.state == q;
      if o.bits == bits {
        forall j | 0 <= j < |s| ensures SlotValid(r[j], bits) {
          AndSlotFacts(s[j], t[j], bits);
        }
      }
    }

    /** One round of `And(o)`'s loop: chunk i on both sides. */
    method AndAt(o: Bitmaps, i: nat)
      requires Linked() && o.Linked() && Separate(this, o) && i < |chunks| == |o.chunks|
      requires Fits(state[i], o.state[i])
      modifies this, o, Repr
      ensures |chunks| == |old(chunks)| && chunks == old(chunks)[i := chunks[i]] && Repr == old(Repr) && o.Repr == old(o.Repr)
      ensures Linked() && o.Linked()
      ensures state == old(state)[i := AndSlot(old(state)[i], old(o.state)[i])]
      ensures o.state == old(o.state)[i := AndOperandSlot(old(state)[i], old(o.state)[i])]
    {
      if chunks[i] == null {
        o.Drop(i);
      } else if o.chunks[i] == null {
        Drop(i);
      } else {
        MergeAt(Intersect, o, i);
      }
    }

    /** `Or(o)`: where o has a chunk, b gets one (new if nil) and unites it with o's. */
    method Or(o: Bitmaps)
      requires Valid() && o.Valid() && Separate(this, o) && |o.chunks| == |chunks|
      requires forall i :: 0 <= i < |chunks| ==> Fits(OrBase(state[i], bits), o.state[i])
      modifies this, Repr
      ensures state == OrSlots(old(state), old(o.state), bits)
      ensures Linked() && Separate(this, o) && fresh(Repr - old(Repr))
      ensures o.bits == bits ==> Valid()
    {
      ghost var s, t := state, o.state;
      ghost var r := OrSlots(s, t, bits);
      var i := 0;
      while i < |chunks|
        invariant 0 <= i <= |chunks| == |o.chunks| == |s| == |t|
        invariant Linked() && Separate(this, o) && fresh(Repr - old(Repr))
        invariant forall j :: 0 <= j < |s| ==> state[j] == if j < i then r[j] else s[j]
      {
        OrAt(o, i);
        i := i + 1;
      }
      assert state == r;
      if o.bits == bits {
        forall j | 0 <= j < |s| ensures SlotValid(r[j], bits) {
          OrSlotFacts(s[j], t[j], bits);
        }
      }
    }

    /** One round of `Or(o)`'s loop. */
    method OrAt(o: Bitmaps, i: nat)
      requires Linked() && o.Linked() && Separate(this, o) && i < |chunks| == |o.chunks|
      requires Fits(OrBase(state[i], bits), o.state[i])
      modifies this, Repr
      ensures |chunks| == |old(chunks)| && Linked() && Separate(this, o) && fresh(Repr - old(Repr))
      ensures state == old(state)[i := OrSlot(old(state)[i], old(o.state)[i], bits)]
    {
      if chunks[i] == null && o.chunks[i] != null {
        Grow(i);
      }
      if o.chunks[i] != null {
        MergeAt(Union, o, i);
      }
    }

    /** `AndNot(o)`: where both have a chunk, b's loses o's values. */
    method AndNot(o: Bitmaps)
      requires Valid() && o.Valid() && Separate(this, o) && |o.chunks| == |chunks|
      requires forall i :: 0 <= i < |chunks| ==> Fits(state[i], o.state[i])
      modifies this, Repr
      ensures state == AndNotSlots(old(state), old(o.state))
      ensures Linked() && chunks == old(chunks) && Repr == old(Repr)
      ensures o.bits == bits ==> Valid()
    {
      ghost var s, t := state, o.state;
      ghost var r := AndNotSlots(s, t);
      var i := 0;
      while i < |chunks|
        invariant 0 <= i <= |chunks| == |o.chunks| == |s| == |t|
        invariant Linked() && chunks == old(chunks) && Repr == old(Repr)
        invariant forall j :: 0 <= j < |s| ==> state[j] == if j < i then r[j] else s[j]
      {
        if chunks[i] != null && o.chunks[i] != null {
          MergeAt(Difference, o, i);
        }
        i := i + 1;
      }
      assert state == r;
      if o.bits == bits {
        forall j | 0 <= j < |s| ensures SlotValid(r[j], bits) {
          AndNotSlotFacts(s[j], t[j], bits);
        }
      }
    }

    /** `Flip()`: every chunk, a new one where nil, flipped over [0, bits). */
    method Flip()
      requires Valid()
      modifies this, Repr
      ensures Valid() && state == FlipSlots(old(state), bits) && fresh(Repr - old(Repr))
    {
      ghost var s := state;
      ghost var r := FlipSlots(s, bits);
      var i := 0;
      while i < |chunks|
        invariant 0 <= i <= |chunks| == |s|
        invariant Valid() && fresh(Repr - old(Repr))
        invariant forall j :: 0 <= j < |s| ==> state[j] == if j < i then r[j] else s[j]
      {
        FlipAt(i);
        i := i + 1;
      }
      assert state == r;
    }

    /** One round of `Flip()`'s loop. */
    method FlipAt(i: nat)
      requires Valid() && i < |chunks|
      modifies this, Repr
      ensures |chunks| == |old(chunks)| && Valid() && fresh(Repr - old(Repr))
      ensures state == old(state)[i := FlipSlot(old(state)[i], bits)]
    {
      if chunks[i] == null {
        Grow(i);
      }
      FlipPresent(i);
    }

    /** `b[i].FlipInt(0, int(sz.Bits))` on a present chunk. */
    method FlipPresent(i: nat)
      requires Valid() && i < |chunks| && chunks[i] != null
      modifies this, chunks[i], chunks[i].words
      ensures chunks == old(chunks) && Repr == old(Repr)
      ensures Valid() && state == old(state)[i := FlipSlot(old(state)[i], bits)]
    {
      assert SlotValid(state[i], bits);
      if bits > 0 {
        FlipSlotFacts(state[i], bits);
      }
      chunks[i].FlipInt(0, bits);
      state := state[i := SlotOf(chunks[i])];
    }

    /** `GetCardinality()`: the chunks' counts summed in uint64, i.e. the number of values modulo 2^64. */
    method GetCardinality() returns (c: nat)
      requires Valid()
      ensures c == SumCard(state) % Fixed.Modulus64
      ensures c == |Elements(state, bits)| % Fixed.Modulus64
    {
      c := 0;
      var i := 0;
      while i < |chunks|
        invariant 0 <= i <= |chunks|
        invariant c == SumCard(state[..i]) % Fixed.Modulus64
      {
        var k := 0;
        if chunks[i] != null {
          assert SlotValid(state[i], bits);
          k := chunks[i].GetCardinality();
        }
        CardStep(state, bits, i, c, k);
        c := (c + k) % Fixed.Modulus64;
        i := i + 1;
      }
      assert state[..i] == state;
      SumCardLength(state, bits);
    }

    /** `IsEmpty()`: no chunk is present with a nonzero count. */
    method IsEmpty() returns (r: bool)
      requires Valid()
      ensures r <==> Blank(state)
      ensures r <==> Elements(state, bits) == []
    {
      var i := 0;
      while i < |chunks|
        invariant 0 <= i <= |chunks|
        invariant Blank(state[..i])
      {
        BlankSnoc(state, i);
        var e := EmptyAt(i);
        if !e {
          NotBlank(state, i);
          BlankListing(state, bits);
          return false;
        }
        i := i + 1;
      }
      assert state[..i] == state;
      BlankListing(state, bits);
      return true;
    }

    /** `b == nil || b.IsEmpty()` for chunk i. */
    method EmptyAt(i: nat) returns (e: bool)
      requires Valid() && i < |chunks|
      ensures e <==> forall v: nat :: !Holds(state[i], v)
    {
      assert SlotValid(state[i], bits) && SlotOf(chunks[i]) == state[i];
      if chunks[i] == null {
        e := true;
      } else {
        assert chunks[i].Valid();
        e := chunks[i].IsEmpty();
        assert forall v: nat :: Holds(state[i], v) == Has(chunks[i].words[..], v);
      }
    }

    /**
     * `ToArray()`: chunk after chunk, `uint32(chunk)*Bits + v` for every value
     * v of the chunk's own ToArray. For tidy chunks inside the uint32 domain
     * that is every present value once, ascending.
     */
    method ToArray() returns (a: seq<U32>)
      requires Valid()
      ensures a == Elements(state, bits)
      ensures bits > 0 && |chunks| * bits <= Modulus32 && Tidy(state, bits) ==>
                Increasing(a) && forall x: nat :: x in a <==> In(state, bits, x)
    {
      a := [];
      var i := 0;
      while i < |chunks|
        invariant 0 <= i <= |chunks|
        invariant a == Elements(state[..i], bits)
      {
        ElementsSnoc(state, bits, i);
        if chunks[i] != null {
          a := AppendChunk(a, i);
        }
        i := i + 1;
      }
      assert state[..i] == state;
      if bits > 0 && |chunks| * bits <= Modulus32 && Tidy(state, bits) {
        ElementsFacts(state, bits);
      }
    }

    /** The inner loop of `ToArray()`: append chunk c's values, placed in its band. */
    method AppendChunk(a: seq<U32>, c: nat) returns (r: seq<U32>)
      requires Valid() && c < |chunks| && chunks[c] != null
      ensures r == a + ChunkValues(state[c], Base(c, bits))
    {
      var arr := ArrayAt(c);
      r := AppendPlaced(a, arr[..], c, bits, Members(state[c].words));
    }

    /**
     * `NextMany(i, buffer, limit)`: from chunk i / bits at offset i % bits,
     * each present chunk's next values (as many as are still wanted) are
     * appended, placed in its band; true once limit values are appended,
     * false past the last chunk. A limit below zero is a panic in Go.
     */
    method NextMany(i: U32, buffer: seq<U32>, limit: nat) returns (out: seq<U32>, more: bool)
      requires Valid() && bits > 0
      ensures out == buffer + Fixed.Take(Rest(Runs(state), bits, i / bits, i % bits), limit)
      ensures more <==> if limit == 0 then exists j :: i / bits <= j < |chunks| && chunks[j] != null
                        else limit <= |Rest(Runs(state), bits, i / bits, i % bits)|
    {
      var c, off := i / bits, i % bits;
      ghost var rs := Runs(state);
      RunsAt();
      ghost var ps := Entered(rs, bits, c, off);
      EnteredFlat(rs, bits, c, off);
      out, more := Walk(chunks, ps, bits, c, off, buffer, limit);
    }

    /**
     * `Range(start, stop)`: the values of ranks start to stop - 1 in the
     * listing, chunk by chunk; a chunk wholly below start is skipped by its
     * count, and the walk stops at the first chunk reached at rank stop or
     * later. A stop below start is a panic in Go (a negative capacity).
     */
    method Range(start: int, stop: int) returns (offsets: seq<U32>)
      requires Valid() && start <= stop
      ensures offsets == Window(Elements(state, bits), start, stop)
    {
      offsets := [];
      var cur := 0;
      var chunk := 0;
      while chunk < |chunks|
        invariant 0 <= chunk <= |chunks|
        invariant cur == |Elements(state[..chunk], bits)|
        invariant offsets == Window(Elements(state[..chunk], bits), start, stop)
      {
        var done;
        offsets, cur, done := RangeAt(chunk, start, stop, offsets, cur);
        if done {
          return;
        }
        chunk := chunk + 1;
      }
      assert state[..chunk] == state;
    }

    /**
     * One round of `Range`'s loop, at chunk c with cur values before it:
     * done when the walk stops there (with every value of the window), else
     * the window and count of the first c + 1 chunks.
     */
    method RangeAt(c: nat, start: int, stop: int, offsets0: seq<U32>, cur0: nat)
      returns (offsets: seq<U32>, cur: nat, done: bool)
      requires Valid() && c < |chunks| && start <= stop
      requires cur0 == |Elements(state[..c], bits)| && offsets0 == Window(Elements(state[..c], bits), start, stop)
      ensures done ==> offsets == Window(Elements(state, bits), start, stop)
      ensures !done ==> cur == |Elements(state[..c + 1], bits)| && offsets == Window(Elements(state[..c + 1], bits), start, stop)
    {
      ghost var p := Elements(state[..c], bits);
      ghost var q := ChunkValues(state[c], Base(c, bits));
      ElementsSnoc(state, bits, c);
      offsets, cur, done := offsets0, cur0, false;
      if chunks[c] == null {
        assert p + q == p;
        return;
      }
      var card := CountAt(c);
      if cur + card < start {
        WindowBefore(p, start, stop);
        WindowBefore(p + q, start, stop);
        cur := cur + card;
        return;
      }
      if cur >= stop {
        ElementsSplit(state, bits, c);
        WindowPrefix(p, Concat(Pieces(state, bits)[c..]), start, stop);
        return offsets, cur, true;
      }
      offsets, cur := RangeChunk(c, start, stop, offsets, cur, p);
    }

    /** `int(b.GetCardinality())` for present chunk c: the number of its values. */
    method CountAt(c: nat) returns (card: nat)
      requires Valid() && c < |chunks| && chunks[c] != null
      ensures card == |ChunkValues(state[c], Base(c, bits))|
    {
      assert SlotValid(state[c], bits) && SlotOf(chunks[c]) == state[c];
      CardBound(state[c].words);
      card := chunks[c].GetCardinality();
    }

    /** The inner loop of `Range`: each value of chunk c is appended when its rank cur is in [start, stop). */
    method RangeChunk(c: nat, start: int, stop: int, offsets0: seq<U32>, cur0: nat, ghost p: seq<U32>)
      returns (offsets: seq<U32>, cur: nat)
      requires Valid() && c < |chunks| && chunks[c] != null && start <= stop
      requires offsets0 == Window(p, start, stop) && cur0 == |p|
      ensures offsets == Window(p + ChunkValues(state[c], Base(c, bits)), start, stop)
      ensures cur == |p + ChunkValues(state[c], Base(c, bits))|
    {
      var arr := ArrayAt(c);
      offsets, cur := WindowPlaced(offsets0, cur0, arr[..], c, bits, start, stop, p, Members(state[c].words));
    }

    /**
     * `EachBatch(batchSize, process)`: pages of batchSize values from
     * NextMany, starting at 0, each handed to process, until a page comes back
     * empty or process reports done or an error; the next page starts just
     * above the last value handed over. A page ending at 4294967295 ends the
     * walk, since nothing lies above it (the loop as written starts over at 0:
     * see AsWrittenNeverEnds). Needs the domain to fit uint32 and no chunk to
     * hold an offset of bits or more: otherwise the listing is not ascending
     * and the walk need not end.
     */
    method EachBatch<E>(batchSize: nat, process: seq<U32> -> Reply<E>) returns (out: Outcome<E>)
      requires Valid() && bits > 0 && |chunks| * bits <= Modulus32 && Tidy(state, bits)
      ensures out == Deliver(Batches(Elements(state, bits), batchSize), process)
    {
      ghost var e := Elements(state, bits);
      ghost var pos := 0;
      AtLeastAt(e, 0, 0);
      assert e[0..] == e;
      var offset: U32 := 0;
      var calls: seq<seq<U32>> := [];
      while true
        invariant pos <= |e| && Fixed.AtLeast(e, offset) == e[pos..]
        invariant Deliver(Batches(e, batchSize), process) == After(calls, Deliver(Batches(e[pos..], batchSize), process))
        decreases |e| - pos
      {
        var step, done;
        step, done, offset, pos := Round(offset, batchSize, process, e, pos);
        if done {
          return After(calls, step);
        }
        AfterAfter(calls, step.calls, Deliver(Batches(e[pos..], batchSize), process));
        calls := calls + step.calls;
      }
    }

    /**
     * One round of EachBatch's loop at rank pos0: the outcome of the rest of
     * the walk when it ends here, or else the call made and where the walk
     * goes on.
     */
    method Round<E>(offset0: U32, n: nat, process: seq<U32> -> Reply<E>, ghost e: seq<U32>, ghost pos0: nat)
      returns (step: Outcome<E>, done: bool, offset: U32, ghost pos: nat)
      requires Valid() && bits > 0 && |chunks| * bits <= Modulus32 && Tidy(state, bits)
      requires e == Elements(state, bits) && pos0 <= |e| && Fixed.AtLeast(e, offset0) == e[pos0..]
      ensures done ==> step == Deliver(Batches(e[pos0..], n), process)
      ensures !done ==> pos0 < pos <= |e| && Fixed.AtLeast(e, offset) == e[pos..] &&
                        Deliver(Batches(e[pos0..], n), process) == After(step.calls, Deliver(Batches(e[pos..], n), process))
    {
      var buf := Page(offset0, n, e, pos0);
      DeliverStep(state, bits, e, n, pos0, process, buf);
      offset, pos := offset0, pos0;
      if |buf| == 0 {
        return Outcome([], None), true, offset, pos;
      }
      var reply := process(buf);
      if reply.err.Some? {
        return Outcome([buf], reply.err), true, offset, pos;
      }
      if reply.done {
        return Outcome([buf], None), true, offset, pos;
      }
      var last := buf[|buf| - 1];
      if last == 0xFFFF_FFFF {
        assert [buf] + [] == [buf];
        return Outcome([buf], None), true, offset, pos;
      }
      step, done, offset, pos := Outcome([buf], None), false, last + 1, pos0 + |buf|;
    }

    /** `b.NextMany(offset, buf, batchSize)` in EachBatch: the next page of the listing, at rank pos. */
    method Page(offset: U32, n: nat, ghost e: seq<U32>, ghost pos: nat) returns (buf: seq<U32>)
      requires Valid() && bits > 0 && |chunks| * bits <= Modulus32 && Tidy(state, bits)
      requires e == Elements(state, bits) && pos <= |e| && Fixed.AtLeast(e, offset) == e[pos..]
      ensures buf == Fixed.Take(e[pos..], n)
    {
      RestIsAtLeast(state, bits, offset);
      var more;
      buf, more := NextMany(offset, [], n);
      assert buf == [] + Fixed.Take(e[pos..], n);
    }

    /** Each chunk reference's run is the run of its slot. */
    lemma RunsAt()
      requires Valid()
      ensures forall j :: 0 <= j < |chunks| ==> Runs(state)[j] == RunAt(chunks[j])
    {
      forall j | 0 <= j < |chunks|
        ensures Runs(state)[j] == RunAt(chunks[j])
      {
        assert state[j] == SlotOf(chunks[j]);
      }
    }

    /** `b.ToArray()` for present chunk c: its members, as uint32. */
    method ArrayAt(c: nat) returns (arr: array<U32>)
      requires Valid() && c < |chunks| && chunks[c] != null
      ensures fresh(arr) && arr.Length == |Members(state[c].words)|
      ensures forall k :: 0 <= k < arr.Length ==> arr[k] == Trunc32(Members(state[c].words)[k])
    {
      assert SlotValid(state[c], bits) && SlotOf(chunks[c]) == state[c];
      arr := chunks[c].ToArray();
      ChunkArray(state[c].words, state[c].cardinality, arr[..]);
    }
  }

  /** Append `uint32(c)*bits + v` for each v of a chunk's values, in order. */
  method AppendPlaced(a: seq<U32>, arr: seq<U32>, c: nat, bits: U32, ghost ms: seq<nat>) returns (r: seq<U32>)
    requires |arr| == |ms| && forall k :: 0 <= k < |arr| ==> arr[k] == Trunc32(ms[k])
    ensures r == a + Shifted(ms, Base(c, bits))
  {
    ghost var base := Base(c, bits);
    r := a;
    var k := 0;
    while k < |arr|
      invariant 0 <= k <= |arr|
      invariant r == a + Shifted(ms[..k], base)
    {
      var x := Place(c, bits, arr[k]);
      ShiftedSnoc(ms, base, k);
      AddWrap(base, ms[k]);
      r := r + [x];
      k := k + 1;
    }
    assert ms[..k] == ms;
  }

  /**
   * The loop over `b.ToArray()` in `Range`: value k of a chunk, placed in its
   * band, is appended when its rank cur is in [start, stop).
   */
  method WindowPlaced(offsets0: seq<U32>, cur0: nat, arr: seq<U32>, c: nat, bits: U32, start: int, stop: int,
                      ghost p: seq<U32>, ghost ms: seq<nat>)
    returns (offsets: seq<U32>, cur: nat)
    requires |arr| == |ms| && forall k :: 0 <= k < |arr| ==> arr[k] == Trunc32(ms[k])
    requires start <= stop && offsets0 == Window(p, start, stop) && cur0 == |p|
    ensures offsets == Window(p + Shifted(ms, Base(c, bits)), start, stop) && cur == |p| + |ms|
  {
    ghost var base := Base(c, bits);
    offsets, cur := offsets0, cur0;
    var k := 0;
    assert p + Shifted(ms[..0], base) == p;
    while k < |arr|
      invariant 0 <= k <= |arr|
      invariant cur == |p| + k
      invariant offsets == Window(p + Shifted(ms[..k], base), start, stop)
    {
      var x := Place(c, bits, arr[k]);
      AddWrap(base, ms[k]);
      assert x == Trunc32(base + ms[k]);
      WindowStep(p, ms, base, k, start, stop);
      if start <= cur && cur < stop {
        offsets := offsets + [x];
      } else {
        assert offsets + [] == offsets;
      }
      cur := cur + 1;
      k := k + 1;
    }
    assert ms[..k] == ms;
  }

  /**
   * The loop of `NextMany`: from chunk c at offset off, each present chunk
   * gives its next values (as many as are still wanted), placed in its band;
   * true once limit values are appended, false past the last chunk. Piece j
   * of ps is what chunk j holds from where the walk enters it.
   */
  method Walk(chunks: seq<Fixed.Bitmap?>, ghost ps: seq<seq<U32>>, bits: U32, c: nat, off: nat, buffer: seq<U32>, limit: nat)
    returns (out: seq<U32>, more: bool)
    requires |ps| == |chunks|
    requires forall j {:trigger RunAt(chunks[j])} :: c <= j < |chunks| ==>
               ps[j] == From(RunAt(chunks[j]), Base(j, bits), if j == c then off else 0)
    requires forall j :: c <= j < |chunks| && chunks[j] == null ==> ps[j] == []
    ensures out == buffer + Fixed.Take(Flat(ps, c), limit)
    ensures more <==> if limit == 0 then exists j :: c <= j < |chunks| && chunks[j] != null
                      else limit <= |Flat(ps, c)|
  {
    var chunk, offset := c, off;
    ghost var acc: seq<U32> := [];
    var size := 0;
    out := buffer;
    while chunk < |chunks|
      invariant c <= chunk && offset == (if chunk == c then off else 0)
      invariant size == |acc| && out == buffer + acc
      invariant size < limit || size == limit == 0
      invariant Flat(ps, c) == acc + Flat(ps, chunk)
      invariant limit == 0 ==> forall j :: c <= j < chunk && j < |chunks| ==> chunks[j] == null
      invariant forall j {:trigger RunAt(chunks[j])} :: c <= j < |chunks| ==>
                  ps[j] == From(RunAt(chunks[j]), Base(j, bits), if j == c then off else 0)
      decreases |chunks| - chunk
    {
      ghost var rest := Flat(ps, chunk + 1);
      assert Flat(ps, chunk) == ps[chunk] + rest;
      if chunks[chunk] != null {
        var left := limit - size;
        var n;
        out, n := TakeChunk(chunks, ps, bits, c, off, chunk, offset, out, left);
        ghost var piece := Fixed.Take(ps[chunk], left);
        AppendAssoc(buffer, acc, piece);
        size := size + n;
        if size == limit {
          TakeFull(acc, ps[chunk], rest, left);
          return out, true;
        }
        TakeShort(acc, ps[chunk], rest, left);
        acc := acc + piece;
      }
      chunk, offset := chunk + 1, 0;
    }
    TakeAll(acc, limit);
    return out, false;
  }

  /** One present chunk of `NextMany`: append its next values (at most left), placed in its band. */
  method TakeChunk(chunks: seq<Fixed.Bitmap?>, ghost ps: seq<seq<U32>>, bits: U32, c: nat, off: nat, k: nat, offset: nat,
                   out0: seq<U32>, left: nat)
    returns (out: seq<U32>, n: nat)
    requires |ps| == |chunks| && c <= k < |chunks| && chunks[k] != null && offset == (if k == c then off else 0)
    requires forall j {:trigger RunAt(chunks[j])} :: c <= j < |chunks| ==>
               ps[j] == From(RunAt(chunks[j]), Base(j, bits), if j == c then off else 0)
    ensures forall j {:trigger RunAt(chunks[j])} :: c <= j < |chunks| ==>
              ps[j] == From(RunAt(chunks[j]), Base(j, bits), if j == c then off else 0)
    ensures n == |Fixed.Take(ps[k], left)| <= left
    ensures out == out0 + Fixed.Take(ps[k], left)
  {
    var b := chunks[k];
    ghost var r := RunAt(b);
    assert ps[k] == From(r, Base(k, bits), offset);
    var vs := b.NextMany(offset, left);
    assert vs == Next(r, offset, left) by {
      ValuesFromTake(b.words[..], offset, left);
    }
    out := AppendPlaced(out0, seq(|vs|, i requires 0 <= i < |vs| => Trunc32(vs[i])), k, bits, vs);
    ShiftedTake(Fixed.AtLeast(r.ms, offset), Base(k, bits), left);
    n := |vs|;
  }

  /** The run of a chunk reference: nil, or the members of its words. */
  ghost function RunAt(b: Fixed.Bitmap?): (r: Run)
    reads if b == null then {} else {b as object, b.words}
    ensures r.Skip? <==> b == null
  {
    if b == null then Skip else Offsets(Members(b.words[..]))
  }

  /** The pieces from index k on, one after the other. */
  function Flat(ps: seq<seq<U32>>, k: nat): (r: seq<U32>)
    ensures k >= |ps| ==> r == []
    decreases |ps| - k
  {
    if k >= |ps| then [] else ps[k] + Flat(ps, k + 1)
  }

  /** What each chunk holds from where `NextMany`, started at chunk c and offset off, enters it. */
  function Entered(rs: seq<Run>, bits: nat, c: nat, off: nat): (ps: seq<seq<U32>>)
    ensures |ps| == |rs|
    ensures forall j :: 0 <= j < |rs| ==> ps[j] == From(rs[j], Base(j, bits), if j == c then off else 0)
  {
    seq(|rs|, j requires 0 <= j < |rs| => From(rs[j], Base(j, bits), if j == c then off else 0))
  }

  /** The entered pieces from chunk c on are the rest from chunk c at offset off. */
  lemma EnteredFlat(rs: seq<Run>, bits: nat, c: nat, off: nat)
    ensures Flat(Entered(rs, bits, c, off), c) == Rest(rs, bits, c, off)
  {
    FlatRest(rs, Entered(rs, bits, c, off), bits, c, off, c);
  }

  /**
   * With ps[j] the values of chunk j from where the walk enters it, the
   * pieces from k on are the rest from k.
   */
  lemma {:induction false} FlatRest(rs: seq<Run>, ps: seq<seq<U32>>, bits: nat, c: nat, off: nat, k: nat)
    requires |ps| == |rs| && c <= k
    requires forall j :: c <= j < |rs| ==> ps[j] == From(rs[j], Base(j, bits), if j == c then off else 0)
    ensures Flat(ps, k) == Rest(rs, bits, k, if k == c then off else 0)
    decreases |rs| - k
  {
    if k < |rs| {
      FlatRest(rs, ps, bits, c, off, k + 1);
      assert ps[k] == From(rs[k], Base(k, bits), if k == c then off else 0);
      assert Flat(ps, k) == ps[k] + Flat(ps, k + 1);
    }
  }

  /**
   * A piece p with at least left values, after acc and before f: the first
   * |acc| + left values are acc and the first left of p.
   */
  lemma TakeFull(acc: seq<nat>, p: seq<nat>, f: seq<nat>, left: nat)
    requires |Fixed.Take(p, left)| == left
    ensures Fixed.Take(acc + (p + f), |acc| + left) == acc + Fixed.Take(p, left)
    ensures |acc| + left <= |acc + (p + f)|
  {
    var all := acc + (p + f);
    assert Fixed.Take(all, |acc| + left) == all[..|acc| + left];
    assert all[..|acc| + left] == acc + p[..left];
  }

  /** A piece p with fewer than left values is taken whole. */
  lemma TakeShort(acc: seq<nat>, p: seq<nat>, f: seq<nat>, left: nat)
    requires |Fixed.Take(p, left)| < left
    ensures Fixed.Take(p, left) == p && acc + (p + f) == (acc + p) + f
  {
  }

  /** Taking at least as many as there are takes all. */
  lemma TakeAll(acc: seq<nat>, limit: nat)
    requires |acc| <= limit
    ensures Fixed.Take(acc, limit) == acc
  {
  }

  /** Appending is associative. */
  lemma AppendAssoc(a: seq<U32>, b: seq<U32>, c: seq<U32>)
    ensures (a + b) + c == a + (b + c)
  {
  }

  /** Where chunk c's band starts. */
  function Base(c: nat, bits: nat): nat
  {
    c * bits
  }

  /** Go's `uint32(chunk)*sz.Bits + v`: both operations wrap modulo 2^32. */
  method Place(chunk: nat, bits: U32, v: U32) returns (x: U32)
    ensures x == Trunc32(Base(chunk, bits) + v)
  {
    var c := Trunc32(chunk);
    var p: nat := c * bits;
    x := Trunc32(Trunc32(p) + v);
    ModSmall(v, Modulus32);
    WrapPlace(chunk, bits, v);
  }

  /** What a valid chunk's ToArray holds: its members, as uint32. */
  lemma ChunkArray(ws: seq<Word>, cardinality: int, arr: seq<U32>)
    requires cardinality == Card(ws) && 64 * |ws| < Fixed.Modulus64
    requires |arr| == cardinality % Fixed.Modulus64
    requires arr == Dense.Fill(seq(|arr|, _ => 0), Dense.Convert(Trunc32, Members(ws)))
    ensures |arr| == |Members(ws)| && forall k :: 0 <= k < |arr| ==> arr[k] == Trunc32(Members(ws)[k])
  {
    CardBound(ws);
    MembersOrder(ws);
    ModSmall(cardinality, Fixed.Modulus64);
    Dense.FillAll(seq(|arr|, _ => 0), Dense.Convert(Trunc32, Members(ws)));
  }

  /** One more offset placed at the end of the shifted prefix. */
  lemma ShiftedSnoc(ms: seq<nat>, base: nat, k: nat)
    requires k < |ms|
    ensures Shifted(ms[..k + 1], base) == Shifted(ms[..k], base) + [Trunc32(base + ms[k])]
  {
    assert Shifted(ms[..k + 1], base)[k] == Trunc32(base + ms[k]);
  }

  /** The listing of one more chunk is the old listing followed by that chunk's values. */
  lemma ElementsSnoc(s: seq<Slot>, bits: nat, i: nat)
    requires i < |s|
    ensures Elements(s[..i + 1], bits) == Elements(s[..i], bits) + ChunkValues(s[i], Base(i, bits))
  {
    PiecesPrefix(s[..i + 1], bits, i);
    assert s[..i + 1][..i] == s[..i];
  }

  /** The counts of one more chunk. */
  lemma SumCardPrefix(s: seq<Slot>, bits: nat, i: nat)
    requires i < |s| && Uniform(s, bits)
    ensures SumCard(s[..i + 1]) == SumCard(s[..i]) + (if s[i].Present? then s[i].cardinality else 0)
    ensures SumCard(s[..i]) >= 0
  {
    assert s[..i + 1][..i] == s[..i];
    assert Uniform(s[..i], bits);
    SumCardLength(s[..i], bits);
  }

  /** One step of `GetCardinality`: adding chunk i's count, modulo 2^64, extends the sum by one chunk. */
  lemma CardStep(s: seq<Slot>, bits: nat, i: nat, c: nat, k: nat)
    requires i < |s| && Uniform(s, bits)
    requires c == SumCard(s[..i]) % Fixed.Modulus64
    requires k == if s[i].Present? then s[i].cardinality % Fixed.Modulus64 else 0
    ensures (c + k) % Fixed.Modulus64 == SumCard(s[..i + 1]) % Fixed.Modulus64
  {
    SumCardPrefix(s, bits, i);
    if s[i].Present? {
      ModAdd(SumCard(s[..i]), s[i].cardinality, Fixed.Modulus64);
    } else {
      ModAdd(SumCard(s[..i]), 0, Fixed.Modulus64);
    }
  }

  /** No chunk holds anything. */
  ghost predicate Blank(s: seq<Slot>)
  {
    forall i, v: nat :: 0 <= i < |s| ==> !Holds(s[i], v)
  }

  /** Valid chunks hold nothing exactly when the listing is empty. */
  lemma {:induction false} BlankListing(s: seq<Slot>, bits: nat)
    ensures Blank(s) <==> Elements(s, bits) == []
  {
    if s != [] {
      var n := |s| - 1;
      BlankListing(s[..n], bits);
      ElementsSnoc(s, bits, n);
      assert s[..n + 1] == s;
      BlankSnoc(s, n);
      ChunkEmpty(s[n], Base(n, bits));
    }
  }

  /** One chunk holding something makes the whole not blank. */
  lemma NotBlank(s: seq<Slot>, i: nat)
    requires i < |s| && !forall v: nat :: !Holds(s[i], v)
    ensures !Blank(s)
  {
  }

  /** Blank for one more chunk. */
  lemma BlankSnoc(s: seq<Slot>, n: nat)
    requires n < |s|
    ensures Blank(s[..n + 1]) <==> Blank(s[..n]) && forall v: nat :: !Holds(s[n], v)
  {
    var p, q := s[..n + 1], s[..n];
    assert forall i :: 0 <= i < n ==> p[i] == q[i] == s[i];
    assert p[n] == s[n];
  }

  /** A chunk lists nothing exactly when it holds nothing. */
  lemma ChunkEmpty(a: Slot, base: nat)
    ensures ChunkValues(a, base) == [] <==> forall v: nat :: !Holds(a, v)
  {
    if a.Present? {
      var ms := Members(a.words);
      MembersProperties(a.words);
      assert |ChunkValues(a, base)| == |ms|;
      if ms != [] {
        assert ms[0] in ms && Holds(a, ms[0]);
      } else {
        forall v: nat ensures !Holds(a, v) {
          assert v !in ms;
        }
      }
    }
  }

  /**
   * `b.Equals(o)`: both nil, or the same number of chunks and Fixed's Equals
   * on every pair, which is the same slots. A nil b with a non-nil o is a nil
   * dereference in Go.
   */
  method Equals(b: Bitmaps?, o: Bitmaps?) returns (eq: bool)
    requires b == null ==> o == null
    requires b != null ==> b.Valid()
    requires o != null ==> o.Valid()
    ensures eq <==> (b == null && o == null) || (b != null && o != null && b.state == o.state)
  {
    if o == null && b == null {
      return true;
    }
    if o == null {
      return false;
    }
    if |b.chunks| != |o.chunks| {
      return false;
    }
    var i := 0;
    while i < |b.chunks|
      invariant 0 <= i <= |b.chunks|
      invariant forall j :: 0 <= j < i ==> b.state[j] == o.state[j]
    {
      assert SlotValid(b.state[i], b.bits) && SlotValid(o.state[i], o.bits);
      var e := Fixed.Equals(b.chunks[i], o.chunks[i]);
      if !e {
        return false;
      }
      i := i + 1;
    }
    assert b.state == o.state;
    return true;
  }

  /**
   * Equals compares chunks, not values: a nil chunk and an empty one hold the
   * same values, yet the two Bitmaps are not Equal.
   */
  lemma EqualsSeesEmptyChunks(bits: U32)
    requires bits > 0
    ensures Uniform([Absent], bits) && Uniform([Fresh(bits)], bits)
    ensures forall x: nat :: In([Absent], bits, x) == In([Fresh(bits)], bits, x)
    ensures [Absent] != [Fresh(bits)]
  {
  }

  // ---------------------------------------------------------------------
  // AndBitmaps, OrBitmaps and AndNotBitmap

  /** The chunks of several Bitmaps: at least one, all of one length and all valid for capacity bits. */
  predicate Alike(ss: seq<seq<Slot>>, bits: nat)
  {
    |ss| > 0 && forall k :: 0 <= k < |ss| ==> |ss[k]| == |ss[0]| && Uniform(ss[k], bits)
  }

  /** A nonempty prefix of alike chunk sequences is alike. */
  lemma AlikePrefix(ss: seq<seq<Slot>>, bits: nat, k: nat)
    requires Alike(ss, bits) && 0 < k <= |ss|
    ensures Alike(ss[..k], bits) && ss[..k][0] == ss[0]
  {
    assert forall j :: 0 <= j < k ==> ss[..k][j] == ss[j];
  }

  /** `AndBitmaps`' result: a clone of the first operand, then `And` with each other operand in turn. */
  function AndAll(ss: seq<seq<Slot>>, bits: nat): (r: seq<Slot>)
    requires Alike(ss, bits)
    ensures |r| == |ss[0]| && Uniform(r, bits)
    decreases |ss|
  {
    if |ss| == 1 then ss[0]
    else
      var n := |ss| - 1;
      AlikePrefix(ss, bits, n);
      var p := AndAll(ss[..n], bits);
      AndSlotsFacts(p, ss[n], bits);
      AndSlots(p, ss[n])
  }

  /** `OrBitmaps`' result: a clone of the first operand, then `Or` with each other operand in turn. */
  function OrAll(ss: seq<seq<Slot>>, bits: nat): (r: seq<Slot>)
    requires Alike(ss, bits)
    ensures |r| == |ss[0]| && Uniform(r, bits)
    decreases |ss|
  {
    if |ss| == 1 then ss[0]
    else
      var n := |ss| - 1;
      AlikePrefix(ss, bits, n);
      var p := OrAll(ss[..n], bits);
      OrSlotsFacts(p, ss[n], bits);
      OrSlots(p, ss[n], bits)
  }

  /**
   * AndBitmaps holds the values every operand held; when the first operand
   * has no chunk holding an offset of bits or more, neither has the result.
   */
  lemma {:induction false} AndAllFacts(ss: seq<seq<Slot>>, bits: nat)
    requires Alike(ss, bits) && bits > 0
    ensures forall x: nat :: In(AndAll(ss, bits), bits, x) <==> forall k :: 0 <= k < |ss| ==> In(ss[k], bits, x)
    ensures Tidy(ss[0], bits) ==> Tidy(AndAll(ss, bits), bits)
    decreases |ss|
  {
    if |ss| > 1 {
      var n := |ss| - 1;
      AlikePrefix(ss, bits, n);
      AndAllFacts(ss[..n], bits);
      AndSlotsFacts(AndAll(ss[..n], bits), ss[n], bits);
      assert forall k :: 0 <= k < n ==> ss[..n][k] == ss[k];
    }
  }

  /**
   * OrBitmaps holds the values some operand held; when no operand has a
   * chunk holding an offset of bits or more, neither has the result.
   */
  lemma {:induction false} OrAllFacts(ss: seq<seq<Slot>>, bits: nat)
    requires Alike(ss, bits) && bits > 0
    ensures forall x: nat :: In(OrAll(ss, bits), bits, x) <==> exists k :: 0 <= k < |ss| && In(ss[k], bits, x)
    ensures (forall k :: 0 <= k < |ss| ==> Tidy(ss[k], bits)) ==> Tidy(OrAll(ss, bits), bits)
    decreases |ss|
  {
    if |ss| > 1 {
      var n := |ss| - 1;
      AlikePrefix(ss, bits, n);
      OrAllFacts(ss[..n], bits);
      OrSlotsFacts(OrAll(ss[..n], bits), ss[n], bits);
      assert forall k :: 0 <= k < n ==> ss[..n][k] == ss[k];
    }
  }

  /**
   * The operands' chunks after AndBitmaps: the first as it was, each later
   * one with only the chunks the running result had when it was And-ed in.
   */
  function AndOperandsAll(ss: seq<seq<Slot>>, bits: nat): (r: seq<seq<Slot>>)
    requires Alike(ss, bits)
    ensures |r| == |ss| && r[0] == ss[0]
    decreases |ss|
  {
    if |ss| == 1 then ss
    else
      var n := |ss| - 1;
      AlikePrefix(ss, bits, n);
      AndOperandsAll(ss[..n], bits) + [AndOperands(AndAll(ss[..n], bits), ss[n])]
  }

  /**
   * `AndBitmaps(sz, bitmaps...)`: a new empty Bitmaps of size sz when there
   * are no operands, else a clone of the first one And-ed with each other
   * one in turn. Each And drops from its operand the chunks the running
   * result lacks; the first operand is left as it was.
   */
  method AndBitmaps(sz: Size, bitmaps: seq<Bitmaps>, ghost ss: seq<seq<Slot>>) returns (r: Bitmaps)
    requires |ss| == |bitmaps|
    requires forall k :: 0 <= k < |bitmaps| ==> bitmaps[k].Valid() && bitmaps[k].state == ss[k] && bitmaps[k].bits == bitmaps[0].bits
    requires |bitmaps| > 0 ==> Alike(ss, bitmaps[0].bits)
    requires forall j, k :: 0 <= j < k < |bitmaps| ==> Separate(bitmaps[j], bitmaps[k])
    modifies bitmaps
    ensures fresh(r) && fresh(r.Repr) && r.Valid()
    ensures |bitmaps| == 0 ==> r.bits == sz.bits && r.state == seq(sz.chunks, _ => Absent)
    ensures |bitmaps| > 0 ==> r.bits == bitmaps[0].bits && r.state == AndAll(ss, r.bits)
    ensures forall k :: 0 <= k < |bitmaps| ==> bitmaps[k].Valid() && bitmaps[k].Repr == old(bitmaps[k].Repr)
    ensures forall k :: 0 <= k < |bitmaps| ==> bitmaps[k].state == AndOperandsAll(ss, r.bits)[k]
  {
    if |bitmaps| == 0 {
      r := new Bitmaps(sz);
      return;
    }
    ghost var reprs := seq(|bitmaps|, j requires 0 <= j < |bitmaps| reads bitmaps => bitmaps[j].Repr);
    r := bitmaps[0].Clone();
    AndRest(r, bitmaps, ss, reprs);
  }

  /** Operands that are distinct objects with disjoint footprints reprs, none inside another's. */
  predicate Apart(bitmaps: seq<Bitmaps>, reprs: seq<set<object>>)
  {
    |reprs| == |bitmaps| &&
    forall j, i :: 0 <= j < |bitmaps| && 0 <= i < |bitmaps| && j != i ==>
      bitmaps[j] != bitmaps[i] && reprs[j] !! reprs[i] && bitmaps[j] !in reprs[i]
  }

  /** The loop of AndBitmaps: `b.And(o)` for every operand o after the first, b a clone of the first. */
  method AndRest(r: Bitmaps, bitmaps: seq<Bitmaps>, ghost ss: seq<seq<Slot>>, ghost reprs: seq<set<object>>)
    requires 1 <= |bitmaps| == |ss| && Alike(ss, r.bits) && Apart(bitmaps, reprs)
    requires r.Valid() && r !in bitmaps && r.state == ss[0]
    requires forall j :: 0 <= j < |bitmaps| ==> r.Repr !! reprs[j] && bitmaps[j] !in r.Repr && r !in reprs[j]
    requires forall j :: 0 <= j < |bitmaps| ==>
               bitmaps[j].Valid() && bitmaps[j].bits == r.bits && bitmaps[j].state == ss[j] && bitmaps[j].Repr == reprs[j]
    modifies r, r.Repr, bitmaps
    ensures r.Valid() && r.Repr == old(r.Repr) && r.state == AndAll(ss, r.bits)
    ensures forall k :: 0 <= k < |bitmaps| ==> bitmaps[k].Valid() && bitmaps[k].Repr == reprs[k]
    ensures forall k :: 0 <= k < |bitmaps| ==> bitmaps[k].state == AndOperandsAll(ss, r.bits)[k]
  {
    AlikePrefix(ss, r.bits, 1);
    assert ss[..1] == [ss[0]];
    var k := 1;
    while k < |bitmaps|
      invariant 1 <= k <= |bitmaps| && Alike(ss[..k], r.bits)
      invariant r.Valid() && r.Repr == old(r.Repr) && r.state == AndAll(ss[..k], r.bits)
      invariant forall j :: 0 <= j < |bitmaps| ==> bitmaps[j].Valid() && bitmaps[j].Repr == reprs[j]
      invariant forall j :: 0 <= j < k ==> bitmaps[j].state == AndOperandsAll(ss[..k], r.bits)[j]
      invariant forall j :: k <= j < |bitmaps| ==> bitmaps[j].state == ss[j]
    {
      AndStep(r, bitmaps, ss, reprs, k);
      k := k + 1;
    }
    assert ss[..k] == ss;
  }

  /** One round of AndBitmaps' loop: `b.And(bitmaps[k])`. */
  method AndStep(r: Bitmaps, bitmaps: seq<Bitmaps>, ghost ss: seq<seq<Slot>>, ghost reprs: seq<set<object>>, k: nat)
    requires 1 <= k < |bitmaps| == |ss| && Alike(ss, r.bits) && Alike(ss[..k], r.bits) && Apart(bitmaps, reprs)
    requires r.Valid() && r !in bitmaps
    requires forall j :: 0 <= j < |bitmaps| ==> r.Repr !! reprs[j] && bitmaps[j] !in r.Repr && r !in reprs[j]
    requires forall j :: 0 <= j < |bitmaps| ==> bitmaps[j].Valid() && bitmaps[j].bits == r.bits && bitmaps[j].Repr == reprs[j]
    requires r.state == AndAll(ss[..k], r.bits)
    requires forall j :: 0 <= j < k ==> bitmaps[j].state == AndOperandsAll(ss[..k], r.bits)[j]
    requires bitmaps[k].state == ss[k]
    modifies r, r.Repr, bitmaps[k]
    ensures r.Valid() && r.Repr == old(r.Repr) && Alike(ss[..k + 1], r.bits)
    ensures r.state == AndAll(ss[..k + 1], r.bits)
    ensures forall j :: 0 <= j < |bitmaps| ==> bitmaps[j].Valid() && bitmaps[j].Repr == reprs[j]
    ensures forall j :: 0 <= j <= k ==> bitmaps[j].state == AndOperandsAll(ss[..k + 1], r.bits)[j]
    ensures forall j :: k < j < |bitmaps| ==> bitmaps[j].state == old(bitmaps[j].state)
  {
    AndAllStep(ss, r.bits, k);
    r.And(bitmaps[k]);
  }

  /** AndAll and AndOperandsAll one operand further. */
  lemma AndAllStep(ss: seq<seq<Slot>>, bits: nat, k: nat)
    requires Alike(ss, bits) && 1 <= k < |ss|
    ensures Alike(ss[..k], bits) && Alike(ss[..k + 1], bits)
    ensures AndAll(ss[..k + 1], bits) == AndSlots(AndAll(ss[..k], bits), ss[k])
    ensures AndOperandsAll(ss[..k + 1], bits) == AndOperandsAll(ss[..k], bits) + [AndOperands(AndAll(ss[..k], bits), ss[k])]
  {
    AlikePrefix(ss, bits, k);
    AlikePrefix(ss, bits, k + 1);
    assert ss[..k + 1][..k] == ss[..k] && ss[..k + 1][k] == ss[k];
  }

  /**
   * `OrBitmaps(sz, bitmaps...)`: a new empty Bitmaps of size sz when there
   * are no operands, else a clone of the first one Or-ed with each other one
   * in turn. No operand is changed.
   */
  method OrBitmaps(sz: Size, bitmaps: seq<Bitmaps>, ghost ss: seq<seq<Slot>>) returns (r: Bitmaps)
    requires |ss| == |bitmaps|
    requires forall k :: 0 <= k < |bitmaps| ==> bitmaps[k].Valid() && bitmaps[k].state == ss[k] && bitmaps[k].bits == bitmaps[0].bits
    requires |bitmaps| > 0 ==> Alike(ss, bitmaps[0].bits)
    ensures fresh(r) && fresh(r.Repr) && r.Valid()
    ensures |bitmaps| == 0 ==> r.bits == sz.bits && r.state == seq(sz.chunks, _ => Absent)
    ensures |bitmaps| > 0 ==> r.bits == bitmaps[0].bits && r.state == OrAll(ss, r.bits)
    ensures forall k :: 0 <= k < |bitmaps| ==> bitmaps[k].Valid() && bitmaps[k].state == ss[k]
  {
    if |bitmaps| == 0 {
      r := new Bitmaps(sz);
      return;
    }
    ghost var others := Reach(bitmaps);
    ReachOwned(bitmaps);
    r := bitmaps[0].Clone();
    forall j | 0 <= j < |bitmaps|
      ensures r.Repr !! bitmaps[j].Repr && bitmaps[j] !in r.Repr && r != bitmaps[j] && r !in bitmaps[j].Repr
    {
    }
    AlikePrefix(ss, r.bits, 1);
    assert ss[..1] == [ss[0]];
    OrRest(r, bitmaps, ss, others);
  }

  /** The operands and every object they own. */
  ghost function Reach(bitmaps: seq<Bitmaps>): (r: set<object>)
    reads bitmaps
    ensures forall j :: 0 <= j < |bitmaps| ==> bitmaps[j] in r && bitmaps[j].Repr <= r
  {
    if bitmaps == [] then {}
    else Reach(bitmaps[..|bitmaps| - 1]) + bitmaps[|bitmaps| - 1].Repr + {bitmaps[|bitmaps| - 1]}
  }

  /** Everything Reach gathers is an operand or owned by one. */
  lemma {:induction false} ReachOwned(bitmaps: seq<Bitmaps>)
    ensures forall o :: o in Reach(bitmaps) ==> exists j :: 0 <= j < |bitmaps| && (o == bitmaps[j] || o in bitmaps[j].Repr)
  {
    if bitmaps != [] {
      var front := bitmaps[..|bitmaps| - 1];
      var last := |bitmaps| - 1;
      ReachOwned(front);
      forall o | o in Reach(bitmaps)
        ensures exists j :: 0 <= j < |bitmaps| && (o == bitmaps[j] || o in bitmaps[j].Repr)
      {
        if o in Reach(front) {
          var j :| 0 <= j < |front| && (o == front[j] || o in front[j].Repr);
          assert front[j] == bitmaps[j];
        } else {
          assert o == bitmaps[last] || o in bitmaps[last].Repr;
        }
      }
    }
  }

  /** The loop of OrBitmaps: `b.Or(o)` for every operand o after the first, b a clone of the first. */
  method OrRest(r: Bitmaps, bitmaps: seq<Bitmaps>, ghost ss: seq<seq<Slot>>, ghost others: set<object>)
    requires 1 <= |bitmaps| == |ss| && Alike(ss, r.bits) && Alike(ss[..1], r.bits)
    requires r.Valid() && r.state == OrAll(ss[..1], r.bits) && r !in others && r.Repr !! others
    requires forall j :: 0 <= j < |bitmaps| ==> bitmaps[j] in others && bitmaps[j].Repr <= others
    requires forall j :: 0 <= j < |bitmaps| ==> bitmaps[j].Valid() && bitmaps[j].bits == r.bits && bitmaps[j].state == ss[j]
    modifies r, r.Repr
    ensures r.Valid() && fresh(r.Repr - old(r.Repr)) && r.state == OrAll(ss, r.bits)
  {
    var k := 1;
    while k < |bitmaps|
      invariant 1 <= k <= |bitmaps| && Alike(ss[..k], r.bits)
      invariant r.Valid() && r.state == OrAll(ss[..k], r.bits) && r.Repr !! others
      invariant fresh(r.Repr - old(r.Repr))
    {
      OrStep(r, bitmaps, ss, others, k);
      k := k + 1;
    }
    assert ss[..k] == ss;
  }

  /** One round of OrBitmaps' loop: `b.Or(bitmaps[k])`. */
  method OrStep(r: Bitmaps, bitmaps: seq<Bitmaps>, ghost ss: seq<seq<Slot>>, ghost others: set<object>, k: nat)
    requires 1 <= k < |bitmaps| == |ss| && Alike(ss, r.bits) && Alike(ss[..k], r.bits)
    requires r.Valid() && r.state == OrAll(ss[..k], r.bits) && r !in others && r.Repr !! others
    requires bitmaps[k] in others && bitmaps[k].Repr <= others
    requires bitmaps[k].Valid() && bitmaps[k].bits == r.bits && bitmaps[k].state == ss[k]
    modifies r, r.Repr
    ensures Alike(ss[..k + 1], r.bits) && r.Valid() && r.state == OrAll(ss[..k + 1], r.bits)
    ensures r.Repr !! others && fresh(r.Repr - old(r.Repr))
  {
    OrAllStep(ss, r.bits, k);
    assert forall i :: 0 <= i < |ss[k]| ==> SlotValid(r.state[i], r.bits) && SlotValid(ss[k][i], r.bits);
    r.Or(bitmaps[k]);
  }

  /** OrAll one operand further. */
  lemma OrAllStep(ss: seq<seq<Slot>>, bits: nat, k: nat)
    requires Alike(ss, bits) && 1 <= k < |ss|
    ensures Alike(ss[..k], bits) && Alike(ss[..k + 1], bits) && |ss[k]| == |OrAll(ss[..k], bits)|
    ensures OrAll(ss[..k + 1], bits) == OrSlots(OrAll(ss[..k], bits), ss[k], bits)
  {
    AlikePrefix(ss, bits, k);
    AlikePrefix(ss, bits, k + 1);
    assert ss[..k + 1][..k] == ss[..k] && ss[..k + 1][k] == ss[k];
  }

  /** `AndNotBitmap(a, b)`: a clone of a, AndNot-ed with b; neither operand is changed. */
  method AndNotBitmap(a: Bitmaps, b: Bitmaps) returns (c: Bitmaps)
    requires a.Valid() && b.Valid() && |b.chunks| == |a.chunks|
    requires forall i :: 0 <= i < |a.chunks| ==> Fits(a.state[i], b.state[i])
    ensures fresh(c) && fresh(c.Repr) && c.bits == a.bits && c.Linked()
    ensures c.state == AndNotSlots(a.state, b.state)
    ensures b.bits == a.bits ==> c.Valid()
  {
    c := a.Clone();
    c.AndNot(b);
  }

  /** Chunks that are all absent list nothing. */
  lemma {:induction false} EmptyListing(s: seq<Slot>, bits: nat)
    requires forall i :: 0 <= i < |s| ==> s[i].Absent?
    ensures Elements(s, bits) == []
  {
    if s != [] {
      var n := |s| - 1;
      PiecesPrefix(s, bits, n);
      EmptyListing(s[..n], bits);
    }
  }

  // ---------------------------------------------------------------------
  // NextMany: a page of values at or above a start value

  /** A chunk as `NextMany` walks it: nil, or the offsets it holds, ascending. */
  datatype Run = Skip | Offsets(ms: seq<nat>)

  /** The run of one chunk. */
  function RunOf(a: Slot): (r: Run)
    ensures r.Skip? <==> a.Absent?
  {
    if a.Absent? then Skip else Offsets(Members(a.words))
  }

  /** The run of every chunk. */
  function Runs(s: seq<Slot>): (r: seq<Run>)
    ensures |r| == |s| && forall i :: 0 <= i < |s| ==> r[i] == RunOf(s[i])
  {
    seq(|s|, i requires 0 <= i < |s| => RunOf(s[i]))
  }

  /** What Fixed's `NextMany(off, buf, lim)` gives for a present chunk (see ValuesFromTake). */
  function Next(r: Run, off: nat, lim: nat): seq<nat>
    requires r.Offsets?
  {
    Fixed.Take(Fixed.AtLeast(r.ms, off), lim)
  }

  /** Every value of the chunks from chunk c at offset off on, in chunk order. */
  function Rest(rs: seq<Run>, bits: nat, c: nat, off: nat): seq<U32>
    decreases |rs| - c
  {
    if c >= |rs| then []
    else From(rs[c], Base(c, bits), off) + Rest(rs, bits, c + 1, 0)
  }

  /** A chunk's values at or above offset off, placed at base. */
  function From(r: Run, base: nat, off: nat): seq<U32>
  {
    if r.Skip? then [] else Shifted(Fixed.AtLeast(r.ms, off), base)
  }

  /** Fixed's NextMany is the first lim members at or above off. */
  lemma ValuesFromTake(ws: seq<Word>, off: nat, lim: nat)
    ensures Fixed.ValuesFrom(ws, off, lim) == Fixed.Take(Fixed.AtLeast(Members(ws), off), lim)
  {
  }

  /** Placing commutes with taking a prefix. */
  lemma ShiftedTake(xs: seq<nat>, base: nat, n: nat)
    ensures Shifted(Fixed.Take(xs, n), base) == Fixed.Take(Shifted(xs, base), n)
    ensures |Fixed.Take(xs, n)| == n <==> |xs| >= n
  {
    if |xs| > n {
      assert Shifted(xs[..n], base) == Shifted(xs, base)[..n];
    }
  }

  /** x at least n * bits lies in chunk n or later. */
  lemma DivAtLeast(x: nat, n: nat, bits: nat)
    requires bits > 0 && n * bits <= x
    ensures n <= x / bits
  {
    if x / bits < n {
      MulMono(x / bits + 1, n, bits);
      MulSucc(x / bits, bits);
    }
  }

  /** Within chunk c's band, x is present exactly when chunk c holds its offset from the band's start. */
  lemma BandHolds(s: seq<Slot>, bits: nat, c: nat, x: nat)
    requires bits > 0 && c < |s|
    ensures Base(c, bits) <= x < Base(c, bits) + bits ==> (In(s, bits, x) <==> Holds(s[c], x - Base(c, bits)))
  {
    BandOf(x, c, bits, Base(c, bits));
  }

  /** Chunk c's values at or above off: ascending, and exactly the present values in [base + off, base + bits). */
  lemma FromFacts(s: seq<Slot>, bits: nat, c: nat, off: nat)
    requires bits > 0 && c < |s| && |s| * bits <= Modulus32 && Tidy(s, bits)
    ensures Increasing(From(RunOf(s[c]), Base(c, bits), off))
    ensures forall x: nat :: x in From(RunOf(s[c]), Base(c, bits), off) <==>
              Base(c, bits) + off <= x < Base(c, bits) + bits && In(s, bits, x)
  {
    var base := Base(c, bits);
    MulMono(c + 1, |s|, bits);
    MulSucc(c, bits);
    if s[c].Present? {
      var ws := s[c].words;
      var ms := Fixed.AtLeast(Members(ws), off);
      MembersProperties(ws);
      Fixed.AtLeastIncreasing(Members(ws), off);
      forall k | 0 <= k < |ms|
        ensures ms[k] < bits
      {
        assert ms[k] in ms && Holds(s[c], ms[k]);
      }
      ShiftedFacts(ms, base, bits);
      forall x: nat
        ensures x in From(RunOf(s[c]), base, off) <==> base + off <= x < base + bits && In(s, bits, x)
      {
        BandHolds(s, bits, c, x);
        if base <= x {
          assert (x in From(RunOf(s[c]), base, off)) == (x - base in ms);
        }
      }
    } else {
      forall x: nat
        ensures !(base + off <= x < base + bits && In(s, bits, x))
      {
        BandHolds(s, bits, c, x);
      }
    }
  }

  /** The rest from chunk c at offset off is ascending and holds exactly the present values from c * bits + off on. */
  lemma {:induction false} RestFacts(s: seq<Slot>, bits: nat, c: nat, off: nat)
    requires bits > 0 && off < bits && |s| * bits <= Modulus32 && Tidy(s, bits)
    ensures Increasing(Rest(Runs(s), bits, c, off))
    ensures forall x: nat :: x in Rest(Runs(s), bits, c, off) <==> Base(c, bits) + off <= x && In(s, bits, x)
    decreases |s| - c
  {
    var base := Base(c, bits);
    if c >= |s| {
      forall x: nat | base + off <= x
        ensures !In(s, bits, x)
      {
        DivAtLeast(x, c, bits);
      }
    } else {
      RestFacts(s, bits, c + 1, 0);
      FromFacts(s, bits, c, off);
      MulSucc(c, bits);
      var p, q := From(RunOf(s[c]), base, off), Rest(Runs(s), bits, c + 1, 0);
      assert Rest(Runs(s), bits, c, off) == p + q;
      assert Base(c + 1, bits) == base + bits;
      forall i, j | 0 <= i < |p| && 0 <= j < |q|
        ensures p[i] < q[j]
      {
        assert p[i] in p && q[j] in q;
      }
      AppendIncreasing(p, q);
    }
  }

  /** Two ascending runs, the first wholly below the second, make an ascending run. */
  lemma AppendIncreasing(p: seq<nat>, q: seq<nat>)
    requires Increasing(p) && Increasing(q)
    requires forall i, j :: 0 <= i < |p| && 0 <= j < |q| ==> p[i] < q[j]
    ensures Increasing(p + q)
  {
    var r := p + q;
    forall i, j | 0 <= i < j < |r|
      ensures r[i] < r[j]
    {
      if j < |p| {
        assert r[i] == p[i] && r[j] == p[j];
      } else if i >= |p| {
        assert r[i] == q[i - |p|] && r[j] == q[j - |p|];
      } else {
        assert r[i] == p[i] && r[j] == q[j - |p|];
      }
    }
  }

  /** A value is its chunk's base plus its offset. */
  lemma Recompose(i: nat, bits: nat)
    requires bits > 0
    ensures Base(i / bits, bits) + i % bits == i
  {
  }

  /** From i on, the chunks' values are the listing's values at or above i. */
  lemma RestIsAtLeast(s: seq<Slot>, bits: nat, i: nat)
    requires bits > 0 && |s| * bits <= Modulus32 && Tidy(s, bits)
    ensures Rest(Runs(s), bits, i / bits, i % bits) == Fixed.AtLeast(Elements(s, bits), i)
  {
    var e := Elements(s, bits);
    var rest := Rest(Runs(s), bits, i / bits, i % bits);
    var at := Fixed.AtLeast(e, i);
    Recompose(i, bits);
    RestFacts(s, bits, i / bits, i % bits);
    ElementsFacts(s, bits);
    Fixed.AtLeastIncreasing(e, i);
    assert forall y :: y in rest <==> y in at;
    Arrays.SubsetLength(rest, at);
    Arrays.SubsetLength(at, rest);
    Arrays.SortedUnique(rest, at);
  }

  /**
   * `NextMany(i, buffer, limit)`, when no chunk holds an offset of bits or
   * more and the domain fits uint32: the first limit values of the listing
   * at or above i; so at most limit values, ascending, all present and at
   * or above i, none skipped below the last; with limit > 0 the flag says
   * whether limit values were there to take.
   */
  lemma NextManyFacts(s: seq<Slot>, bits: nat, i: U32, lim: nat)
    requires bits > 0 && |s| * bits <= Modulus32 && Tidy(s, bits)
    ensures var rest := Rest(Runs(s), bits, i / bits, i % bits);
      var r := Fixed.Take(rest, lim);
      r == Fixed.Take(Fixed.AtLeast(Elements(s, bits), i), lim) &&
      |r| <= lim && Increasing(r) &&
      (forall k :: 0 <= k < |r| ==> i <= r[k] && In(s, bits, r[k])) &&
      (forall x: nat :: i <= x && In(s, bits, x) && (|r| < lim || (|r| > 0 && x <= r[|r| - 1])) ==> x in r) &&
      (lim <= |rest| <==> |r| == lim)
  {
    var e := Elements(s, bits);
    var at := Fixed.AtLeast(e, i);
    var r := Fixed.Take(at, lim);
    RestIsAtLeast(s, bits, i);
    assert Increasing(at) && forall x: nat :: x in at <==> i <= x && In(s, bits, x) by {
      ElementsFacts(s, bits);
      Fixed.AtLeastIncreasing(e, i);
    }
    Fixed.TakeFacts(at, lim);
    forall k | 0 <= k < |r|
      ensures i <= r[k] && In(s, bits, r[k])
    {
      assert r[k] in r;
    }
  }
  // ---------------------------------------------------------------------
  // Range: the listing by rank

  /** The values of ranks start to stop - 1 in the listing e, in order; ranks e does not have are dropped. */
  function Window(e: seq<U32>, start: int, stop: int): seq<U32>
  {
    if e == [] then []
    else Window(e[..|e| - 1], start, stop) + (if start <= |e| - 1 < stop then [e[|e| - 1]] else [])
  }

  /** Where the ranks [start, stop) begin and end in a listing of n values. */
  function Clamp(x: int, lo: nat, n: nat): (r: nat)
    requires lo <= n
    ensures lo <= r <= n
  {
    if x < lo then lo else if x > n then n else x
  }

  /** The window is the slice of the listing between the clamped ends of [start, stop). */
  lemma {:induction false} WindowSlice(e: seq<U32>, start: int, stop: int)
    ensures var lo := Clamp(start, 0, |e|);
      Window(e, start, stop) == e[lo..Clamp(stop, lo, |e|)]
  {
    if e != [] {
      var n := |e| - 1;
      WindowSlice(e[..n], start, stop);
      var lo, lo' := Clamp(start, 0, |e|), Clamp(start, 0, n);
      var hi, hi' := Clamp(stop, lo, |e|), Clamp(stop, lo', n);
      assert e[..n][lo'..hi'] == e[lo'..hi'];
      if start <= n < stop {
        assert lo == lo' && hi == n + 1 && hi' == n;
        assert e[lo..n + 1] == e[lo..n] + [e[n]];
      } else if n < start {
        assert hi == lo;
      } else {
        assert lo == lo' && hi == hi';
      }
    }
  }

  /**
   * The window holds, in order, the values of the ranks in [start, stop)
   * that the listing has: as many as the two ranges share, so never more
   * than stop - start, and all of them from rank max(start, 0) up when stop
   * is at least the listing's length.
   */
  lemma WindowFacts(e: seq<U32>, start: int, stop: int)
    requires start <= stop
    ensures var lo := if start < 0 then 0 else start;
      var hi := if stop > |e| then |e| else stop;
      var r := Window(e, start, stop);
      |r| == (if hi <= lo then 0 else hi - lo) && |r| <= stop - start &&
      (forall k :: 0 <= k < |r| ==> r[k] == e[lo + k]) &&
      (start <= 0 && |e| <= stop ==> r == e)
  {
    WindowSlice(e, start, stop);
  }

  /** One more value, of rank |p|, is in the window exactly when start <= |p| < stop. */
  lemma WindowSnoc(p: seq<U32>, x: U32, start: int, stop: int)
    ensures Window(p + [x], start, stop) == Window(p, start, stop) + (if start <= |p| < stop then [x] else [])
  {
    assert (p + [x])[..|p|] == p;
  }

  /** One more value of a chunk's run, placed at base, in the window of the listing so far. */
  lemma WindowStep(p: seq<U32>, ms: seq<nat>, base: nat, k: nat, start: int, stop: int)
    requires k < |ms|
    ensures Window(p + Shifted(ms[..k + 1], base), start, stop) ==
            Window(p + Shifted(ms[..k], base), start, stop) + (if start <= |p| + k < stop then [Trunc32(base + ms[k])] else [])
  {
    var x := Trunc32(base + ms[k]);
    ShiftedSnoc(ms, base, k);
    WindowSnoc(p + Shifted(ms[..k], base), x, start, stop);
    assert p + Shifted(ms[..k + 1], base) == p + Shifted(ms[..k], base) + [x];
  }

  /** A listing with no value of rank start or more has an empty window. */
  lemma WindowBefore(e: seq<U32>, start: int, stop: int)
    requires |e| <= start
    ensures Window(e, start, stop) == []
  {
    WindowSlice(e, start, stop);
  }

  /** Values after the first stop ranks do not change the window. */
  lemma {:induction false} WindowPrefix(p: seq<U32>, q: seq<U32>, start: int, stop: int)
    requires stop <= |p|
    ensures Window(p + q, start, stop) == Window(p, start, stop)
    decreases |q|
  {
    if q == [] {
      assert p + q == p;
    } else {
      var n := |q| - 1;
      WindowPrefix(p, q[..n], start, stop);
      assert (p + q)[..|p + q| - 1] == p + q[..n];
    }
  }

  /** The listing is the listing of the first i chunks followed by the pieces of the others. */
  lemma ElementsSplit(s: seq<Slot>, bits: nat, i: nat)
    requires i <= |s|
    ensures Elements(s, bits) == Elements(s[..i], bits) + Concat(Pieces(s, bits)[i..])
  {
    ConcatSplit(Pieces(s, bits), i);
    PiecesPrefix(s, bits, i);
  }

  /**
   * `Range(start, stop)` with no chunk holding an offset of bits or more and
   * a domain that fits uint32: at most stop - start values, ascending, all
   * present, the listing's values from rank max(start, 0) on; with start <= 0
   * and stop at least `GetCardinality()`, the whole of `ToArray()`.
   */
  lemma RangeFacts(s: seq<Slot>, bits: nat, start: int, stop: int)
    requires bits > 0 && |s| * bits <= Modulus32 && Tidy(s, bits) && Uniform(s, bits) && start <= stop
    ensures var e := Elements(s, bits); var r := Window(e, start, stop);
      var lo := if start < 0 then 0 else start;
      |r| <= stop - start && Increasing(r) && (forall x: nat :: x in r ==> In(s, bits, x)) &&
      (forall k :: 0 <= k < |r| ==> lo + k < |e| && r[k] == e[lo + k]) &&
      (start <= 0 && SumCard(s) <= stop ==> r == e)
  {
    var e := Elements(s, bits);
    var r := Window(e, start, stop);
    ElementsFacts(s, bits);
    WindowFacts(e, start, stop);
    SumCardLength(s, bits);
    forall x: nat | x in r
      ensures In(s, bits, x)
    {
      assert x in e;
    }
  }

  // ---------------------------------------------------------------------
  // EachBatch: the listing handed over in pages

  datatype Option<T> = None | Some(value: T)

  /** What process returns: `(done bool, err error)`. */
  datatype Reply<E> = Reply(done: bool, err: Option<E>)

  /** The batches process was called with, in order, and the error EachBatch returns. */
  datatype Outcome<E> = Outcome(calls: seq<seq<U32>>, err: Option<E>)

  /** Calls made before an outcome. */
  function After<E>(calls: seq<seq<U32>>, o: Outcome<E>): Outcome<E>
  {
    Outcome(calls + o.calls, o.err)
  }

  /** The listing e cut into pages of n values (the last may be shorter); none when n is 0. */
  function Batches(e: seq<U32>, n: nat): (r: seq<seq<U32>>)
    ensures forall k :: 0 <= k < |r| ==> 0 < |r[k]| <= n
    decreases |e|
  {
    if e == [] || n == 0 then []
    else if |e| <= n then [e]
    else [e[..n]] + Batches(e[n..], n)
  }

  /**
   * The batches handed to process one by one: the walk stops after the first
   * reply with an error (returned) or with done (no error), else after the
   * last batch.
   */
  function Deliver<E>(bs: seq<seq<U32>>, process: seq<U32> -> Reply<E>): (r: Outcome<E>)
    ensures |r.calls| <= |bs| && r.calls == bs[..|r.calls|]
  {
    if bs == [] then Outcome([], None)
    else
      var reply := process(bs[0]);
      if reply.err.Some? then Outcome([bs[0]], reply.err)
      else if reply.done then Outcome([bs[0]], None)
      else After([bs[0]], Deliver(bs[1..], process))
  }

  /** In an ascending sequence, the values at or above x are those from the first index holding x or more. */
  lemma {:induction false} AtLeastAt(s: seq<nat>, k: nat, x: nat)
    requires k <= |s| && (forall i :: 0 <= i < k ==> s[i] < x) && (forall i :: k <= i < |s| ==> x <= s[i])
    ensures Fixed.AtLeast(s, x) == s[k..]
  {
    if s != [] {
      AtLeastAt(s[1..], if k == 0 then 0 else k - 1, x);
      if k == 0 {
        assert [s[0]] + s[1..] == s;
      } else {
        assert s[1..][k - 1..] == s[k..];
      }
    }
  }

  /**
   * One page of an ascending listing, taken at rank pos: the first
   * min(n, |e| - pos) values. None means the walk is over; otherwise process
   * is called with it, and when it neither fails nor is done the walk goes on
   * with the values above the page's last, which are those after it (none
   * when the page ends at 4294967295).
   */
  lemma BatchStep(e: seq<U32>, n: nat, pos: nat)
    requires Increasing(e) && pos <= |e|
    ensures var b := Fixed.Take(e[pos..], n); var next := pos + |b|;
      next <= |e| && b == e[pos..next] &&
      (b == [] ==> Batches(e[pos..], n) == []) &&
      (b != [] ==> Batches(e[pos..], n) == [e[pos..next]] + Batches(e[next..], n)) &&
      (b != [] && b[|b| - 1] < 0xFFFF_FFFF ==> Fixed.AtLeast(e, b[|b| - 1] + 1) == e[next..]) &&
      (b != [] && b[|b| - 1] == 0xFFFF_FFFF ==> next == |e|)
  {
    var t := e[pos..];
    var b := Fixed.Take(t, n);
    var next := pos + |b|;
    assert b == e[pos..next];
    if b != [] {
      BatchesSplit(t, n);
      assert t[|b|..] == e[next..];
      assert b[|b| - 1] == e[next - 1];
      if next < |e| {
        assert e[next - 1] < e[next];
      }
      if b[|b| - 1] < 0xFFFF_FFFF {
        AboveRank(e, next);
      }
    }
  }

  /** A listing with a non-empty first page is that page followed by the pages of the rest. */
  lemma BatchesSplit(t: seq<U32>, n: nat)
    requires Fixed.Take(t, n) != []
    ensures Batches(t, n) == [Fixed.Take(t, n)] + Batches(t[|Fixed.Take(t, n)|..], n)
  {
    if |t| <= n {
      assert t[|t|..] == [];
    }
  }

  /** In an ascending listing, the values above the one at rank next - 1 are those from rank next on. */
  lemma AboveRank(e: seq<U32>, next: nat)
    requires Increasing(e) && 0 < next <= |e| && e[next - 1] < 0xFFFF_FFFF
    ensures Fixed.AtLeast(e, e[next - 1] + 1) == e[next..]
  {
    AtLeastAt(e, next, e[next - 1] + 1);
  }

  /**
   * One round of EachBatch's loop at rank pos of the listing of chunks s,
   * where buf is the page NextMany gives: BatchStep, and Deliver taken one
   * call further.
   */
  lemma DeliverStep<E>(s: seq<Slot>, bits: nat, e: seq<U32>, n: nat, pos: nat, process: seq<U32> -> Reply<E>, buf: seq<U32>)
    requires bits > 0 && |s| * bits <= Modulus32 && Tidy(s, bits) && e == Elements(s, bits)
    requires pos <= |e| && buf == Fixed.Take(e[pos..], n)
    ensures pos + |buf| <= |e|
    ensures buf == [] ==> Deliver(Batches(e[pos..], n), process) == Outcome([], None)
    ensures buf != [] && process(buf).err.Some? ==> Deliver(Batches(e[pos..], n), process) == Outcome([buf], process(buf).err)
    ensures buf != [] && process(buf).err.None? && process(buf).done ==>
              Deliver(Batches(e[pos..], n), process) == Outcome([buf], None)
    ensures buf != [] && process(buf).err.None? && !process(buf).done ==>
              Deliver(Batches(e[pos..], n), process) == After([buf], Deliver(Batches(e[pos + |buf|..], n), process))
    ensures buf != [] && buf[|buf| - 1] == 0xFFFF_FFFF ==> Deliver(Batches(e[pos + |buf|..], n), process) == Outcome([], None)
    ensures buf != [] && buf[|buf| - 1] < 0xFFFF_FFFF ==> Fixed.AtLeast(e, buf[|buf| - 1] + 1) == e[pos + |buf|..]
  {
    ElementsFacts(s, bits);
    BatchStep(e, n, pos);
    var next := pos + |buf|;
    if buf != [] {
      DeliverFirst(buf, Batches(e[next..], n), process);
      if buf[|buf| - 1] == 0xFFFF_FFFF {
        assert e[next..] == [];
      }
    }
  }

  /** Calls before calls before an outcome. */
  lemma AfterAfter<E>(calls: seq<seq<U32>>, more: seq<seq<U32>>, o: Outcome<E>)
    ensures After(calls, After(more, o)) == After(calls + more, o)
  {
    assert calls + (more + o.calls) == calls + more + o.calls;
  }

  /** Deliver's first call. */
  lemma DeliverFirst<E>(b: seq<U32>, rest: seq<seq<U32>>, process: seq<U32> -> Reply<E>)
    ensures var d := Deliver([b] + rest, process); var reply := process(b);
      (reply.err.Some? ==> d == Outcome([b], reply.err)) &&
      (reply.err.None? && reply.done ==> d == Outcome([b], None)) &&
      (reply.err.None? && !reply.done ==> d == After([b], Deliver(rest, process)))
  {
    assert ([b] + rest)[0] == b && ([b] + rest)[1..] == rest;
  }

  /** Cutting into pages loses nothing: the pages one after the other are the listing. */
  lemma {:induction false} BatchesConcat(e: seq<U32>, n: nat)
    requires n > 0
    ensures Concat(Batches(e, n)) == e
    decreases |e|
  {
    var bs := Batches(e, n);
    if e != [] && |e| > n {
      var rest := Batches(e[n..], n);
      BatchesConcat(e[n..], n);
      ConcatSplit(bs, 1);
      assert bs[..1] == [e[..n]] && bs[1..] == rest;
      ConcatOne(e[..n]);
      assert e[..n] + e[n..] == e;
    } else if e != [] {
      ConcatOne(e);
    }
  }

  /** One piece on its own. */
  lemma ConcatOne(x: seq<U32>)
    ensures Concat([x]) == x
  {
    assert [x][..0] == [];
  }

  /**
   * Deliver's calls: each but the last got a reply that neither stopped nor
   * failed; an error comes from the last call's reply; fewer calls than
   * batches means the last reply stopped the walk.
   */
  lemma {:induction false} DeliverFacts<E>(bs: seq<seq<U32>>, process: seq<U32> -> Reply<E>)
    ensures var r := Deliver(bs, process);
      (forall k :: 0 <= k < |r.calls| - 1 ==> !process(r.calls[k]).done && process(r.calls[k]).err.None?) &&
      (r.err.Some? ==> r.calls != [] && process(r.calls[|r.calls| - 1]).err == r.err) &&
      (|r.calls| < |bs| ==> r.calls != [] && (process(r.calls[|r.calls| - 1]).done || process(r.calls[|r.calls| - 1]).err.Some?))
  {
    if bs != [] {
      DeliverFacts(bs[1..], process);
      var reply := process(bs[0]);
      if reply.err.None? && !reply.done {
        var o := Deliver(bs[1..], process);
        assert Deliver(bs, process).calls == [bs[0]] + o.calls;
      }
    }
  }

  /** Replies that never stop the walk take every batch, and no error comes back. */
  lemma {:induction false} DeliverAll<E>(bs: seq<seq<U32>>, process: seq<U32> -> Reply<E>)
    requires forall k :: 0 <= k < |bs| ==> !process(bs[k]).done && process(bs[k]).err.None?
    ensures Deliver(bs, process) == Outcome(bs, None)
  {
    if bs != [] {
      DeliverAll(bs[1..], process);
      assert [bs[0]] + bs[1..] == bs;
    }
  }

  /**
   * With a process that never stops the walk, EachBatch hands over every
   * value of ToArray once, in order, in pages of batchSize, and returns no
   * error.
   */
  lemma EachBatchCovers<E>(s: seq<Slot>, bits: nat, n: nat, process: seq<U32> -> Reply<E>)
    requires n > 0 && forall b :: !process(b).done && process(b).err.None?
    ensures var r := Deliver(Batches(Elements(s, bits), n), process);
      r.err == None && Concat(r.calls) == Elements(s, bits) && forall k :: 0 <= k < |r.calls| ==> 0 < |r.calls[k]| <= n
  {
    DeliverAll(Batches(Elements(s, bits), n), process);
    BatchesConcat(Elements(s, bits), n);
  }

  /** The next offset as the loop writes it: `buf[len(buf)-1] + 1` in uint32. */
  function NextOffsetAsWritten(buf: seq<nat>): (r: nat)
    requires buf != []
    ensures buf[|buf| - 1] < 0xFFFF_FFFF ==> r == buf[|buf| - 1] + 1
    ensures buf[|buf| - 1] == 0xFFFF_FFFF ==> r == 0
  {
    Trunc32(buf[|buf| - 1] + 1)
  }

  /**
   * The first k pages of the loop as written over an ascending listing e,
   * from offset on, with a process that never stops it: fewer than k only
   * when a page comes back empty.
   */
  function AsWrittenPages(e: seq<nat>, n: nat, offset: nat, k: nat): (r: seq<seq<nat>>)
    ensures |r| <= k
    decreases k
  {
    if k == 0 then []
    else
      var buf := Fixed.Take(Fixed.AtLeast(e, offset), n);
      if buf == [] then [] else [buf] + AsWrittenPages(e, n, NextOffsetAsWritten(buf), k - 1)
  }

  /**
   * The loop as written never ends on a listing holding 4294967295: with
   * pages of one value, the page [4294967295] is followed by offset 0 and
   * comes again, for ever; the corrected walk hands it over once.
   */
  lemma {:induction false} AsWrittenNeverEnds(k: nat)
    ensures AsWrittenPages([0xFFFF_FFFF], 1, 0, k) == seq(k, _ => [0xFFFF_FFFF])
    ensures Batches([0xFFFF_FFFF], 1) == [[0xFFFF_FFFF]]
  {
    if k > 0 {
      AsWrittenNeverEnds(k - 1);
      var buf := Fixed.Take(Fixed.AtLeast([0xFFFF_FFFF], 0), 1);
      assert buf == [0xFFFF_FFFF];
      assert NextOffsetAsWritten(buf) == 0;
    }
  }
}

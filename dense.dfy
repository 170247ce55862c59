/**
 * The in-place loops that fixed.Bitmap (fixed/bitmap.go) and boring.bitmap
 * (boring/bits.go) run over their `set []uint64`. The two Go files carry
 * identical copies of these loops; each is written once here, on an array of
 * words, and both bitmap classes call it. Each method is proved against the
 * value-level functions of module Bitset.
 */
module Dense {
  import opened Words
  import opened Bitset
  import opened Format

  /**
   * `add`: `previous | 1 << (v & 63)` is stored and the returned increment
   * `int((previous ^ newb) >> (v & 63))` is 1 exactly when v was absent.
   */
  method SetValue(words: array<Word>, v: nat) returns (delta: nat)
    requires v / 64 < words.Length
    modifies words
    ensures words[..] == SetBit(old(words[..]), v)
    ensures delta == if Has(old(words[..]), v) then 0 else 1
  {
    var idx := v / 64;
    var previous := words[idx];
    var mask := ShiftLeft(One(), v % 64);
    var newb := Or(previous, mask);
    words[idx] := newb;
    AddIncrement(previous, v % 64);
    delta := Value(ShiftRight(Xor(previous, newb), v % 64));
  }

  /** `contains`: `words[v >> 6] & (1 << (v & 63)) != 0`. */
  function Test(words: array<Word>, v: nat): (r: bool)
    reads words
    requires v / 64 < words.Length
    ensures r == Has(words[..], v)
  {
    TestBit(words[v / 64], v % 64);
    And(words[v / 64], ShiftLeft(One(), v % 64)) != Zero()
  }

  /** `remove`: when v is present, clear its bit (`&^= 1 << (v & 63)`) and report the removal. */
  method ClearValue(words: array<Word>, v: nat) returns (removed: bool)
    requires v / 64 < words.Length
    modifies words
    ensures removed == Has(old(words[..]), v)
    ensures words[..] == if removed then ClearBit(old(words[..]), v) else old(words[..])
  {
    removed := Test(words, v);
    if removed {
      words[v / 64] := AndNot(words[v / 64], ShiftLeft(One(), v % 64));
    }
  }

  /**
   * `and` / `or` / `andNot`: for i < len(o.words), `words[i] = words[i] <op> o.words[i]`
   * while adding up the population counts of the new words. The operand may be
   * the receiver's own array.
   */
  method CombineWith(op: Op, words: array<Word>, o: array<Word>) returns (cnt: nat)
    requires o.Length <= words.Length
    modifies words
    ensures words[..] == Combine(op, old(words[..]), old(o[..]))
    ensures cnt == Card(words[..o.Length])
  {
    ghost var a := words[..];
    ghost var b := o[..];
    var l := o.Length;
    cnt := 0;
    var i := 0;
    while i < l
      invariant 0 <= i <= l
      invariant words[..] == Combine(op, a, b[..i])
      invariant forall j :: i <= j < l ==> o[j] == b[j]
      invariant cnt == Card(words[..i])
    {
      var v := Apply(op, words[i], o[i]);
      CombineStep(op, a, b, i);
      cnt := cnt + Popcount(v);
      words[i] := v;
      CardOfPrefix(words[..], i);
      i := i + 1;
    }
    assert b[..l] == b;
  }

  /** One more step of the combining loop updates exactly word i. */
  lemma CombineStep(op: Op, a: seq<Word>, b: seq<Word>, i: nat)
    requires |b| <= |a| && i < |b|
    ensures Combine(op, a, b[..i + 1]) == Combine(op, a, b[..i])[i := Apply(op, a[i], b[i])]
  {
  }

  /** `computeCardinality`: the sum of the population counts of all words. */
  method CountBits(words: array<Word>) returns (cnt: nat)
    ensures cnt == Card(words[..])
  {
    cnt := 0;
    var i := 0;
    while i < words.Length
      invariant 0 <= i <= words.Length
      invariant cnt == Card(words[..i])
    {
      CardOfPrefix(words[..], i);
      cnt := cnt + Popcount(words[i]);
      i := i + 1;
    }
    assert words[..words.Length] == words[..];
  }

  /** `equals`: compare the first len(o.set) words. */
  method EqualPrefix(words: array<Word>, o: array<Word>) returns (eq: bool)
    requires o.Length <= words.Length
    ensures eq == (words[..o.Length] == o[..])
  {
    var l := o.Length;
    var i := 0;
    while i < l
      invariant 0 <= i <= l
      invariant words[..i] == o[..i]
    {
      if words[i] != o[i] {
        assert words[..o.Length][i] != o[..][i];
        return false;
      }
      i := i + 1;
    }
    assert o[..l] == o[..];
    return true;
  }

  /**
   * `flip`: xor the low mask into the start word, complement the words from
   * the start word up to the end word, and xor the end mask into the end word.
   */
  method FlipRange(words: array<Word>, start: nat, stop: nat)
    requires start / 64 < words.Length && stop / 64 < words.Length
    modifies words
    ensures words[..] == Flip(old(words[..]), start, stop)
  {
    ghost var a := words[..];
    var startWord := start / 64;
    var endWord := stop / 64;
    words[startWord] := Xor(words[startWord], Not(ShiftLeft(AllOnes(), start % 64)));
    ghost var b := words[..];
    assert b == a[startWord := Xor(a[startWord], LowMask(start))];
    ComplementRun(words, startWord, endWord);
    ghost var c := words[..];
    words[endWord] := Xor(words[endWord], ShiftRight(AllOnes(), (64 - stop % 64) % 64));
    assert words[..] == c[endWord := Xor(c[endWord], EndMask(stop))];
    FlipPieces(a, b, c, words[..], start, stop);
  }

  /** The three steps of flip, word by word, compose to Flip. */
  lemma FlipPieces(a: seq<Word>, b: seq<Word>, c: seq<Word>, d: seq<Word>, start: nat, stop: nat)
    requires start / 64 < |a| && stop / 64 < |a| == |c|
    requires b == a[start / 64 := Xor(a[start / 64], LowMask(start))]
    requires forall j :: 0 <= j < |c| ==> c[j] == if start / 64 <= j < stop / 64 then Not(b[j]) else b[j]
    requires d == c[stop / 64 := Xor(c[stop / 64], EndMask(stop))]
    ensures d == Flip(a, start, stop)
  {
    forall j | 0 <= j < |d|
      ensures d[j] == Flip(a, start, stop)[j]
    {
      FlipSteps(a[j], j, start, stop);
    }
  }

  /** The loop of flip: `set[i] = ^set[i]` for lo <= i < hi. */
  method ComplementRun(words: array<Word>, lo: nat, hi: nat)
    requires hi <= words.Length
    modifies words
    ensures forall j :: 0 <= j < words.Length ==>
              words[j] == if lo <= j < hi then Not(old(words[j])) else old(words[j])
  {
    var i := lo;
    while i < hi
      invariant lo <= i && (i <= hi || i == lo)
      invariant forall j :: 0 <= j < words.Length ==>
                  words[j] == if lo <= j < i then Not(old(words[j])) else old(words[j])
    {
      words[i] := Not(words[i]);
      i := i + 1;
    }
  }

  /** The three steps of flip, applied to word j, xor it with FlipMask. */
  lemma FlipSteps(x: Word, j: nat, start: nat, stop: nat)
    ensures Xor(x, FlipMask(j, start, stop)) ==
      var y := if j == start / 64 then Xor(x, LowMask(start)) else x;
      var z := if start / 64 <= j < stop / 64 then Not(y) else y;
      if j == stop / 64 then Xor(z, EndMask(stop)) else z
  {
  }


  /** `buffer` after its first min(len(buffer), |vals|) slots are overwritten with vals. */
  function Fill<T>(buffer: seq<T>, vals: seq<T>): (r: seq<T>)
    ensures |r| == |buffer|
  {
    var k := if |vals| < |buffer| then |vals| else |buffer|;
    vals[..k] + buffer[k..]
  }

  /** Every value converted (the `uint16(...)` or `uint32(...)` of the Go code). */
  function Convert<T>(conv: nat -> T, s: seq<nat>): (r: seq<T>)
    ensures |r| == |s|
    ensures forall i :: 0 <= i < |s| ==> r[i] == conv(s[i])
  {
    seq(|s|, i requires 0 <= i < |s| => conv(s[i]))
  }

  lemma OffsetCons(x: nat, s: seq<nat>, base: nat)
    ensures Offset([x] + s, base) == [base + x] + Offset(s, base)
  {
    assert ([x] + s)[1..] == s;
  }

  /** Values as many as the slots replace the whole buffer. */
  lemma FillAll<T>(b: seq<T>, vals: seq<T>)
    requires |vals| == |b|
    ensures Fill(b, vals) == vals
  {
    assert vals[..|vals|] == vals;
  }

  /** Values below 2^16 are left alone by the 16-bit truncation. */
  lemma Trunc16Identity(m: seq<nat>)
    requires forall i :: 0 <= i < |m| ==> m[i] < 0x1_0000
    ensures Convert(Trunc16, m) == m
  {
    var c := Convert(Trunc16, m);
    forall i | 0 <= i < |m| ensures c[i] == m[i] {
      assert c[i] == Trunc16(m[i]);
    }
  }

  /** Values below 2^32 are left alone by the 32-bit truncation. */
  lemma Trunc32Identity(m: seq<nat>)
    requires forall i :: 0 <= i < |m| ==> m[i] < 0x1_0000_0000
    ensures Convert(Trunc32, m) == m
  {
    var c := Convert(Trunc32, m);
    forall i | 0 <= i < |m| ensures c[i] == m[i] {
      assert c[i] == Trunc32(m[i]);
    }
  }

  /** Slot k of a filled buffer. */
  lemma FillAt<T>(b: seq<T>, vals: seq<T>, k: nat)
    requires k < |b|
    ensures Fill(b, vals)[k] == if k < |vals| then vals[k] else b[k]
  {
  }

  /** Taking the lowest set bit of the word moves its value from the word to the output. */
  lemma ExtractLowest(word: Word, base: nat, rest: seq<nat>, r: nat, next: Word)
    requires word != Zero()
    requires r == TrailingZeros(word) && next == Xor(word, And(word, Inc(Not(word))))
    requires rest == Offset(Positions(word, 0), base)
    ensures |rest| > 0 && rest[0] == r + base && rest[1..] == Offset(Positions(next, 0), base)
    ensures Popcount(next) < Popcount(word)
  {
    ClearLowest(word);
    OffsetCons(r, Positions(next, 0), base);
  }

  /** One step of DrainWord: the lowest position of word is the next value, and the rest follow it. */
  lemma DrainStep(word: Word, base: nat, all: seq<nat>, upTo: seq<nat>, size: nat, r: nat, next: Word)
    requires word != Zero()
    requires r == TrailingZeros(word) && next == Xor(word, And(word, Inc(Not(word))))
    requires size <= |upTo| <= |all| && all[..|upTo|] == upTo
    requires upTo[size..] == Offset(Positions(word, 0), base)
    ensures size < |upTo| && all[size] == r + base
    ensures upTo[size + 1..] == Offset(Positions(next, 0), base)
    ensures Popcount(next) < Popcount(word)
  {
    ExtractLowest(word, base, upTo[size..], r, next);
    assert all[size] == all[..|upTo|][size];
    assert upTo[size + 1..] == upTo[size..][1..];
  }

  /**
   * `r := TrailingZeros64(word)` and `word ^ (word & (^word + 1))`: the value
   * `r + base` of the lowest set bit, and the word with that bit cleared.
   */
  method TakeLowest(word: Word, base: nat, ghost all: seq<nat>, ghost upTo: seq<nat>, ghost size: nat)
    returns (v: nat, next: Word)
    requires word != Zero()
    requires size <= |upTo| <= |all| && all[..|upTo|] == upTo
    requires upTo[size..] == Offset(Positions(word, 0), base)
    ensures size < |upTo| && all[size] == v
    ensures upTo[size + 1..] == Offset(Positions(next, 0), base)
    ensures Popcount(next) < Popcount(word)
  {
    var r := TrailingZeros(word);
    var t := And(word, Inc(Not(word)));
    DrainStep(word, base, all, upTo, size, r, Xor(word, t));
    v := r + base;
    next := Xor(word, t);
  }

  /** `buffer[size] = conv(v); size++`, where conv(v) is the next value wanted. */
  method Store<T>(buffer: array<T>, size: nat, conv: nat -> T, v: nat, ghost want: seq<T>) returns (next: nat)
    requires size < buffer.Length && size < |want| && want[size] == conv(v)
    requires forall k :: 0 <= k < size ==> buffer[k] == want[k]
    modifies buffer
    ensures next == size + 1
    ensures forall k :: 0 <= k < next ==> buffer[k] == want[k]
    ensures forall k :: next <= k < buffer.Length ==> buffer[k] == old(buffer[k])
  {
    buffer[size] := conv(v);
    next := size + 1;
  }

  /** One round of the inner loop: store the lowest set bit of word, converted, and clear it. */
  method DrainOne<T>(word: Word, base: nat, buffer: array<T>, size: nat, conv: nat -> T,
                     ghost all: seq<nat>, ghost upTo: seq<nat>, ghost want: seq<T>)
    returns (next: Word, size': nat)
    requires word != Zero() && size < buffer.Length
    requires size <= |upTo| <= |all| && all[..|upTo|] == upTo && want == Convert(conv, all)
    requires upTo[size..] == Offset(Positions(word, 0), base)
    requires forall k :: 0 <= k < size ==> buffer[k] == want[k]
    modifies buffer
    ensures size' == size + 1 <= |upTo| && upTo[size'..] == Offset(Positions(next, 0), base)
    ensures Popcount(next) < Popcount(word)
    ensures forall k :: 0 <= k < size' ==> buffer[k] == want[k]
    ensures forall k :: size' <= k < buffer.Length ==> buffer[k] == old(buffer[k])
  {
    var v;
    v, next := TakeLowest(word, base, all, upTo, size);
    size' := Store(buffer, size, conv, v, want);
  }

  /**
   * The inner loop of nextSetMany: extract the set bits of one word, lowest
   * first, and store them converted, offset by base, from position size0 on;
   * stop as soon as the buffer is full. upTo lists the values of the words up
   * to and including this one, all the values of every word, want all of them
   * converted.
   */
  method DrainWord<T>(word0: Word, base: nat, buffer: array<T>, size0: nat, conv: nat -> T,
                      ghost all: seq<nat>, ghost upTo: seq<nat>, ghost want: seq<T>)
    returns (size: nat, full: bool)
    requires size0 < buffer.Length
    requires size0 <= |upTo| <= |all| && all[..|upTo|] == upTo && want == Convert(conv, all)
    requires upTo[size0..] == Offset(Positions(word0, 0), base)
    requires forall k :: 0 <= k < size0 ==> buffer[k] == want[k]
    modifies buffer
    ensures full ==> size == buffer.Length
    ensures !full ==> size == |upTo| < buffer.Length
    ensures size <= |all|
    ensures forall k :: 0 <= k < size ==> buffer[k] == want[k]
    ensures forall k :: size <= k < buffer.Length ==> buffer[k] == old(buffer[k])
  {
    var word := word0;
    size := size0;
    while word != Zero()
      invariant size <= |upTo| && upTo[size..] == Offset(Positions(word, 0), base)
      invariant size < buffer.Length
      invariant forall k :: 0 <= k < size ==> buffer[k] == want[k]
      invariant forall k :: size <= k < buffer.Length ==> buffer[k] == old(buffer[k])
      decreases Popcount(word)
    {
      var next;
      next, size := DrainOne(word, base, buffer, size, conv, all, upTo, want);
      if size == buffer.Length {
        return size, true;
      }
      word := next;
    }
    PopcountZero(word);
    assert Positions(word, 0) == [];
    return size, false;
  }

  /**
   * `nextSetMany16` / `nextSetMany32`: walk the words in order and drain each
   * one into the buffer until it is full. The buffer ends up holding the
   * smallest set positions in ascending order, converted by conv.
   */
  method NextSetMany<T>(words: array<Word>, buffer: array<T>, conv: nat -> T)
    requires words as object != buffer as object
    modifies buffer
    ensures buffer[..] == Fill(old(buffer[..]), Convert(conv, Members(words[..])))
  {
    ghost var b := buffer[..];
    ghost var ws := words[..];
    ghost var all := Members(ws);
    ghost var want := Convert(conv, all);
    if words.Length == 0 || buffer.Length == 0 {
      return;
    }
    var size := 0;
    var idx := 0;
    while idx < words.Length
      invariant 0 <= idx <= words.Length
      invariant words[..] == ws
      invariant size == |Members(ws[..idx])| < buffer.Length
      invariant size <= |all|
      invariant forall k :: 0 <= k < size ==> buffer[k] == want[k]
      invariant forall k :: size <= k < buffer.Length ==> buffer[k] == b[k]
    {
      MembersOfPrefix(ws, idx);
      MembersPrefix(ws, idx + 1);
      var full;
      size, full := DrainWord(words[idx], 64 * idx, buffer, size, conv, all, Members(ws[..idx + 1]), want);
      if full {
        forall k | 0 <= k < buffer.Length
          ensures buffer[..][k] == Fill(b, want)[k]
        {
          FillAt(b, want, k);
        }
        return;
      }
      idx := idx + 1;
    }
    assert ws[..words.Length] == ws;
    forall k | 0 <= k < buffer.Length
      ensures buffer[..][k] == Fill(b, want)[k]
    {
      FillAt(b, want, k);
    }
  }
}

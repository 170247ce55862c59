/**
 * boring.bitmap (boring/bits.go): the bitset half of the hybrid bitmap, a
 * `set []uint64` with a cached cardinality. The Go type views the words
 * inside the hybrid bitmap's byte buffer; here they are their own array. The
 * loops shared with fixed.Bitmap are the methods of module Dense. Operations
 * that take a boring.array receive its content, the sorted uint16 values.
 */
module Bits {
  import opened Words
  import opened Bitset
  import opened Format
  import Dense

  class Bitmap {
    /** `set`. */
    const words: array<Word>
    /** The cached count of present values. */
    var cardinality: int

    /** The cached count is the population count of the words. */
    ghost predicate Valid()
      reads this, words
    {
      cardinality == Card(words[..])
    }

    /** A bitset of n zero words and count 0. */
    constructor (n: nat)
      ensures fresh(words) && words[..] == Zeros(n) && cardinality == 0
      ensures Valid()
    {
      words := new Word[n](_ => Zero());
      cardinality := 0;
      new;
      assert words[..] == Zeros(n);
      ZerosEmpty(n);
    }

    /** A bitset over the given words with the given cached count, as a decoded header gives it. */
    constructor Wrap(body: seq<Word>, cardinality: int)
      ensures fresh(words) && words[..] == body && this.cardinality == cardinality
    {
      words := new Word[|body|](i requires 0 <= i < |body| => body[i]);
      this.cardinality := cardinality;
    }

    /** `contains(v)`: the bit of v; a word index past the set is an index panic in Go. */
    function Contains(v: U32): (r: bool)
      reads this, words
      requires v / 64 < words.Length
      ensures r == Has(words[..], v)
      ensures r <==> v in Members(words[..])
    {
      MembersHas(words[..], v);
      Dense.Test(words, v)
    }

    /** `bitValue(v)`: 1 when v is present, else 0. */
    function BitValue(v: U32): (r: nat)
      reads this, words
      requires v / 64 < words.Length
      ensures r <= 1
      ensures r == 1 <==> Has(words[..], v)
    {
      if Dense.Test(words, v) then 1 else 0
    }

    /** `add(v)`: set bit v; the count goes up by one exactly when v was absent. */
    method Add(v: U32)
      requires v / 64 < words.Length
      modifies this, words
      ensures words[..] == SetBit(old(words[..]), v)
      ensures forall u: nat :: Has(words[..], u) == (u == v || Has(old(words[..]), u))
      ensures cardinality == old(cardinality) + (if Has(old(words[..]), v) then 0 else 1)
      ensures old(Valid()) ==> Valid()
    {
      var delta := Dense.SetValue(words, v);
      cardinality := cardinality + delta;
      SetBitEffect(old(words[..]), v);
    }

    /** `remove(v)`: when v is present, count one fewer and clear its bit. */
    method Remove(v: U32)
      requires v / 64 < words.Length
      modifies this, words
      ensures words[..] == if Has(old(words[..]), v) then ClearBit(old(words[..]), v) else old(words[..])
      ensures forall u: nat :: Has(words[..], u) == (u != v && Has(old(words[..]), u))
      ensures cardinality == old(cardinality) - (if Has(old(words[..]), v) then 1 else 0)
      ensures old(Valid()) ==> Valid()
    {
      var removed := Dense.ClearValue(words, v);
      if removed {
        cardinality := cardinality - 1;
      }
      ClearBitEffect(old(words[..]), v);
    }

    /** `and(o)`: intersect word by word over o's words and recount them. */
    method And(o: Bitmap)
      requires o.words.Length <= words.Length
      modifies this, words
      ensures words[..] == Combine(Intersect, old(words[..]), old(o.words[..]))
      ensures cardinality == Card(words[..o.words.Length])
      ensures o.words.Length == words.Length ==> Valid()
    {
      cardinality := Dense.CombineWith(Intersect, words, o.words);
      assert words[..words.Length] == words[..];
    }

    /** `or(o)`: unite word by word over o's words and recount them. */
    method Or(o: Bitmap)
      requires o.words.Length <= words.Length
      modifies this, words
      ensures words[..] == Combine(Union, old(words[..]), old(o.words[..]))
      ensures cardinality == Card(words[..o.words.Length])
      ensures o.words.Length == words.Length ==> Valid()
    {
      cardinality := Dense.CombineWith(Union, words, o.words);
      assert words[..words.Length] == words[..];
    }

    /** `andNot(o)`: subtract word by word over o's words and recount them. */
    method AndNot(o: Bitmap)
      requires o.words.Length <= words.Length
      modifies this, words
      ensures words[..] == Combine(Difference, old(words[..]), old(o.words[..]))
      ensures cardinality == Card(words[..o.words.Length])
      ensures o.words.Length == words.Length ==> Valid()
    {
      cardinality := Dense.CombineWith(Difference, words, o.words);
      assert words[..words.Length] == words[..];
    }

    /** `andNotArray(o)`: remove the array's values one by one. */
    method AndNotArray(content: seq<U16>)
      requires forall i :: 0 <= i < |content| ==> content[i] / 64 < words.Length
      modifies this, words
      ensures forall u: nat :: Has(words[..], u) == (Has(old(words[..]), u) && u !in content)
      ensures old(Valid()) ==> Valid()
    {
      ghost var a := words[..];
      ghost var valid := Valid();
      var i := 0;
      while i < |content|
        invariant 0 <= i <= |content|
        invariant forall u: nat :: Has(words[..], u) == (Has(a, u) && u !in content[..i])
        invariant valid ==> Valid()
      {
        assert content[..i + 1] == content[..i] + [content[i]];
        Remove(content[i]);
        i := i + 1;
      }
      assert content[..i] == content;
    }

    /**
     * `flip(start, stop)`: the three xor steps over [start, stop), then a
     * recount. Either word index past the set is an index panic in Go.
     */
    method Flip(start: nat, stop: nat)
      requires start / 64 < words.Length && stop / 64 < words.Length
      modifies this, words
      ensures words[..] == Bitset.Flip(old(words[..]), start, stop)
      ensures Valid()
    {
      Dense.FlipRange(words, start, stop);
      cardinality := Dense.CountBits(words);
    }

    /** `computeCardinality()`. */
    method ComputeCardinality() returns (cnt: nat)
      ensures cnt == Card(words[..]) == |Members(words[..])|
      ensures Valid() ==> cnt == cardinality
    {
      MembersOrder(words[..]);
      cnt := Dense.CountBits(words);
    }

    /** `equals(o)`: compare the first len(o.set) words. */
    method Equals(o: Bitmap) returns (eq: bool)
      requires o.words.Length <= words.Length
      ensures eq == (words[..o.words.Length] == o.words[..])
      ensures o.words.Length == words.Length ==> (eq <==> forall v: nat :: Has(words[..], v) == Has(o.words[..], v))
    {
      eq := Dense.EqualPrefix(words, o.words);
      if o.words.Length == words.Length {
        assert words[..o.words.Length] == words[..];
        SameBitmap(words[..], o.words[..]);
      }
    }

    /** `equalsArray(o)`: every value of the array is present. */
    method EqualsArray(content: seq<U16>) returns (eq: bool)
      requires forall i :: 0 <= i < |content| ==> content[i] / 64 < words.Length
      ensures eq <==> forall i :: 0 <= i < |content| ==> Has(words[..], content[i])
    {
      var i := 0;
      while i < |content|
        invariant 0 <= i <= |content|
        invariant forall j :: 0 <= j < i ==> Has(words[..], content[j])
      {
        if !Contains(content[i]) {
          return false;
        }
        i := i + 1;
      }
      return true;
    }

    /** `nextSetMany16(buffer)`: the smallest present values, truncated to 16 bits, ascending, into the buffer. */
    method NextSetMany16(buffer: array<U16>)
      modifies buffer
      ensures buffer[..] == Dense.Fill(old(buffer[..]), Dense.Convert(Trunc16, Members(words[..])))
    {
      Dense.NextSetMany(words, buffer, Trunc16);
    }

    /** `nextSetMany32(buffer)`: the smallest present values, truncated to 32 bits, ascending, into the buffer. */
    method NextSetMany32(buffer: array<U32>)
      modifies buffer
      ensures buffer[..] == Dense.Fill(old(buffer[..]), Dense.Convert(Trunc32, Members(words[..])))
    {
      Dense.NextSetMany(words, buffer, Trunc32);
    }
  }
}

/**
 * boring.Bitmap (boring/bitmap.go): a hybrid bitmap of fixed capacity nbits
 * that stores its values either as an ascending array of uint16 (the array
 * encoding) or as a bitset (the bitmap encoding), and switches between the
 * two as the count crosses the array's threshold sz. The Go type keeps both
 * halves as views of one byte buffer; here each half has its own store and
 * Values() is the value list of whichever half the encoding selects.
 */
module Boring {
  import opened Words
  import opened Bitset
  import opened Format
  import Sorted
  import Dense
  import Bits
  import Arrays

  /** `array.sz`, `bodySize(nbits) / (16 * 2)`: the count at which the array encoding gives way. */
  function Threshold(nbits: nat): nat
  {
    BodySize(nbits) / 32
  }

  /** `cap(array.content)`: the uint16 slots of the body, `bodySize(nbits) / 2`. */
  function Capacity(nbits: nat): nat
  {
    BodySize(nbits) / 2
  }

  /** Two full arrays fit the body together, so the merge of `or` never overflows it. */
  lemma ThresholdFits(nbits: nat)
    ensures 2 * Threshold(nbits) <= Capacity(nbits)
  {
    var b := BodySize(nbits);
    assert b == 32 * (b / 32) + b % 32;
    assert b == 2 * (b / 2) + b % 2;
  }

  /**
   * The capacities this model covers: every bit position of the bitset is a
   * uint16 and the count fits the header's 16 bits, so the two encodings
   * hold the same values. (Beyond this bound the array encoding truncates
   * values the bitset keeps, and a full bitset's count wraps to 0 in the
   * header.)
   */
  predicate Small(nbits: nat)
  {
    64 * NumWords(nbits) < 0x1_0000
  }

  /** Every value lies in one of the first n words. */
  predicate InRange(content: seq<U16>, n: nat)
  {
    forall i :: 0 <= i < |content| ==> content[i] / 64 < n
  }

  /** InRange read value by value. */
  lemma InRangeMembers(a: seq<U16>, n: nat)
    requires InRange(a, n)
    ensures forall y :: y in a ==> y / 64 < n
  {
    forall y | y in a
      ensures y / 64 < n
    {
      var j :| 0 <= j < |a| && a[j] == y;
    }
  }

  /** The values of n words, listed as uint16, make an ascending array content within n words. */
  lemma BitsToArray(ws: seq<Word>, content: seq<U16>, n: nat)
    requires content == Members(ws) && |ws| == n
    ensures Increasing(content) && InRange(content, n) && |content| == Card(ws)
  {
    MembersProperties(ws);
    forall i | 0 <= i < |content|
      ensures content[i] / 64 < n
    {
      assert content[i] < 64 * n;
    }
  }

  /** InRange from a bound on every value. */
  lemma InRangeFrom(a: seq<U16>, n: nat)
    requires forall y :: y in a ==> y / 64 < n
    ensures InRange(a, n)
  {
    forall i | 0 <= i < |a|
      ensures a[i] / 64 < n
    {
      assert a[i] in a;
    }
  }

  /** Combining two word sequences of one length combines their value lists. */
  lemma CombineMembers(op: Op, a: seq<Word>, o: seq<Word>)
    requires |a| == |o|
    ensures forall u: nat :: u in Members(Combine(op, a, o)) <==> Combined(op, u in Members(a), u in Members(o))
  {
    MembersProperties(a);
    MembersProperties(o);
    MembersProperties(Combine(op, a, o));
    forall u: nat
      ensures u in Members(Combine(op, a, o)) <==> Combined(op, u in Members(a), u in Members(o))
    {
      CombineHas(op, a, o, u);
    }
  }

  /** FlipInt's start after clamping: a negative start becomes 0. */
  function ClampStart(start: int): nat
  {
    if start < 0 then 0 else start
  }

  /** FlipInt's stop after clamping: a stop at or past nbits becomes nbits - 1. */
  function ClampStop(stop: int, nbits: nat): int
  {
    if stop >= nbits then nbits - 1 else stop
  }

  /**
   * Whether a flip whose clamped start lies past its clamped stop (start at
   * or beyond nbits) toggles u: the values below start in start's word, and
   * those of stop's word below FlipEnd(stop), each once.
   */
  predicate ReversedFlip(start: nat, stop: int, u: nat)
  {
    (64 * (start / 64) <= u < start) != (0 <= stop && 64 * (stop / 64) <= u < FlipEnd(stop))
  }

  /** The values FlipInt's clamped flip toggles, for either order of start and stop. */
  lemma FlipToggles(ws: seq<Word>, start: nat, stop: nat)
    ensures start <= stop ==>
      forall u: nat :: u < 64 * |ws| ==> Has(Flip(ws, start, stop), u) == (Has(ws, u) != (start <= u < FlipEnd(stop)))
    ensures stop < start ==>
      forall u: nat :: u < 64 * |ws| ==> Has(Flip(ws, start, stop), u) == (Has(ws, u) != ReversedFlip(start, stop, u))
  {
    forall u: nat | u < 64 * |ws|
      ensures start <= stop ==> Has(Flip(ws, start, stop), u) == (Has(ws, u) != (start <= u < FlipEnd(stop)))
      ensures stop < start ==> Has(Flip(ws, start, stop), u) == (Has(ws, u) != ReversedFlip(start, stop, u))
    {
      if start <= stop {
        FlipHas(ws, start, stop, u);
      } else {
        FlipHasReversed(ws, start, stop, u);
      }
    }
  }

  class Bitmap {
    const nbits: nat
    /** `encoding`: EncodingArray or EncodingBitmap. */
    var encoding: Byte
    /** `array`: the values in the array encoding. */
    const arr: Arrays.Array
    /** `bitmap`: the words in the bitmap encoding. */
    const bits: Bits.Bitmap

    ghost function Repr(): set<object>
    {
      {this, arr, bits, bits.words}
    }

    /** The other bitmap shares no store with this one. */
    ghost predicate Separate(o: Bitmap)
    {
      this != o && arr != o.arr && bits != o.bits && bits.words != o.bits.words
    }

    /**
     * The shape NewBitmap gives and every operation keeps, except for the
     * array's length bound, which `convertMaybe` restores.
     */
    ghost predicate Sound()
      reads this, arr, bits, bits.words
    {
      Small(nbits) && bits.words.Length == NumWords(nbits) &&
      arr.sz == Threshold(nbits) && arr.capacity == Capacity(nbits) &&
      (encoding == EncodingArray || encoding == EncodingBitmap) &&
      (encoding == EncodingArray ==> arr.Valid() && InRange(arr.content, NumWords(nbits))) &&
      (encoding == EncodingBitmap ==> bits.Valid())
    }

    /** Sound, and an array-encoded bitmap holds at most sz values. */
    ghost predicate Valid()
      reads this, arr, bits, bits.words
    {
      Sound() && (encoding == EncodingArray ==> |arr.content| <= arr.sz)
    }

    /** The values present, ascending, as the current encoding holds them. */
    ghost function Values(): seq<nat>
      reads this, arr, bits, bits.words
    {
      if encoding == EncodingArray then arr.content else Members(bits.words[..])
    }


    /** The value Add, Remove and Contains act on: `uint16(v)` in the array encoding. */
    function Key(v: U32): nat
      reads this
    {
      if encoding == EncodingArray then Trunc16(v) else v
    }

    lemma ValuesFacts()
      requires Sound()
      ensures Increasing(Values())
      ensures forall i :: 0 <= i < |Values()| ==> Values()[i] < 64 * bits.words.Length
      ensures encoding == EncodingBitmap ==> forall u: nat :: u in Values() <==> Has(bits.words[..], u)
      ensures encoding == EncodingBitmap ==> bits.cardinality == |Values()|
    {
      if encoding == EncodingArray {
        forall i | 0 <= i < |arr.content|
          ensures arr.content[i] < 64 * bits.words.Length
        {
          assert arr.content[i] / 64 < bits.words.Length;
        }
      } else {
        MembersProperties(bits.words[..]);
      }
    }

    /** `NewBitmap(nbits)`: an empty array-encoded bitmap. */
    constructor (nbits: nat)
      ensures this.nbits == nbits && encoding == EncodingArray && Values() == []
      ensures fresh(arr) && fresh(bits) && fresh(bits.words)
      ensures Small(nbits) ==> Valid()
    {
      this.nbits := nbits;
      encoding := EncodingArray;
      arr := new Arrays.Array([], Threshold(nbits), Capacity(nbits));
      bits := new Bits.Bitmap(NumWords(nbits));
    }

    /** A bitmap over the given stores, as NewBitmapFromBuf builds it. */
    constructor Make(nbits: nat, encoding: Byte, content: seq<U16>, body: seq<Word>, cardinality: int)
      ensures this.nbits == nbits && this.encoding == encoding
      ensures arr.content == content && arr.sz == Threshold(nbits) && arr.capacity == Capacity(nbits)
      ensures bits.words[..] == body && bits.cardinality == cardinality
      ensures fresh(arr) && fresh(bits) && fresh(bits.words)
    {
      this.nbits := nbits;
      this.encoding := encoding;
      arr := new Arrays.Array(content, Threshold(nbits), Capacity(nbits));
      bits := new Bits.Bitmap.Wrap(body, cardinality);
    }

    /**
     * `GetCardinality()`: the array's length, or the bitset's cached count as
     * a uint64. For a valid bitmap it is the number of values.
     */
    function GetCardinality(): (r: nat)
      reads this, arr, bits, bits.words
      ensures Sound() ==> r == |Values()|
    {
      if encoding == EncodingArray then |arr.content|
      else
        MembersOrder(bits.words[..]);
        CardBound(bits.words[..]);
        bits.cardinality % 0x1_0000_0000_0000_0000
    }

    /** The encoding `convertMaybe` settles on for the current count: the array below sz, the bitset from sz on. */
    ghost predicate Settled()
      reads this, arr, bits, bits.words
    {
      encoding == (if GetCardinality() < arr.sz then EncodingArray else EncodingBitmap)
    }

    /** `IsEmpty()`: the count is zero. */
    function IsEmpty(): (r: bool)
      reads this, arr, bits, bits.words
      ensures Sound() ==> (r <==> Values() == [])
    {
      GetCardinality() == 0
    }

    /**
     * `convertEncoding(target)`: nothing when already there. To the array:
     * nextSetMany16 lists the values into the array. To the bitmap: the
     * values are saved, the words cleared, and the values added one by one.
     * The values stay the same either way. Going to the array needs the
     * count to fit sz (convertMaybe only converts below it).
     */
    method ConvertEncoding(target: Byte)
      requires Sound() && (target == EncodingArray || target == EncodingBitmap)
      requires target == EncodingArray && encoding == EncodingBitmap ==> bits.cardinality <= arr.sz
      modifies this, arr, bits, bits.words
      ensures encoding == target && Values() == old(Values())
      ensures old(encoding) == target ==> Valid() == old(Valid())
      ensures old(encoding) != target ==> Valid()
    {
      if encoding == target {
        return;
      }
      if target == EncodingArray {
        IntoArray();
      } else {
        IntoBitmap();
      }
    }

    /** convertEncoding to the array: the bitset's values, truncated to uint16, become the content. */
    method IntoArray()
      requires Sound() && encoding == EncodingBitmap && bits.cardinality <= arr.sz
      modifies this, arr
      ensures encoding == EncodingArray && Valid() && Values() == old(Values())
    {
      ghost var ws := bits.words[..];
      MembersProperties(ws);
      var data := new U16[GetCardinality()](_ => 0);
      ghost var blank := data[..];
      bits.NextSetMany16(data);
      Dense.Trunc16Identity(Members(ws));
      Dense.FillAll(blank, Members(ws));
      BitsToArray(ws, data[..], NumWords(nbits));
      arr.content := data[..];
      encoding := EncodingArray;
    }

    /** convertEncoding to the bitset: cleared words, count 0, then each value of the array added. */
    method IntoBitmap()
      requires Sound() && encoding == EncodingArray
      modifies this, bits, bits.words
      ensures encoding == EncodingBitmap && Valid() && Values() == old(Values())
    {
      var data := new U16[|arr.content|](_ => 0);
      forall i | 0 <= i < data.Length {
        data[i] := arr.content[i];
      }
      assert data[..] == arr.content;
      ClearWords(bits.words);
      bits.cardinality := 0;
      Load(bits, data[..]);
      encoding := EncodingBitmap;
    }

    /**
     * `convertMaybe()`: switch to the bitset when the array reaches sz values,
     * and back to the array when the bitset holds fewer than sz. Afterwards
     * the encoding is the one the count calls for.
     */
    method ConvertMaybe()
      requires Sound()
      modifies this, arr, bits, bits.words
      ensures Valid() && Values() == old(Values())
      ensures encoding == (if |Values()| < arr.sz then EncodingArray else EncodingBitmap)
    {
      ValuesFacts();
      if encoding == EncodingArray {
        if |arr.content| >= arr.sz {
          ConvertEncoding(EncodingBitmap);
          ValuesFacts();
        }
      } else if encoding == EncodingBitmap {
        if bits.cardinality < arr.sz {
          ConvertEncoding(EncodingArray);
        }
      }
    }

    /**
     * `Add(v)`: in the array encoding add `uint16(v)` to the array and
     * convert once it reaches sz values; otherwise set bit v. A bit past the
     * words is an index panic in Go.
     */
    method Add(v: U32)
      requires Valid() && Key(v) / 64 < bits.words.Length
      modifies Repr()
      ensures Valid()
      ensures forall u :: u in Values() <==> u in old(Values()) || u == old(Key(v))
      ensures old(encoding) == EncodingBitmap ==> encoding == EncodingBitmap
    {
      if encoding == EncodingArray {
        InRangeMembers(arr.content, NumWords(nbits));
        arr.Add(v);
        InRangeFrom(arr.content, NumWords(nbits));
        ConvertMaybe();
      } else {
        ghost var a := bits.words[..];
        bits.Add(v);
        MembersProperties(a);
        MembersProperties(bits.words[..]);
      }
    }

    /**
     * `Remove(v)`: in the array encoding remove `uint16(v)` from the array;
     * otherwise clear bit v and convert once fewer than sz values remain.
     */
    method Remove(v: U32)
      requires Valid()
      requires encoding == EncodingBitmap ==> v / 64 < bits.words.Length
      modifies Repr()
      ensures Valid()
      ensures forall u :: u in Values() <==> u in old(Values()) && u != old(Key(v))
    {
      if encoding == EncodingArray {
        InRangeMembers(arr.content, NumWords(nbits));
        arr.Remove(v);
        InRangeFrom(arr.content, NumWords(nbits));
      } else {
        ghost var a := bits.words[..];
        bits.Remove(v);
        MembersProperties(a);
        MembersProperties(bits.words[..]);
        ConvertMaybe();
      }
    }

    /** `Contains(v)`: ask whichever half the encoding selects. */
    method Contains(v: U32) returns (r: bool)
      requires Valid()
      requires encoding == EncodingBitmap ==> v / 64 < bits.words.Length
      ensures r <==> Key(v) in Values()
    {
      if encoding == EncodingArray {
        r := arr.Contains(v);
      } else {
        r := bits.Contains(v);
      }
    }

    /**
     * `And(o)`: nothing when o is nil, this bitmap, or of another capacity.
     * Otherwise intersect case by case; an array-encoded o is converted to
     * the bitset for the bitset case and back afterwards, so its values stay.
     */
    method And(o: Bitmap?)
      requires Valid()
      requires o != null && o != this ==> o.Valid() && Separate(o)
      modifies Repr(), if o == null then {} else o.Repr()
      ensures Valid()
      ensures o != null && o != this ==> o.Valid() && o.Values() == old(o.Values())
      ensures o == null || o == this || o.nbits != nbits ==> Values() == old(Values())
      ensures o != null && o != this && o.nbits == nbits ==>
        forall u :: u in Values() <==> u in old(Values()) && u in old(o.Values())
      ensures o != null && o != this && o.nbits == nbits ==> Settled()
      ensures o == null || o == this || o.nbits != nbits ==> encoding == old(encoding)
    {
      if o == this || o == null {
        return;
      }
      if nbits != o.nbits {
        return;
      }
      assert Outside(o, Repr());
      if encoding == EncodingBitmap && o.encoding == EncodingArray {
        IntersectConverting(o);
        return;
      }
      if encoding == EncodingArray {
        IntersectArray(o);
      } else {
        CombineBits(Intersect, o);
      }
      ConvertMaybe();
      KeepsValues(o);
    }

    /** And of a bitset with an array-encoded o: o turns into a bitset for the word-wise and, then back. */
    method IntersectConverting(o: Bitmap)
      requires Valid() && encoding == EncodingBitmap
      requires o.Valid() && o.encoding == EncodingArray && o.nbits == nbits && Separate(o)
      modifies Repr(), o.Repr()
      ensures Valid() && o.Valid() && o.Values() == old(o.Values())
      ensures forall u :: u in Values() <==> u in old(Values()) && u in old(o.Values())
      ensures Settled()
    {
      assert Outside(this, o.Repr()) && Outside(o, Repr());
      o.ConvertEncoding(EncodingBitmap);
      KeepsValues(this);
      label Converted:
      CombineBits(Intersect, o);
      KeepsValues@Converted(o);
      label Combined:
      o.ConvertMaybe();
      KeepsValues@Combined(this);
      ConvertMaybe();
    }

    /**
     * Both bitmaps are array-encoded with contents of the same length: the
     * case where `array.or` as written leaves only o's values.
     */
    ghost predicate ArrayPair(o: Bitmap)
      reads this, arr, o, o.arr
    {
      encoding == EncodingArray && o.encoding == EncodingArray && |arr.content| == |o.arr.content|
    }

    /**
     * `Or(o)`: nothing when o is nil, this bitmap, or of another capacity.
     * Otherwise unite case by case: an array-encoded bitmap merges with an
     * array through `array.or` as written, or turns into a bitset to take
     * one; a bitset adds an array's values one by one. Two arrays of the
     * same length come out holding o's values only.
     */
    method Or(o: Bitmap?)
      requires Valid()
      requires o != null && o != this ==> o.Valid() && Separate(o)
      modifies Repr()
      ensures Valid()
      ensures o != null && o != this ==> o.Valid() && o.Values() == old(o.Values())
      ensures o == null || o == this || o.nbits != nbits ==> Values() == old(Values())
      ensures o != null && o != this && o.nbits == nbits && old(ArrayPair(o)) ==>
        forall u :: u in Values() <==> u in old(o.Values())
      ensures o != null && o != this && o.nbits == nbits && !old(ArrayPair(o)) ==>
        forall u :: u in Values() <==> u in old(Values()) || u in old(o.Values())
      ensures o != null && o != this && o.nbits == nbits && old(encoding) == EncodingArray ==> Settled()
      ensures old(encoding) == EncodingBitmap ==> encoding == EncodingBitmap
      ensures o == null || o == this || o.nbits != nbits ==> encoding == old(encoding)
    {
      Unite(o, false);
    }

    /** Or with the corrected array merge: always the union. */
    method OrCorrected(o: Bitmap?)
      requires Valid()
      requires o != null && o != this ==> o.Valid() && Separate(o)
      modifies Repr()
      ensures Valid()
      ensures o != null && o != this ==> o.Valid() && o.Values() == old(o.Values())
      ensures o == null || o == this || o.nbits != nbits ==> Values() == old(Values())
      ensures o != null && o != this && o.nbits == nbits ==>
        forall u :: u in Values() <==> u in old(Values()) || u in old(o.Values())
      ensures o != null && o != this && o.nbits == nbits && old(encoding) == EncodingArray ==> Settled()
      ensures old(encoding) == EncodingBitmap ==> encoding == EncodingBitmap
      ensures o == null || o == this || o.nbits != nbits ==> encoding == old(encoding)
    {
      Unite(o, true);
    }

    /** The body of Or, with the array merge as written or corrected. */
    method Unite(o: Bitmap?, corrected: bool)
      requires Valid()
      requires o != null && o != this ==> o.Valid() && Separate(o)
      modifies Repr()
      ensures Valid()
      ensures o != null && o != this ==> o.Valid() && o.Values() == old(o.Values())
      ensures o == null || o == this || o.nbits != nbits ==> Values() == old(Values())
      ensures o != null && o != this && o.nbits == nbits && !corrected && old(ArrayPair(o)) ==>
        forall u :: u in Values() <==> u in old(o.Values())
      ensures o != null && o != this && o.nbits == nbits && (corrected || !old(ArrayPair(o))) ==>
        forall u :: u in Values() <==> u in old(Values()) || u in old(o.Values())
      ensures o != null && o != this && o.nbits == nbits && old(encoding) == EncodingArray ==> Settled()
      ensures old(encoding) == EncodingBitmap ==> encoding == EncodingBitmap
      ensures o == null || o == this || o.nbits != nbits ==> encoding == old(encoding)
    {
      if o == this || o == null {
        return;
      }
      if nbits != o.nbits {
        return;
      }
      assert Outside(o, Repr());
      if encoding == EncodingArray {
        UniteIntoArray(o, corrected);
      } else if o.encoding == EncodingArray {
        AddEach(o.arr.content);
      } else {
        CombineBits(Union, o);
      }
      KeepsValues(o);
    }

    /** The array-encoded cases of Or, then the encoding check. */
    method UniteIntoArray(o: Bitmap, corrected: bool)
      requires Valid() && encoding == EncodingArray
      requires o.Valid() && o.nbits == nbits && Separate(o)
      modifies Repr()
      ensures Valid()
      ensures !corrected && old(ArrayPair(o)) ==> forall u :: u in Values() <==> u in old(o.Values())
      ensures corrected || !old(ArrayPair(o)) ==> forall u :: u in Values() <==> u in old(Values()) || u in old(o.Values())
      ensures Settled()
    {
      if o.encoding == EncodingArray {
        UniteArrays(o, corrected);
      } else {
        ConvertEncoding(EncodingBitmap);
        CombineBits(Union, o);
      }
      ConvertMaybe();
    }

    /**
     * `AndNot(o)`: nothing when o has another capacity; otherwise subtract
     * case by case (o may be this bitmap, which empties it). An array minus
     * a bitset goes through `array.andNotBitmap` as written and comes out
     * empty.
     */
    method AndNot(o: Bitmap)
      requires Valid() && o.Valid() && (o == this || Separate(o))
      modifies Repr()
      ensures Valid()
      ensures o.nbits != nbits ==> Values() == old(Values())
      ensures o.nbits == nbits && old(encoding == EncodingArray && o.encoding == EncodingBitmap) ==>
        forall u :: u !in Values()
      ensures o.nbits == nbits && !old(encoding == EncodingArray && o.encoding == EncodingBitmap) ==>
        forall u :: u in Values() <==> u in old(Values()) && u !in old(o.Values())
      ensures o.nbits == nbits ==> Settled()
      ensures o.nbits != nbits ==> encoding == old(encoding)
    {
      Subtract(o, false);
    }

    /** AndNot with the corrected `andNotBitmap`: always the difference. */
    method AndNotCorrected(o: Bitmap)
      requires Valid() && o.Valid() && (o == this || Separate(o))
      modifies Repr()
      ensures Valid()
      ensures o.nbits != nbits ==> Values() == old(Values())
      ensures o.nbits == nbits ==> forall u :: u in Values() <==> u in old(Values()) && u !in old(o.Values())
      ensures o.nbits == nbits ==> Settled()
      ensures o.nbits != nbits ==> encoding == old(encoding)
    {
      Subtract(o, true);
    }

    /** The body of AndNot, with `andNotBitmap` as written or corrected. */
    method Subtract(o: Bitmap, corrected: bool)
      requires Valid() && o.Valid() && (o == this || Separate(o))
      modifies Repr()
      ensures Valid()
      ensures o.nbits != nbits ==> Values() == old(Values())
      ensures o.nbits == nbits && !corrected && old(encoding == EncodingArray && o.encoding == EncodingBitmap) ==>
        forall u :: u !in Values()
      ensures o.nbits == nbits && (corrected || !old(encoding == EncodingArray && o.encoding == EncodingBitmap)) ==>
        forall u :: u in Values() <==> u in old(Values()) && u !in old(o.Values())
      ensures o.nbits == nbits ==> Settled()
      ensures o.nbits != nbits ==> encoding == old(encoding)
    {
      if nbits != o.nbits {
        return;
      }
      if encoding == EncodingArray {
        SubtractArray(o, corrected);
      } else {
        if o.encoding == EncodingArray {
          SubtractValues(o.arr.content);
        } else {
          CombineBits(Difference, o);
        }
      }
      ConvertMaybe();
    }

    /** The array cases of And: `array.and` or `array.andBitmap`, by o's encoding. */
    method IntersectArray(o: Bitmap)
      requires Valid() && encoding == EncodingArray
      requires o.Valid() && o.nbits == nbits && Separate(o)
      modifies arr
      ensures Sound()
      ensures forall u :: u in Values() <==> u in old(Values()) && u in old(o.Values())
    {
      InRangeMembers(arr.content, NumWords(nbits));
      if o.encoding == EncodingArray {
        arr.And(o.arr);
      } else {
        arr.AndBitmap(o.bits);
        MembersProperties(o.bits.words[..]);
      }
      InRangeFrom(arr.content, NumWords(nbits));
    }

    /**
     * The array-with-array case of Or: `array.or` as written, which for
     * contents of the same length yields o's; the corrected merge otherwise
     * or when asked for.
     */
    method UniteArrays(o: Bitmap, corrected: bool)
      requires Valid() && encoding == EncodingArray
      requires o.Valid() && o.encoding == EncodingArray && o.nbits == nbits && Separate(o)
      modifies arr
      ensures Sound()
      ensures !corrected && old(ArrayPair(o)) ==> forall u :: u in Values() <==> u in old(o.Values())
      ensures corrected || !old(ArrayPair(o)) ==> forall u :: u in Values() <==> u in old(Values()) || u in old(o.Values())
    {
      ThresholdFits(nbits);
      InRangeMembers(arr.content, NumWords(nbits));
      InRangeMembers(o.arr.content, NumWords(nbits));
      if !corrected && |arr.content| == |o.arr.content| {
        arr.OrAsWritten(o.arr);
      } else {
        arr.Or(o.arr);
      }
      InRangeFrom(arr.content, NumWords(nbits));
    }

    /**
     * The array cases of AndNot: `array.andNot`, or `array.andNotBitmap` as
     * written (which empties the array) or corrected.
     */
    method SubtractArray(o: Bitmap, corrected: bool)
      requires Valid() && encoding == EncodingArray
      requires o.Valid() && o.nbits == nbits && (o == this || Separate(o))
      modifies arr
      ensures Sound()
      ensures !corrected && o.encoding == EncodingBitmap ==> arr.content == []
      ensures corrected || o.encoding == EncodingArray ==>
        forall u :: u in Values() <==> u in old(Values()) && u !in old(o.Values())
    {
      InRangeMembers(arr.content, NumWords(nbits));
      if o.encoding == EncodingArray {
        arr.AndNot(o.arr);
      } else if corrected {
        arr.AndNotBitmap(o.bits);
        MembersProperties(o.bits.words[..]);
      } else {
        arr.AndNotBitmapAsWritten(o.bits);
      }
      InRangeFrom(arr.content, NumWords(nbits));
    }

    /** The bitset-with-bitset cases: `bitmap.and`, `bitmap.or` or `bitmap.andNot`. */
    method CombineBits(op: Op, o: Bitmap)
      requires Valid() && encoding == EncodingBitmap
      requires o.Valid() && o.encoding == EncodingBitmap && o.nbits == nbits && (o == this || Separate(o))
      modifies bits, bits.words
      ensures Valid()
      ensures forall u: nat :: u in Values() <==> Combined(op, u in old(Values()), u in old(o.Values()))
    {
      ghost var a := bits.words[..];
      ghost var ow := o.bits.words[..];
      if op == Intersect {
        bits.And(o.bits);
      } else if op == Union {
        bits.Or(o.bits);
      } else {
        bits.AndNot(o.bits);
      }
      CombineMembers(op, a, ow);
    }

    /** The bitset-minus-array case of AndNot: `bitmap.andNotArray`. */
    method SubtractValues(vals: seq<U16>)
      requires Valid() && encoding == EncodingBitmap && InRange(vals, bits.words.Length)
      modifies bits, bits.words
      ensures Valid()
      ensures forall u :: u in Values() <==> u in old(Values()) && u !in vals
    {
      ghost var a := bits.words[..];
      MembersProperties(a);
      bits.AndNotArray(vals);
      MembersProperties(bits.words[..]);
    }

    /** The adding loop of Or: a bitset-encoded bitmap takes each value in turn. */
    method AddEach(vals: seq<U16>)
      requires Valid() && encoding == EncodingBitmap && InRange(vals, bits.words.Length)
      modifies Repr()
      ensures Valid() && encoding == EncodingBitmap
      ensures forall u :: u in Values() <==> u in old(Values()) || u in vals
    {
      ghost var before := Values();
      for i := 0 to |vals|
        invariant Valid() && encoding == EncodingBitmap
        invariant forall u :: u in Values() <==> u in before || u in vals[..i]
      {
        AddNext(vals, i, before);
      }
      assert vals[..|vals|] == vals;
    }

    /** One round of Or's adding loop: a bitset-encoded bitmap takes vals[i]. */
    method AddNext(vals: seq<U16>, i: nat, ghost before: seq<nat>)
      requires Valid() && encoding == EncodingBitmap && InRange(vals, bits.words.Length) && i < |vals|
      requires forall u :: u in Values() <==> u in before || u in vals[..i]
      modifies Repr()
      ensures Valid() && encoding == EncodingBitmap
      ensures forall u :: u in Values() <==> u in before || u in vals[..i + 1]
    {
      assert vals[..i + 1] == vals[..i] + [vals[i]];
      Add(vals[i]);
    }

    /**
     * `FlipInt(start, stop)`: nothing when start >= stop; otherwise clamp
     * start to 0 and stop to nbits - 1, move to the bitset, flip, and
     * convert back if the count calls for it. Below FlipEnd the values of
     * [start, stop) swap presence (FlipEnd(stop) reaches a word further when
     * stop is a multiple of 64). A negative clamped stop or a start word past
     * the words is an index panic in Go.
     */
    method FlipInt(start: int, stop: int)
      requires Valid()
      requires start < stop ==> 0 <= ClampStop(stop, nbits) && ClampStart(start) / 64 < NumWords(nbits)
      modifies Repr()
      ensures Valid()
      ensures start >= stop ==> Values() == old(Values())
      ensures start < stop && ClampStart(start) <= ClampStop(stop, nbits) ==>
        forall u: nat :: u < 64 * NumWords(nbits) ==>
          (u in Values() <==> ((u in old(Values())) != (ClampStart(start) <= u < FlipEnd(ClampStop(stop, nbits)))))
      ensures start < stop && ClampStart(start) > ClampStop(stop, nbits) ==>
        forall u: nat :: u < 64 * NumWords(nbits) ==>
          (u in Values() <==> ((u in old(Values())) != ReversedFlip(ClampStart(start), ClampStop(stop, nbits), u)))
    {
      if start >= stop {
        return;
      }
      var lo := if start < 0 then 0 else start;
      var hi := if stop >= nbits then nbits - 1 else stop;
      if encoding == EncodingArray {
        ConvertEncoding(EncodingBitmap);
      }
      ghost var a := bits.words[..];
      MembersProperties(a);
      bits.Flip(lo, hi);
      MembersProperties(bits.words[..]);
      FlipToggles(a, lo, hi);
      ConvertMaybe();
    }

    /** What the bitmap holds, as NewBitmapFromBuf reads it back. */
    ghost function Snapshot(): Stored
      reads this, arr, bits, bits.words
    {
      if encoding == EncodingArray then ArrayForm(arr.content) else BitmapForm(bits.words[..], bits.cardinality)
    }

    /**
     * `Bytes()`: the header (magic, encoding, the count as a uint16), then the
     * array's values or the words. For a valid bitmap it decodes back to
     * what the bitmap holds.
     */
    function Bytes(): (r: seq<Byte>)
      reads this, arr, bits, bits.words
      ensures Valid() ==> Decode(r, nbits) == Ok(Snapshot())
    {
      ValidFits();
      ArrayRoundTrip(arr.content, bits.words[..], nbits);
      BitmapRoundTrip(arr.content, bits.words[..], nbits, GetCardinality());
      Encode(encoding, arr.content, bits.words[..], GetCardinality())
    }

    /** A valid bitmap's count fits the header, and an array's values fit the body. */
    lemma ValidFits()
      ensures Valid() && encoding == EncodingArray ==> |arr.content| <= Capacity(nbits) && |arr.content| < 0x1_0000
      ensures Valid() && encoding == EncodingBitmap ==> GetCardinality() == bits.cardinality < 0x1_0000
    {
      if Valid() {
        ThresholdFits(nbits);
        if encoding == EncodingBitmap {
          CardBound(bits.words[..]);
          ModSmall(bits.cardinality, 0x1_0000_0000_0000_0000);
        }
      }
    }

    /** `Clone()`: NewBitmapFromBuf over Bytes(), with a copied buffer. */
    method Clone() returns (c: Bitmap)
      requires Valid()
      ensures fresh(c) && fresh(c.arr) && fresh(c.bits) && fresh(c.bits.words)
      ensures c.nbits == nbits && c.encoding == encoding && c.Valid() && c.Values() == Values()
    {
      var r := NewBitmapFromBuf(Bytes(), nbits);
      c := r.value;
    }

    /** `ToArray()`: a fresh slice of every value, ascending, as uint32. */
    method ToArray() returns (indices: array<U32>)
      requires Valid()
      ensures fresh(indices) && indices[..] == Values()
    {
      ValuesFacts();
      indices := new U32[GetCardinality()](_ => 0);
      if encoding == EncodingArray {
        for i := 0 to |arr.content|
          invariant indices[..i] == arr.content[..i]
        {
          indices[i] := arr.content[i];
        }
        assert indices[..] == indices[..|arr.content|];
      } else {
        ghost var blank := indices[..];
        bits.NextSetMany32(indices);
        Dense.Trunc32Identity(Members(bits.words[..]));
        Dense.FillAll(blank, Members(bits.words[..]));
      }
    }
  }

  /** The clearing loop of convertEncoding: every word zero. */
  method ClearWords(words: array<Word>)
    modifies words
    ensures words[..] == Zeros(words.Length)
  {
    for i := 0 to words.Length
      invariant forall j :: 0 <= j < i ==> words[j] == Zero()
    {
      words[i] := Zero();
    }
  }

  /**
   * The adding loop of convertEncoding: from zero words and count 0, add each
   * value; the bitset then holds exactly the (ascending) values.
   */
  method Load(b: Bits.Bitmap, data: seq<U16>)
    requires b.words[..] == Zeros(b.words.Length) && b.cardinality == 0
    requires Increasing(data) && InRange(data, b.words.Length)
    modifies b, b.words
    ensures b.Valid() && Members(b.words[..]) == data
  {
    ZerosEmpty(b.words.Length);
    for i := 0 to |data|
      invariant b.Valid() && b.cardinality == i
      invariant forall u: nat :: Has(b.words[..], u) <==> u in data[..i]
    {
      NextOfIncreasing(data, i);
      b.Add(data[i]);
    }
    assert data[..|data|] == data;
    LoadDone(b.words[..], data);
  }

  /** The next value of an ascending sequence is new to its prefix. */
  lemma NextOfIncreasing(data: seq<nat>, i: nat)
    requires Increasing(data) && i < |data|
    ensures data[..i + 1] == data[..i] + [data[i]] && data[i] !in data[..i]
  {
    assert data[..i + 1] == data[..i] + [data[i]];
  }

  /** Words holding exactly the values of an ascending sequence, as many as it has, list it. */
  lemma LoadDone(ws: seq<Word>, data: seq<nat>)
    requires Increasing(data) && Card(ws) == |data|
    requires forall u: nat :: Has(ws, u) <==> u in data
    ensures Members(ws) == data
  {
    MembersProperties(ws);
    Arrays.SortedUnique(Members(ws), data);
  }

  // ---------------------------------------------------------------------
  // Equality

  /**
   * `Equals(o)`: both nil, or the same capacity, the same count and, case
   * by case, the same values. For valid bitmaps this is equality of the
   * value sets.
   */
  method Equals(b: Bitmap?, o: Bitmap?) returns (eq: bool)
    requires b != null ==> b.Valid()
    requires o != null ==> o.Valid()
    ensures eq <==>
      ((b == null && o == null) ||
       (b != null && o != null && b.nbits == o.nbits && forall u :: u in b.Values() <==> u in o.Values()))
  {
    if o == null && b == null {
      return true;
    }
    if o == null && b != null {
      return false;
    }
    if o != null && b == null {
      return false;
    }
    if b.nbits != o.nbits {
      return false;
    }
    if b.GetCardinality() != o.GetCardinality() {
      b.ValuesFacts();
      o.ValuesFacts();
      SameValuesSameCount(b.Values(), o.Values());
      return false;
    }
    eq := EqualValues(b, o);
  }

  /** The four encoding cases of Equals, for bitmaps of one capacity and one count. */
  method EqualValues(b: Bitmap, o: Bitmap) returns (eq: bool)
    requires b.Valid() && o.Valid() && b.nbits == o.nbits && b.GetCardinality() == o.GetCardinality()
    ensures eq <==> forall u :: u in b.Values() <==> u in o.Values()
  {
    ghost var bv, ov := b.Values(), o.Values();
    if b.encoding == EncodingArray {
      if o.encoding == EncodingArray {
        eq := b.arr.Equals(o.arr);
        assert o.arr.content[..|b.arr.content|] == o.arr.content;
        SameValuesEqual(bv, ov);
      } else {
        InRangeMembers(b.arr.content, NumWords(b.nbits));
        eq := b.arr.EqualsBitmap(o.bits);
        MembersProperties(o.bits.words[..]);
        ContainedEqual(bv, ov);
      }
    } else {
      if o.encoding == EncodingArray {
        InRangeMembers(o.arr.content, NumWords(o.nbits));
        eq := b.bits.EqualsArray(o.arr.content);
        MembersProperties(b.bits.words[..]);
        ContainedEqual(ov, bv);
      } else {
        eq := b.bits.Equals(o.bits);
        SameMembers(b.bits.words[..], o.bits.words[..]);
      }
    }
    assert eq <==> forall u :: u in bv <==> u in ov;
    assert bv == b.Values() && ov == o.Values();
  }

  /** Two word sequences have the same present values exactly when they have the same members. */
  lemma SameMembers(a: seq<Word>, b: seq<Word>)
    ensures (forall v: nat :: Has(a, v) == Has(b, v)) <==> forall u :: u in Members(a) <==> u in Members(b)
  {
    MembersProperties(a);
    MembersProperties(b);
  }

  /** Ascending sequences with the same values have the same length. */
  lemma SameValuesSameCount(a: seq<nat>, b: seq<nat>)
    requires Increasing(a) && Increasing(b)
    ensures (forall u :: u in a <==> u in b) ==> |a| == |b|
  {
    if forall u :: u in a <==> u in b {
      Arrays.SubsetLength(a, b);
      Arrays.SubsetLength(b, a);
    }
  }

  /** Ascending sequences of one length have the same values exactly when they are equal. */
  lemma SameValuesEqual(a: seq<nat>, b: seq<nat>)
    requires Increasing(a) && Increasing(b) && |a| == |b|
    ensures (forall u :: u in a <==> u in b) <==> a == b
  {
    if forall u :: u in a <==> u in b {
      Arrays.SortedUnique(a, b);
    }
  }

  /** Of two ascending sequences of one length, the first lies within the second exactly when they have the same values. */
  lemma ContainedEqual(a: seq<nat>, b: seq<nat>)
    requires Increasing(a) && Increasing(b) && |a| == |b|
    ensures (forall i :: 0 <= i < |a| ==> a[i] in b) <==> forall u :: u in a <==> u in b
  {
    if forall i :: 0 <= i < |a| ==> a[i] in b {
      forall y | y in a
        ensures y in b
      {
        var i :| 0 <= i < |a| && a[i] == y;
      }
      Arrays.SubsetEqual(a, b);
    }
  }

  // ---------------------------------------------------------------------
  // The stored form

  /** What NewBitmapFromBuf builds: the array's values, or the words and the cached count. */
  datatype Stored = ArrayForm(content: seq<U16>) | BitmapForm(words: seq<Word>, cardinality: int)

  /** A stored form every operation can start from. */
  predicate Consistent(s: Stored, nbits: nat)
  {
    match s
    case ArrayForm(content) => Increasing(content) && |content| <= Threshold(nbits) && InRange(content, NumWords(nbits))
    case BitmapForm(ws, cardinality) => cardinality == Card(ws)
  }

  /** `copy(dst, buf)` into a fresh zeroed buffer of n bytes. */
  function Padded(buf: seq<Byte>, n: nat): (r: seq<Byte>)
    ensures |r| == n
    ensures forall i :: 0 <= i < n ==> r[i] == if i < |buf| then buf[i] else 0
  {
    if |buf| >= n then buf[..n] else buf + seq(n - |buf|, _ => 0)
  }

  /**
   * `NewBitmapFromBuf(buf, nbits, true)` as a value: the buffer is copied
   * into a totalSize(nbits) buffer (cut or zero-padded), so any length
   * with a good header decodes. The bitmap encoding views the body as
   * words with the header's count; the array encoding views its first
   * `cardinality` uint16. A count past the body would make a slice beyond
   * the buffer, which the model reports as BodyOverrun.
   */
  function Decode(buf: seq<Byte>, nbits: nat): (r: Result<Stored>)
    ensures r.Ok? <==>
      (|buf| >= HeaderSize && HeaderOf(buf).magic == Magic &&
       (HeaderOf(buf).encoding == EncodingBitmap ||
        (HeaderOf(buf).encoding == EncodingArray && HeaderOf(buf).cardinality <= Capacity(nbits))))
    ensures r.Ok? && r.value.BitmapForm? ==>
      |r.value.words| == NumWords(nbits) && 0 <= r.value.cardinality < 0x1_0000
    ensures r.Ok? && r.value.ArrayForm? ==> |r.value.content| <= Capacity(nbits)
  {
    if |buf| < HeaderSize then Err(InvalidData)
    else
      var h := HeaderOf(buf);
      var body := Padded(buf, TotalSize(nbits))[HeaderSize..];
      if h.magic != Magic then Err(BadMagic)
      else if h.encoding == EncodingBitmap then Ok(BitmapForm(ToWords(body), h.cardinality))
      else if h.encoding == EncodingArray then
        if h.cardinality > Capacity(nbits) then Err(BodyOverrun)
        else Ok(ArrayForm(ToHalves(body)[..h.cardinality]))
      else Err(BadEncoding)
  }

  /** The bytes of Bytes(): the header with the count as a uint16, then the array's values or the words. */
  function Encode(encoding: Byte, content: seq<U16>, ws: seq<Word>, count: nat): (r: seq<Byte>)
    ensures |r| >= HeaderSize
  {
    var h := Header(Magic, encoding, count % 0x1_0000);
    if encoding == EncodingArray then HeaderBytes(h) + FromHalves(content) else HeaderBytes(h) + FromWords(ws)
  }

  /** The body of a header-led buffer after the copy into n bytes: the body, then zeros. */
  lemma PaddedBody(head: seq<Byte>, body: seq<Byte>, n: nat)
    requires |head| == HeaderSize && HeaderSize + |body| <= n
    ensures Padded(head + body, n)[HeaderSize..] == body + seq(n - HeaderSize - |body|, _ => 0)
  {
    var zeros: seq<Byte> := seq(n - HeaderSize - |body|, _ => 0);
    var p := Padded(head + body, n);
    assert p == head + (body + zeros) by {
      forall i | 0 <= i < |p|
        ensures p[i] == (head + (body + zeros))[i]
      {
      }
    }
  }

  /** An array-encoded Bytes() decodes to its values when they fit the body and the header. */
  lemma ArrayRoundTrip(content: seq<U16>, ws: seq<Word>, nbits: nat)
    ensures |content| <= Capacity(nbits) && |content| < 0x1_0000 ==>
      Decode(Encode(EncodingArray, content, ws, |content|), nbits) == Ok(ArrayForm(content))
  {
    if |content| <= Capacity(nbits) && |content| < 0x1_0000 {
      ModSmall(|content|, 0x1_0000);
      var h := Header(Magic, EncodingArray, |content|);
      var halves := FromHalves(content);
      var buf := HeaderBytes(h) + halves;
      assert buf == Encode(EncodingArray, content, ws, |content|);
      HeaderRoundTrip(h, halves);
      PaddedBody(HeaderBytes(h), halves, TotalSize(nbits));
      var zeros: seq<Byte> := seq(TotalSize(nbits) - HeaderSize - |halves|, _ => 0);
      ToFromHalves(content, zeros);
      assert Decode(buf, nbits) == Ok(ArrayForm(ToHalves(halves + zeros)[..h.cardinality]));
    }
  }

  /** A bitmap-encoded Bytes() decodes to its words and count when the count fits 16 bits. */
  lemma BitmapRoundTrip(content: seq<U16>, ws: seq<Word>, nbits: nat, cardinality: nat)
    ensures |ws| == NumWords(nbits) && cardinality < 0x1_0000 ==>
      Decode(Encode(EncodingBitmap, content, ws, cardinality), nbits) == Ok(BitmapForm(ws, cardinality))
  {
    if |ws| == NumWords(nbits) && cardinality < 0x1_0000 {
      ModSmall(cardinality, 0x1_0000);
      var h := Header(Magic, EncodingBitmap, cardinality);
      var words := FromWords(ws);
      var buf := HeaderBytes(h) + words;
      assert buf == Encode(EncodingBitmap, content, ws, cardinality);
      HeaderRoundTrip(h, words);
      var p := Padded(buf, TotalSize(nbits));
      assert p == buf;
      assert p[HeaderSize..] == words;
      ToFromWords(ws);
      assert Decode(buf, nbits) == Ok(BitmapForm(ToWords(p[HeaderSize..]), h.cardinality));
    }
  }

  /**
   * `NewBitmapFromBuf(buf, nbits, true)`: builds what Decode describes;
   * the half the encoding does not select starts empty. A consistent stored
   * form gives a valid bitmap.
   */
  method NewBitmapFromBuf(buf: seq<Byte>, nbits: nat) returns (r: Result<Bitmap>)
    ensures Decode(buf, nbits).Err? ==> r.Err? && r.error == Decode(buf, nbits).error
    ensures Decode(buf, nbits).Ok? ==>
      r.Ok? && fresh(r.value) && fresh(r.value.arr) && fresh(r.value.bits) && fresh(r.value.bits.words) &&
      r.value.nbits == nbits && r.value.Snapshot() == Decode(buf, nbits).value &&
      (r.value.encoding == EncodingArray || r.value.encoding == EncodingBitmap)
    ensures Decode(buf, nbits).Ok? && Small(nbits) && Consistent(Decode(buf, nbits).value, nbits) ==> r.value.Valid()
  {
    if |buf| < HeaderSize {
      return Err(InvalidData);
    }
    var h := HeaderOf(buf);
    if h.magic != Magic {
      return Err(BadMagic);
    }
    var dst := Padded(buf, TotalSize(nbits));
    if h.encoding == EncodingBitmap {
      var b := new Bitmap.Make(nbits, EncodingBitmap, [], ToWords(dst[HeaderSize..]), h.cardinality);
      return Ok(b);
    }
    if h.encoding == EncodingArray {
      if h.cardinality > Capacity(nbits) {
        return Err(BodyOverrun);
      }
      var b := new Bitmap.Make(nbits, EncodingArray, ToHalves(dst[HeaderSize..])[..h.cardinality], Zeros(NumWords(nbits)), 0);
      return Ok(b);
    }
    return Err(BadEncoding);
  }

  // ---------------------------------------------------------------------
  // Operations over several bitmaps

  /** Every store of the given bitmaps. */
  ghost function Reprs(bs: seq<Bitmap>): (r: set<object>)
    ensures forall i :: 0 <= i < |bs| ==> bs[i].Repr() <= r
  {
    if bs == [] then {} else Reprs(bs[..|bs| - 1]) + bs[|bs| - 1].Repr()
  }

  /** Any two of the bitmaps are one and the same or share no store. */
  ghost predicate Disjoint(bs: seq<Bitmap>)
  {
    forall i, j :: 0 <= i < |bs| && 0 <= j < |bs| ==> bs[i] == bs[j] || bs[i].Separate(bs[j])
  }

  /** The values of each bitmap. */
  ghost function ValuesOf(bs: seq<Bitmap>): (r: seq<seq<nat>>)
    reads Reprs(bs)
    ensures |r| == |bs|
    ensures forall i :: 0 <= i < |bs| ==> r[i] == bs[i].Values()
  {
    if bs == [] then [] else ValuesOf(bs[..|bs| - 1]) + [bs[|bs| - 1].Values()]
  }

  /** u lies in every bitmap (Intersect) or some bitmap (Union) among the first n of capacity nbits. */
  ghost predicate Folded(op: Op, u: nat, vals: seq<seq<nat>>, caps: seq<nat>, nbits: nat, n: nat)
    requires n <= |vals| == |caps|
  {
    if op == Intersect then forall j :: 0 <= j < n && caps[j] == nbits ==> u in vals[j]
    else exists j :: 0 <= j < n && caps[j] == nbits && u in vals[j]
  }

  function Caps(bs: seq<Bitmap>): (r: seq<nat>)
    ensures |r| == |bs| && forall i :: 0 <= i < |bs| ==> r[i] == bs[i].nbits
  {
    seq(|bs|, i requires 0 <= i < |bs| => bs[i].nbits)
  }

  /** None of x's stores is among the given objects. */
  ghost predicate Outside(x: Bitmap, s: set<object>)
  {
    x !in s && x.arr !in s && x.bits !in s && x.bits.words !in s
  }

  /** A bitmap none of whose stores changed keeps its validity and its values. */
  twostate lemma KeepsValues(x: Bitmap)
    requires unchanged(x, x.arr, x.bits, x.bits.words)
    ensures x.Valid() == old(x.Valid()) && x.Values() == old(x.Values())
  {
  }

  /** One round of the fold: And or Or the next bitmap into b. */
  method FoldStep(op: Op, b: Bitmap, bitmaps: seq<Bitmap>, i: nat, ghost vals: seq<seq<nat>>)
    requires op != Difference && 0 < i < |bitmaps| && |vals| == |bitmaps|
    requires b.Valid() && b.nbits == bitmaps[0].nbits
    requires Disjoint(bitmaps)
    requires forall j :: 0 <= j < |bitmaps| ==> bitmaps[j].Valid() && bitmaps[j].Values() == vals[j] && b.Separate(bitmaps[j])
    requires forall u: nat :: u in b.Values() <==> Folded(op, u, vals, Caps(bitmaps), b.nbits, i)
    modifies b.Repr(), bitmaps[i].Repr()
    ensures b.Valid()
    ensures forall j :: 0 <= j < |bitmaps| ==> bitmaps[j].Valid() && bitmaps[j].Values() == vals[j]
    ensures forall u: nat :: u in b.Values() <==> Folded(op, u, vals, Caps(bitmaps), b.nbits, i + 1)
  {
    var o := bitmaps[i];
    ghost var touched := b.Repr() + o.Repr();
    forall j | 0 <= j < |bitmaps| && bitmaps[j] != o
      ensures Outside(bitmaps[j], touched)
    {
      assert bitmaps[j].Separate(o) && b.Separate(bitmaps[j]);
    }
    if op == Intersect {
      b.And(o);
    } else {
      b.OrCorrected(o);
    }
    forall j | 0 <= j < |bitmaps| && bitmaps[j] != o
      ensures bitmaps[j].Valid() && bitmaps[j].Values() == vals[j]
    {
      KeepsValues(bitmaps[j]);
    }
    forall u: nat
      ensures u in b.Values() <==> Folded(op, u, vals, Caps(bitmaps), b.nbits, i + 1)
    {
      FoldedNext(op, u, vals, Caps(bitmaps), b.nbits, i);
    }
  }

  /** One more bitmap of the same capacity narrows (Intersect) or widens (Union) the fold; one of another capacity is skipped. */
  lemma FoldedNext(op: Op, u: nat, vals: seq<seq<nat>>, caps: seq<nat>, nbits: nat, i: nat)
    requires i < |vals| == |caps|
    ensures Folded(op, u, vals, caps, nbits, i + 1) <==>
      if caps[i] != nbits then Folded(op, u, vals, caps, nbits, i)
      else if op == Intersect then Folded(op, u, vals, caps, nbits, i) && u in vals[i]
      else Folded(op, u, vals, caps, nbits, i) || u in vals[i]
  {
  }

  /**
   * The loop of AndBitmaps and OrBitmaps: a clone of the first bitmap
   * combined with each later one in turn (one of another capacity is
   * skipped).
   */
  method Fold(op: Op, bitmaps: seq<Bitmap>) returns (b: Bitmap)
    requires op != Difference && |bitmaps| > 0 && Disjoint(bitmaps)
    requires forall j :: 0 <= j < |bitmaps| ==> bitmaps[j].Valid()
    modifies Reprs(bitmaps)
    ensures fresh(b) && fresh(b.arr) && fresh(b.bits) && fresh(b.bits.words)
    ensures b.Valid() && b.nbits == bitmaps[0].nbits
    ensures forall j :: 0 <= j < |bitmaps| ==> bitmaps[j].Valid() && bitmaps[j].Values() == old(bitmaps[j].Values())
    ensures forall u: nat :: u in b.Values() <==> Folded(op, u, old(ValuesOf(bitmaps)), Caps(bitmaps), b.nbits, |bitmaps|)
  {
    ghost var vals := ValuesOf(bitmaps);
    b := bitmaps[0].Clone();
    forall j | 0 <= j < |bitmaps|
      ensures bitmaps[j].Valid() && bitmaps[j].Values() == vals[j]
    {
      KeepsValues(bitmaps[j]);
    }
    forall u: nat
      ensures u in b.Values() <==> Folded(op, u, vals, Caps(bitmaps), b.nbits, 1)
    {
      FoldedFirst(op, u, vals, Caps(bitmaps), b.nbits);
    }
    forall j | 0 <= j < |bitmaps|
      ensures b.Separate(bitmaps[j])
    {
    }
    FoldRest(op, b, bitmaps, vals);
  }

  /** The rounds of the fold after the first bitmap. */
  method FoldRest(op: Op, b: Bitmap, bitmaps: seq<Bitmap>, ghost vals: seq<seq<nat>>)
    requires op != Difference && 0 < |bitmaps| == |vals| && Disjoint(bitmaps)
    requires b.Valid() && b.nbits == bitmaps[0].nbits
    requires forall j :: 0 <= j < |bitmaps| ==> bitmaps[j].Valid() && bitmaps[j].Values() == vals[j] && b.Separate(bitmaps[j])
    requires forall u: nat :: u in b.Values() <==> Folded(op, u, vals, Caps(bitmaps), b.nbits, 1)
    modifies b.Repr(), Reprs(bitmaps)
    ensures b.Valid()
    ensures forall j :: 0 <= j < |bitmaps| ==> bitmaps[j].Valid() && bitmaps[j].Values() == vals[j]
    ensures forall u: nat :: u in b.Values() <==> Folded(op, u, vals, Caps(bitmaps), b.nbits, |bitmaps|)
  {
    for i := 1 to |bitmaps|
      invariant b.Valid()
      invariant forall j :: 0 <= j < |bitmaps| ==> bitmaps[j].Valid() && bitmaps[j].Values() == vals[j]
      invariant forall u: nat :: u in b.Values() <==> Folded(op, u, vals, Caps(bitmaps), b.nbits, i)
    {
      assert bitmaps[i].Repr() <= Reprs(bitmaps);
      FoldStep(op, b, bitmaps, i, vals);
    }
  }

  /** After the first bitmap, the fold holds exactly its values. */
  lemma FoldedFirst(op: Op, u: nat, vals: seq<seq<nat>>, caps: seq<nat>, nbits: nat)
    requires 0 < |vals| == |caps| && caps[0] == nbits
    ensures Folded(op, u, vals, caps, nbits, 1) <==> u in vals[0]
  {
    if op != Intersect && u in vals[0] {
      assert 0 < 1 && caps[0] == nbits && u in vals[0];
    }
  }

  /**
   * `AndBitmaps(nbits, bitmaps...)`: a new empty bitmap of nbits when there
   * are none; otherwise the values every bitmap of the first one's capacity
   * holds. The bitmaps keep their values.
   */
  method AndBitmaps(nbits: nat, bitmaps: seq<Bitmap>) returns (b: Bitmap)
    requires Disjoint(bitmaps) && forall j :: 0 <= j < |bitmaps| ==> bitmaps[j].Valid()
    modifies Reprs(bitmaps)
    ensures fresh(b)
    ensures |bitmaps| == 0 ==> b.nbits == nbits && b.Values() == [] && (Small(nbits) ==> b.Valid())
    ensures |bitmaps| > 0 ==> b.Valid() && b.nbits == bitmaps[0].nbits
    ensures |bitmaps| > 0 ==>
      forall u: nat :: u in b.Values() <==>
        forall j :: 0 <= j < |bitmaps| && bitmaps[j].nbits == b.nbits ==> u in old(bitmaps[j].Values())
    ensures forall j :: 0 <= j < |bitmaps| ==> bitmaps[j].Valid() && bitmaps[j].Values() == old(bitmaps[j].Values())
  {
    if |bitmaps| == 0 {
      b := new Bitmap(nbits);
      return;
    }
    b := Fold(Intersect, bitmaps);
  }

  /**
   * `OrBitmaps(nbits, bitmaps...)`: a new empty bitmap of nbits when there
   * are none; otherwise the values some bitmap of the first one's capacity
   * holds. The bitmaps keep their values.
   */
  method OrBitmaps(nbits: nat, bitmaps: seq<Bitmap>) returns (b: Bitmap)
    requires Disjoint(bitmaps) && forall j :: 0 <= j < |bitmaps| ==> bitmaps[j].Valid()
    modifies Reprs(bitmaps)
    ensures fresh(b)
    ensures |bitmaps| == 0 ==> b.nbits == nbits && b.Values() == [] && (Small(nbits) ==> b.Valid())
    ensures |bitmaps| > 0 ==> b.Valid() && b.nbits == bitmaps[0].nbits
    ensures |bitmaps| > 0 ==>
      forall u: nat :: u in b.Values() <==>
        exists j :: 0 <= j < |bitmaps| && bitmaps[j].nbits == b.nbits && u in old(bitmaps[j].Values())
    ensures forall j :: 0 <= j < |bitmaps| ==> bitmaps[j].Valid() && bitmaps[j].Values() == old(bitmaps[j].Values())
  {
    if |bitmaps| == 0 {
      b := new Bitmap(nbits);
      return;
    }
    b := Fold(Union, bitmaps);
  }

  /**
   * `AndNotBitmap(a, b)`: a clone of a without b's values (all of a when the
   * capacities differ); through AndNot as written, so an array-encoded a
   * and a bitset-encoded b give an empty bitmap.
   */
  method AndNotBitmap(a: Bitmap, b: Bitmap) returns (c: Bitmap)
    requires a.Valid() && b.Valid()
    ensures fresh(c) && c.Valid() && c.nbits == a.nbits
    ensures a.nbits == b.nbits && a.encoding == EncodingArray && b.encoding == EncodingBitmap ==>
      forall u :: u !in c.Values()
    ensures a.nbits == b.nbits && !(a.encoding == EncodingArray && b.encoding == EncodingBitmap) ==>
      forall u :: u in c.Values() <==> u in old(a.Values()) && u !in old(b.Values())
    ensures a.nbits != b.nbits ==> c.Values() == old(a.Values())
  {
    ghost var kept, taken := a.Values(), b.Values();
    c := a.Clone();
    c.AndNot(b);
    assert unchanged(a, b);
    assert old(a.Values()) == kept && old(b.Values()) == taken;
  }

  /** `FlipBitmap(b, start, stop)`: a clone of b with FlipInt(start, stop) applied. */
  method FlipBitmap(b: Bitmap, start: int, stop: int) returns (c: Bitmap)
    requires b.Valid()
    requires start < stop ==> 0 <= ClampStop(stop, b.nbits) && ClampStart(start) / 64 < NumWords(b.nbits)
    ensures fresh(c) && c.Valid() && c.nbits == b.nbits
    ensures start >= stop ==> c.Values() == old(b.Values())
    ensures start < stop && ClampStart(start) <= ClampStop(stop, b.nbits) ==>
      forall u: nat :: u < 64 * NumWords(b.nbits) ==>
        (u in c.Values() <==> ((u in old(b.Values())) != (ClampStart(start) <= u < FlipEnd(ClampStop(stop, b.nbits)))))
    ensures start < stop && ClampStart(start) > ClampStop(stop, b.nbits) ==>
      forall u: nat :: u < 64 * NumWords(b.nbits) ==>
        (u in c.Values() <==> ((u in old(b.Values())) != ReversedFlip(ClampStart(start), ClampStop(stop, b.nbits), u)))
  {
    c := b.Clone();
    c.FlipInt(start, stop);
  }
}

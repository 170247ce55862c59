/**
 * fixed.Bitmap (fixed/bitmap.go): a dense bitset of nbits / 64 + 2 words with
 * a cached cardinality, and its marshaled form. The Go type lays the words out
 * behind an 8-byte header inside one byte buffer; here the words are their own
 * array and the header exists only in the encoded byte sequences.
 */
module Fixed {
  import opened Words
  import opened Bitset
  import opened Format
  import Dense

  /** Largest value of Go's `uint64`, plus one. */
  const Modulus64 := 0x1_0000_0000_0000_0000

  class Bitmap {
    /** The capacity asked for at construction. */
    const nbits: nat
    /** `set`: the body of the buffer. */
    const words: array<Word>
    /** The cached count of present values. */
    var cardinality: int

    /** The body has the length `totalSize(nbits)` gives it (every constructor ensures this). */
    predicate Shaped()
    {
      words.Length == NumWords(nbits)
    }

    /** The cached count is the population count of the words. */
    ghost predicate Valid()
      reads this, words
    {
      Shaped() && cardinality == Card(words[..])
    }

    /** `NewBitmap(nbits)`: an empty bitmap. */
    constructor (nbits: nat)
      ensures this.nbits == nbits && cardinality == 0
      ensures fresh(words) && words[..] == Zeros(NumWords(nbits))
      ensures Valid()
    {
      this.nbits := nbits;
      words := new Word[NumWords(nbits)](_ => Zero());
      cardinality := 0;
      new;
      assert words[..] == Zeros(NumWords(nbits));
      ZerosEmpty(NumWords(nbits));
    }

    /** The bitmap-encoded branch of `NewBitmapFromBuf`: the body words and the header's count, as given. */
    constructor Wrap(nbits: nat, body: seq<Word>, cardinality: int)
      requires |body| == NumWords(nbits)
      ensures this.nbits == nbits && this.cardinality == cardinality
      ensures fresh(words) && words[..] == body
      ensures Shaped()
    {
      this.nbits := nbits;
      words := new Word[|body|](i requires 0 <= i < |body| => body[i]);
      this.cardinality := cardinality;
    }

    /** `Add(v)`: set bit v; the count goes up by one exactly when v was absent. */
    method Add(v: U32)
      requires v / 64 < words.Length
      modifies this, words
      ensures words[..] == SetBit(old(words[..]), v)
      ensures forall u: nat :: Has(words[..], u) == (u == v || Has(old(words[..]), u))
      ensures cardinality == old(cardinality) + (if Has(old(words[..]), v) then 0 else 1)
      ensures old(Valid()) ==> Valid()
    {
      var delta := Dense.SetValue(words, v);
      cardinality := cardinality + delta;
      SetBitEffect(old(words[..]), v);
    }

    /** `Remove(v)`: when v is present, count one fewer and clear its bit. */
    method Remove(v: U32)
      requires v / 64 < words.Length
      modifies this, words
      ensures words[..] == if Has(old(words[..]), v) then ClearBit(old(words[..]), v) else old(words[..])
      ensures forall u: nat :: Has(words[..], u) == (u != v && Has(old(words[..]), u))
      ensures cardinality == old(cardinality) - (if Has(old(words[..]), v) then 1 else 0)
      ensures old(Valid()) ==> Valid()
    {
      var removed := Dense.ClearValue(words, v);
      if removed {
        cardinality := cardinality - 1;
      }
      ClearBitEffect(old(words[..]), v);
    }

    /** `Contains(v)`: the bit of v (out-of-range values are an index panic in Go). */
    function Contains(v: U32): (r: bool)
      reads this, words
      requires v / 64 < words.Length
      ensures r == Has(words[..], v)
      ensures r ==> Valid() ==> cardinality > 0
    {
      if Dense.Test(words, v) then
        MembersHas(words[..], v);
        MembersOrder(words[..]);
        true
      else false
    }

    /** `GetCardinality()`: the cached count, converted to `uint64`. */
    function GetCardinality(): (r: nat)
      reads this, words
      ensures r < Modulus64
      ensures 0 <= cardinality < Modulus64 ==> r == cardinality
      ensures Valid() && cardinality < Modulus64 ==> r == |Members(words[..])|
    {
      MembersOrder(words[..]);
      cardinality % Modulus64
    }

    /** `IsEmpty()`: whether the cached count is 0. */
    function IsEmpty(): (r: bool)
      reads this, words
      ensures Valid() ==> (r <==> forall v: nat :: !Has(words[..], v))
    {
      CardEmpty(words[..]);
      cardinality == 0
    }

    /** `And(o)`: intersect word by word over o's words; the count is that of the rewritten words. */
    method And(o: Bitmap)
      requires o.words.Length <= words.Length
      modifies this, words
      ensures words[..] == Combine(Intersect, old(words[..]), old(o.words[..]))
      ensures cardinality == Card(words[..o.words.Length])
      ensures o.words != words ==> o.words[..] == old(o.words[..])
      ensures Shaped() && o.Shaped() && o.nbits == nbits ==> Valid()
    {
      cardinality := Dense.CombineWith(Intersect, words, o.words);
      assert words[..words.Length] == words[..];
    }

    /** `Or(o)`: unite word by word over o's words; the count is that of the rewritten words. */
    method Or(o: Bitmap)
      requires o.words.Length <= words.Length
      modifies this, words
      ensures words[..] == Combine(Union, old(words[..]), old(o.words[..]))
      ensures cardinality == Card(words[..o.words.Length])
      ensures o.words != words ==> o.words[..] == old(o.words[..])
      ensures Shaped() && o.Shaped() && o.nbits == nbits ==> Valid()
    {
      cardinality := Dense.CombineWith(Union, words, o.words);
      assert words[..words.Length] == words[..];
    }

    /** `AndNot(o)`: subtract word by word over o's words; the count is that of the rewritten words. */
    method AndNot(o: Bitmap)
      requires o.words.Length <= words.Length
      modifies this, words
      ensures words[..] == Combine(Difference, old(words[..]), old(o.words[..]))
      ensures cardinality == Card(words[..o.words.Length])
      ensures o.words != words ==> o.words[..] == old(o.words[..])
      ensures Shaped() && o.Shaped() && o.nbits == nbits ==> Valid()
    {
      cardinality := Dense.CombineWith(Difference, words, o.words);
      assert words[..words.Length] == words[..];
    }

    /**
     * `FlipInt(start, stop)`: nothing when start >= stop; otherwise the three
     * xor steps, then a recount. A negative start or an end word past the body
     * is an index panic in Go.
     */
    method FlipInt(start: int, stop: int)
      requires start < stop ==> 0 <= start && stop / 64 < words.Length
      modifies this, words
      ensures start >= stop ==> words[..] == old(words[..]) && cardinality == old(cardinality)
      ensures start < stop ==> words[..] == Flip(old(words[..]), start, stop)
      ensures start < stop ==> cardinality == Card(words[..])
      ensures start < stop && Shaped() ==> Valid()
    {
      if start >= stop {
        return;
      }
      Dense.FlipRange(words, start, stop);
      cardinality := Dense.CountBits(words);
    }

    /** `computeCardinality()`. */
    method ComputeCardinality() returns (cnt: nat)
      ensures cnt == Card(words[..])
      ensures Valid() ==> cnt == cardinality
    {
      cnt := Dense.CountBits(words);
    }

    /** `nextSetMany16(buffer)`: the smallest present values, truncated to 16 bits, ascending, into the buffer. */
    method NextSetMany16(buffer: array<U16>)
      modifies buffer
      ensures buffer[..] == Dense.Fill(old(buffer[..]), Dense.Convert(Trunc16, Members(words[..])))
    {
      Dense.NextSetMany(words, buffer, Trunc16);
    }

    /** `nextSetMany32(buffer)`: the smallest present values, truncated to 32 bits, ascending, into the buffer. */
    method NextSetMany32(buffer: array<U32>)
      modifies buffer
      ensures buffer[..] == Dense.Fill(old(buffer[..]), Dense.Convert(Trunc32, Members(words[..])))
    {
      Dense.NextSetMany(words, buffer, Trunc32);
    }

    /**
     * `ToArray()`: a fresh slice of GetCardinality() values filled by
     * nextSetMany32; for a valid bitmap whose values fit 32 bits it lists
     * every value once, ascending.
     */
    method ToArray() returns (indices: array<U32>)
      ensures fresh(indices) && indices.Length == GetCardinality()
      ensures indices[..] == Dense.Fill(seq(indices.Length, _ => 0), Dense.Convert(Trunc32, Members(words[..])))
      ensures Valid() && 64 * words.Length <= 0x1_0000_0000 ==> indices[..] == Members(words[..])
    {
      indices := new U32[GetCardinality()](_ => 0);
      assert indices[..] == seq(indices.Length, _ => 0);
      NextSetMany32(indices);
      if Valid() && 64 * words.Length <= 0x1_0000_0000 {
        ToArrayValid(words[..], cardinality, seq(indices.Length, _ => 0), indices[..]);
      }
    }

    /**
     * `Bytes()`: the bitmap-encoded form, a header with the count truncated to
     * 16 bits followed by the words. It decodes back to the same words.
     */
    function Bytes(): (r: seq<Byte>)
      reads this, words
      ensures |r| == HeaderSize + 8 * words.Length
      ensures Shaped() ==> Decode(r, nbits) == Ok(Image(words[..], cardinality % 0x1_0000))
    {
      if Shaped() then
        BytesRoundTrip(words[..], nbits, cardinality);
        BitmapBytes(words[..], cardinality)
      else BitmapBytes(words[..], cardinality)
    }

    /**
     * `Marshal()`: below arrayMax values, a header with the array tag followed
     * by the values as 16-bit halves; otherwise the bitmap form of Bytes.
     */
    method Marshal() returns (buf: seq<Byte>)
      requires cardinality >= 0
      ensures buf == MarshalBytes(words[..], cardinality)
    {
      var l := cardinality;
      if l >= ArrayMax {
        return Bytes();
      }
      var data := new U16[l](_ => 0);
      assert data[..] == seq(l, _ => 0);
      if l > 0 {
        NextSetMany16(data);
      }
      buf := HeaderBytes(Header(Magic, EncodingArray, l)) + FromHalves(data[..]);
    }

    /** `Clone()`: a fresh bitmap with the same capacity, words and count. */
    method Clone() returns (c: Bitmap)
      requires Shaped()
      ensures fresh(c) && fresh(c.words)
      ensures c.nbits == nbits && c.words[..] == words[..] && c.cardinality == cardinality
    {
      c := new Bitmap(nbits);
      forall i | 0 <= i < words.Length {
        c.words[i] := words[i];
      }
      c.cardinality := cardinality;
    }

    /**
     * The values `NextMany(offset, buf, limit)` appends: the present values at
     * or above offset, ascending, at most limit of them. The method itself
     * is not part of fixed/bitmap.go; chunked bitmaps call it.
     */
    function NextMany(offset: nat, limit: nat): (r: seq<nat>)
      reads this, words
      ensures |r| <= limit && Increasing(r)
      ensures forall i :: 0 <= i < |r| ==> offset <= r[i] && Has(words[..], r[i])
      ensures forall v: nat :: offset <= v && Has(words[..], v) && (|r| < limit || (|r| > 0 && v <= r[|r| - 1])) ==>
                v in r
    {
      ValuesFrom(words[..], offset, limit)
    }
  }

  /** Up to limit present values of ws at or above offset, ascending and without gaps. */
  function ValuesFrom(ws: seq<Word>, offset: nat, limit: nat): (r: seq<nat>)
    ensures |r| <= limit && Increasing(r)
    ensures forall i :: 0 <= i < |r| ==> offset <= r[i] && Has(ws, r[i])
    ensures forall v: nat :: offset <= v && Has(ws, v) && (|r| < limit || (|r| > 0 && v <= r[|r| - 1])) ==>
              v in r
  {
    var all := AtLeast(Members(ws), offset);
    MembersProperties(ws);
    AtLeastIncreasing(Members(ws), offset);
    TakeFacts(all, limit);
    var r := Take(all, limit);
    assert forall i :: 0 <= i < |r| ==> r[i] in all;
    r
  }

  /** The first n elements of s, or all of s when it is shorter. */
  function Take(s: seq<nat>, n: nat): (r: seq<nat>)
  {
    if |s| <= n then s else s[..n]
  }

  /** Taking from an ascending sequence keeps it ascending and skips nothing below the last element taken. */
  lemma TakeFacts(s: seq<nat>, n: nat)
    requires Increasing(s)
    ensures |Take(s, n)| <= n && Increasing(Take(s, n))
    ensures forall v :: v in Take(s, n) ==> v in s
    ensures forall v :: v in s && (|Take(s, n)| < n || (|Take(s, n)| > 0 && v <= Take(s, n)[|Take(s, n)| - 1])) ==>
              v in Take(s, n)
  {
    var r := Take(s, n);
    if |s| > n {
      forall v | v in s && (|r| < n || (|r| > 0 && v <= r[|r| - 1])) ensures v in r {
        var k :| 0 <= k < |s| && s[k] == v;
        assert r[k] == v;
      }
    }
  }

  /** The values of s at or above offset, in order. */
  function AtLeast(s: seq<nat>, offset: nat): (r: seq<nat>)
    ensures forall v :: v in r <==> v in s && offset <= v
  {
    if s == [] then []
    else (if offset <= s[0] then [s[0]] else []) + AtLeast(s[1..], offset)
  }

  lemma {:induction false} AtLeastIncreasing(s: seq<nat>, offset: nat)
    requires Increasing(s)
    ensures Increasing(AtLeast(s, offset))
  {
    if s != [] {
      AtLeastIncreasing(s[1..], offset);
      var tail := AtLeast(s[1..], offset);
      forall i | 0 <= i < |tail| ensures s[0] < tail[i] {
        assert tail[i] in s[1..];
      }
    }
  }

  /**
   * When the count is the population count and every value fits 32 bits,
   * the array ToArray fills is exactly the list of values.
   */
  lemma ToArrayValid(ws: seq<Word>, cardinality: int, blank: seq<U32>, indices: seq<U32>)
    requires cardinality == Card(ws) && 64 * |ws| <= 0x1_0000_0000
    requires |indices| == |blank| == cardinality % Modulus64
    requires indices == Dense.Fill(blank, Dense.Convert(Trunc32, Members(ws)))
    ensures indices == Members(ws)
  {
    CardBound(ws);
    ModSmall(cardinality, Modulus64);
    MembersOrder(ws);
    var c := Dense.Convert(Trunc32, Members(ws));
    Dense.Trunc32Identity(Members(ws));
    Dense.FillAll(blank, c);
  }

  /** `Equals(o)`: both nil, or the same capacity, the same count and the same words. */
  method Equals(b: Bitmap?, o: Bitmap?) returns (eq: bool)
    requires b != null ==> b.Shaped()
    requires o != null ==> o.Shaped()
    ensures eq == ((b == null && o == null) ||
                   (b != null && o != null && b.nbits == o.nbits && b.cardinality == o.cardinality &&
                    b.words[..] == o.words[..]))
    ensures b != null && o != null && b.Valid() && o.Valid() ==>
              (eq <==> b.nbits == o.nbits && forall v: nat :: Has(b.words[..], v) == Has(o.words[..], v))
  {
    if o == null && b == null {
      return true;
    }
    if o == null || b == null {
      return false;
    }
    if b.nbits != o.nbits {
      return false;
    }
    SameBitmap(b.words[..], o.words[..]);
    if b.cardinality != o.cardinality {
      return false;
    }
    eq := Dense.EqualPrefix(b.words, o.words);
    assert b.words[..o.words.Length] == b.words[..];
  }

  // ---------------------------------------------------------------------
  // The marshaled form

  /** What a buffer decodes to: the words of the body and the count the bitmap caches. */
  datatype Image = Image(words: seq<Word>, cardinality: int)

  /** The bitmap-encoded bytes: header (bitmap tag, count as `uint16`) then the words. */
  function BitmapBytes(ws: seq<Word>, cardinality: int): (r: seq<Byte>)
    ensures |r| == HeaderSize + 8 * |ws|
  {
    HeaderBytes(Header(Magic, EncodingBitmap, cardinality % 0x1_0000)) + FromWords(ws)
  }

  /** The bitmap-encoded bytes decode to the same words and the count modulo 2^16. */
  lemma BytesRoundTrip(ws: seq<Word>, nbits: nat, cardinality: int)
    requires |ws| == NumWords(nbits)
    ensures Decode(BitmapBytes(ws, cardinality), nbits) == Ok(Image(ws, cardinality % 0x1_0000))
  {
    var buf := BitmapBytes(ws, cardinality);
    HeaderRoundTrip(Header(Magic, EncodingBitmap, cardinality % 0x1_0000), FromWords(ws));
    ToFromWords(ws);
    assert buf[HeaderSize..] == FromWords(ws);
  }

  /** The bytes `Marshal` returns for words ws and count cardinality. */
  function MarshalBytes(ws: seq<Word>, cardinality: nat): (r: seq<Byte>)
  {
    if cardinality >= ArrayMax then BitmapBytes(ws, cardinality)
    else HeaderBytes(Header(Magic, EncodingArray, cardinality)) +
         FromHalves(Dense.Fill(seq(cardinality, _ => 0), Dense.Convert(Trunc16, Members(ws))))
  }

  /** Every value lies in one of the first n words. */
  predicate Fits(vals: seq<nat>, n: nat)
  {
    forall i :: 0 <= i < |vals| ==> vals[i] / 64 < n
  }

  /** Adding the values one by one; a value whose word lies past the body is Add's index panic. */
  function Insert(ws: seq<Word>, vals: seq<U16>): (r: Result<seq<Word>>)
    ensures r.Ok? ==> |r.value| == |ws|
    decreases |vals|
  {
    if vals == [] then Ok(ws)
    else if vals[0] / 64 >= |ws| then Err(IndexOutOfRange)
    else Insert(SetBit(ws, vals[0]), vals[1..])
  }

  /** Inserting succeeds exactly when every value fits, and then adds exactly those values. */
  lemma {:induction false} InsertHas(ws: seq<Word>, vals: seq<U16>)
    ensures Insert(ws, vals).Ok? <==> Fits(vals, |ws|)
    ensures Insert(ws, vals).Ok? ==>
              forall v: nat :: Has(Insert(ws, vals).value, v) <==> Has(ws, v) || v in vals
    decreases |vals|
  {
    if vals != [] && vals[0] / 64 < |ws| {
      InsertHas(SetBit(ws, vals[0]), vals[1..]);
      SetBitEffect(ws, vals[0]);
      assert forall v :: v in vals <==> v == vals[0] || v in vals[1..];
      if forall i :: 0 <= i < |vals[1..]| ==> vals[1..][i] / 64 < |ws| {
        forall i | 0 <= i < |vals| ensures vals[i] / 64 < |ws| {
          if i > 0 {
            assert vals[i] == vals[1..][i - 1];
          }
        }
      }
    }
  }

  /**
   * `NewBitmapFromBuf(buf, nbits, true)`: the error checks in the source's
   * order, then either the body words with the header's count (bitmap tag)
   * or the halves added one by one to an empty bitmap (array tag).
   */
  function Decode(buf: seq<Byte>, nbits: nat): (r: Result<Image>)
    ensures r.Ok? ==> |r.value.words| == NumWords(nbits)
  {
    if |buf| < HeaderSize then Err(InvalidData)
    else
      var h := HeaderOf(buf);
      if h.magic != Magic then Err(BadMagic)
      else if h.encoding == EncodingBitmap then
        if |buf| != TotalSize(nbits) then Err(BadBitmapLength)
        else Ok(Image(ToWords(buf[HeaderSize..]), h.cardinality))
      else if h.encoding == EncodingArray then
        if (|buf| - HeaderSize) / 2 != h.cardinality then Err(BadArrayLength)
        else FromValues(ToHalves(buf[HeaderSize..]), nbits)
      else Err(BadEncoding)
  }

  /** The array-encoded branch: the values added one by one to an empty bitmap, which is then valid. */
  function FromValues(vals: seq<U16>, nbits: nat): (r: Result<Image>)
    ensures r.Ok? ==> |r.value.words| == NumWords(nbits)
    ensures r.Ok? ==> r.value.cardinality == Card(r.value.words)
  {
    match Insert(Zeros(NumWords(nbits)), vals)
    case Ok(ws) => Ok(Image(ws, Card(ws)))
    case Err(e) => Err(e)
  }

  /**
   * Which buffers decode: at least a header, the magic, and either the bitmap
   * tag with exactly totalSize(nbits) bytes, or the array tag with as many
   * halves as the header counts, all of them within the body.
   */
  lemma DecodeAccepts(buf: seq<Byte>, nbits: nat)
    ensures Decode(buf, nbits).Ok? <==>
      |buf| >= HeaderSize && HeaderOf(buf).magic == Magic &&
      ((HeaderOf(buf).encoding == EncodingBitmap && |buf| == TotalSize(nbits)) ||
       (HeaderOf(buf).encoding == EncodingArray && (|buf| - HeaderSize) / 2 == HeaderOf(buf).cardinality &&
        Fits(ToHalves(buf[HeaderSize..]), NumWords(nbits))))
  {
    if |buf| >= HeaderSize {
      var h := HeaderOf(buf);
      if h.magic == Magic && h.encoding == EncodingArray && (|buf| - HeaderSize) / 2 == h.cardinality {
        var vals := ToHalves(buf[HeaderSize..]);
        InsertHas(Zeros(NumWords(nbits)), vals);
        assert Decode(buf, nbits) == FromValues(vals, nbits);
      }
    }
  }

  /** A decoded array payload holds exactly the listed values, and its count is their number. */
  lemma DecodeArray(buf: seq<Byte>, nbits: nat)
    requires |buf| >= HeaderSize && HeaderOf(buf).encoding == EncodingArray
    requires Decode(buf, nbits).Ok?
    ensures Decode(buf, nbits).value.cardinality == Card(Decode(buf, nbits).value.words)
    ensures forall v: nat :: Has(Decode(buf, nbits).value.words, v) <==> v in ToHalves(buf[HeaderSize..])
  {
    var vals := ToHalves(buf[HeaderSize..]);
    var zs := Zeros(NumWords(nbits));
    assert Decode(buf, nbits) == FromValues(vals, nbits);
    InsertHas(zs, vals);
    ZerosEmpty(NumWords(nbits));
    var ws := Insert(zs, vals).value;
    assert Decode(buf, nbits).value.words == ws;
    forall v: nat ensures Has(ws, v) <==> v in vals {
      assert !Has(zs, v);
    }
  }

  /** `NewBitmapFromBuf(buf, nbits, true)`, proved to build what Decode describes. */
  method NewBitmapFromBuf(buf: seq<Byte>, nbits: nat) returns (r: Result<Bitmap>)
    ensures Decode(buf, nbits).Err? ==> r.Err? && r.error == Decode(buf, nbits).error
    ensures Decode(buf, nbits).Ok? ==>
      r.Ok? && fresh(r.value) && fresh(r.value.words) && r.value.Shaped() && r.value.nbits == nbits &&
      r.value.words[..] == Decode(buf, nbits).value.words &&
      r.value.cardinality == Decode(buf, nbits).value.cardinality
  {
    if |buf| < HeaderSize {
      return Err(InvalidData);
    }
    var h := HeaderOf(buf);
    if h.magic != Magic {
      return Err(BadMagic);
    }
    if h.encoding == EncodingBitmap {
      if |buf| != TotalSize(nbits) {
        return Err(BadBitmapLength);
      }
      var b := new Bitmap.Wrap(nbits, ToWords(buf[HeaderSize..]), h.cardinality);
      return Ok(b);
    }
    if h.encoding == EncodingArray {
      var b := new Bitmap(nbits);
      if (|buf| - HeaderSize) / 2 != h.cardinality {
        return Err(BadArrayLength);
      }
      var data := ToHalves(buf[HeaderSize..]);
      var i := 0;
      while i < |data|
        invariant 0 <= i <= |data|
        invariant fresh(b) && fresh(b.words) && b.nbits == nbits && b.Valid()
        invariant Insert(Zeros(NumWords(nbits)), data) == Insert(b.words[..], data[i..])
      {
        assert data[i..][1..] == data[i + 1..];
        if data[i] / 64 >= b.words.Length {
          return Err(IndexOutOfRange);
        }
        b.Add(data[i]);
        i := i + 1;
      }
      return Ok(b);
    }
    return Err(BadEncoding);
  }

  /**
   * Marshal then NewBitmapFromBuf gives back the same words and count, for
   * a consistent bitmap whose count fits the header's 16 bits and, when it
   * takes the array form, whose values fit 16 bits.
   */
  lemma MarshalRoundTrip(ws: seq<Word>, nbits: nat)
    requires |ws| == NumWords(nbits)
    requires Card(ws) < 0x1_0000
    requires Card(ws) < ArrayMax ==> forall v: nat :: Has(ws, v) ==> v < 0x1_0000
    ensures Decode(MarshalBytes(ws, Card(ws)), nbits) == Ok(Image(ws, Card(ws)))
  {
    var card := Card(ws);
    if card >= ArrayMax {
      BytesRoundTrip(ws, nbits, card);
      ModSmall(card, 0x1_0000);
    } else {
      ArrayRoundTrip(ws, nbits);
    }
  }

  /** The array form: its halves are the values, and adding them to an empty bitmap rebuilds ws. */
  lemma ArrayRoundTrip(ws: seq<Word>, nbits: nat)
    requires |ws| == NumWords(nbits)
    requires Card(ws) < ArrayMax
    requires forall v: nat :: Has(ws, v) ==> v < 0x1_0000
    ensures Decode(MarshalBytes(ws, Card(ws)), nbits) == Ok(Image(ws, Card(ws)))
  {
    var card := Card(ws);
    var buf := MarshalBytes(ws, card);
    var vals := ArrayHalves(ws);
    MembersProperties(ws);
    DecodeAccepts(buf, nbits);
    forall i | 0 <= i < |vals| ensures vals[i] / 64 < NumWords(nbits) {
      assert Has(ws, vals[i]);
    }
    DecodeArray(buf, nbits);
    SameValues(Decode(buf, nbits).value.words, ws);
  }

  /** The halves of the array form are the values of ws, which all fit 16 bits. */
  lemma ArrayHalves(ws: seq<Word>) returns (vals: seq<U16>)
    requires Card(ws) < ArrayMax
    requires forall v: nat :: Has(ws, v) ==> v < 0x1_0000
    ensures vals == Members(ws)
    ensures |MarshalBytes(ws, Card(ws))| >= HeaderSize
    ensures HeaderOf(MarshalBytes(ws, Card(ws))) == Header(Magic, EncodingArray, Card(ws))
    ensures ToHalves(MarshalBytes(ws, Card(ws))[HeaderSize..]) == vals
  {
    var card := Card(ws);
    vals := ArrayValues(ws);
    var buf := MarshalBytes(ws, card);
    assert buf == HeaderBytes(Header(Magic, EncodingArray, card)) + FromHalves(vals);
    HeaderRoundTrip(Header(Magic, EncodingArray, card), FromHalves(vals));
    assert buf[HeaderSize..] == FromHalves(vals) + [];
    ToFromHalves(vals, []);
  }

  /** The values written by the array form: all of them, unchanged by the 16-bit truncation. */
  lemma ArrayValues(ws: seq<Word>) returns (vals: seq<U16>)
    requires Card(ws) < ArrayMax
    requires forall v: nat :: Has(ws, v) ==> v < 0x1_0000
    ensures vals == Members(ws)
    ensures Dense.Fill(seq(Card(ws), _ => 0), Dense.Convert(Trunc16, Members(ws))) == vals
  {
    MembersProperties(ws);
    var m := Members(ws);
    vals := Dense.Convert(Trunc16, m);
    forall i | 0 <= i < |vals| ensures vals[i] == m[i] {
      assert Has(ws, m[i]);
    }
    Dense.FillAll(seq(Card(ws), _ => 0), vals);
  }

  /**
   * The shape of Marshal's output: below arrayMax values, the array tag and
   * 8 + 2 * card bytes whose halves are the values in ascending order;
   * otherwise the bitmap tag and totalSize(nbits) bytes.
   */
  lemma MarshalShape(ws: seq<Word>, nbits: nat)
    requires |ws| == NumWords(nbits)
    ensures var buf := MarshalBytes(ws, Card(ws));
      HeaderOf(buf).magic == Magic &&
      if Card(ws) < ArrayMax then
        HeaderOf(buf).encoding == EncodingArray && |buf| == HeaderSize + 2 * Card(ws) &&
        ToHalves(buf[HeaderSize..]) == Dense.Convert(Trunc16, Members(ws))
      else
        HeaderOf(buf).encoding == EncodingBitmap && |buf| == TotalSize(nbits)
  {
    if Card(ws) < ArrayMax {
      MarshalArrayShape(ws);
    } else {
      HeaderRoundTrip(Header(Magic, EncodingBitmap, Card(ws) % 0x1_0000), FromWords(ws));
    }
  }

  /** The array case of MarshalShape. */
  lemma MarshalArrayShape(ws: seq<Word>)
    requires Card(ws) < ArrayMax
    ensures |MarshalBytes(ws, Card(ws))| == HeaderSize + 2 * Card(ws)
    ensures HeaderOf(MarshalBytes(ws, Card(ws))) == Header(Magic, EncodingArray, Card(ws))
    ensures ToHalves(MarshalBytes(ws, Card(ws))[HeaderSize..]) == Dense.Convert(Trunc16, Members(ws))
  {
    var card := Card(ws);
    MembersOrder(ws);
    var vals := Dense.Convert(Trunc16, Members(ws));
    Dense.FillAll(seq(card, _ => 0), vals);
    var buf := MarshalBytes(ws, card);
    assert buf == HeaderBytes(Header(Magic, EncodingArray, card)) + FromHalves(vals);
    HeaderRoundTrip(Header(Magic, EncodingArray, card), FromHalves(vals));
    assert buf[HeaderSize..] == FromHalves(vals) + [];
    ToFromHalves(vals, []);
  }

  // ---------------------------------------------------------------------
  // Helpers returning new bitmaps

  /** The words of each bitmap. */
  ghost function WordsOf(bs: seq<Bitmap>): (r: seq<seq<Word>>)
    reads set i | 0 <= i < |bs| :: bs[i].words
    ensures |r| == |bs|
    ensures forall i :: 0 <= i < |bs| ==> r[i] == bs[i].words[..]
  {
    if bs == [] then [] else WordsOf(bs[..|bs| - 1]) + [bs[|bs| - 1].words[..]]
  }

  /** All the bitmaps have the same capacity and a body of the right length. */
  ghost predicate Uniform(bs: seq<Bitmap>)
  {
    forall i :: 0 <= i < |bs| ==> bs[i].Shaped() && bs[i].nbits == bs[0].nbits
  }

  /** `b.And(o)`, `b.Or(o)` or `b.AndNot(o)`. */
  method CombineInto(op: Op, b: Bitmap, o: Bitmap)
    requires o.words.Length <= b.words.Length
    modifies b, b.words
    ensures b.words[..] == Combine(op, old(b.words[..]), old(o.words[..]))
    ensures b.Shaped() && o.Shaped() && o.nbits == b.nbits ==> b.Valid()
  {
    if op == Intersect {
      b.And(o);
    } else if op == Union {
      b.Or(o);
    } else {
      b.AndNot(o);
    }
  }

  /** One round of the fold: combine the next operand into the accumulator. */
  method FoldStep(op: Op, b: Bitmap, o: Bitmap, ghost first: seq<Word>, ghost os: seq<seq<Word>>, ghost i: nat)
    requires i < |os| && o.words[..] == os[i] && b.words[..] == CombineAll(op, first, os[..i])
    requires b.Shaped() && o.Shaped() && o.nbits == b.nbits
    modifies b, b.words
    ensures b.words[..] == CombineAll(op, first, os[..i + 1]) && b.Valid()
  {
    CombineAllStep(op, first, os, i);
    CombineInto(op, b, o);
  }

  /** Clone the first bitmap, then combine each further one into the clone; all lists their words. */
  method Fold(op: Op, bitmaps: seq<Bitmap>, ghost all: seq<seq<Word>>) returns (b: Bitmap)
    requires |bitmaps| > 0 && Uniform(bitmaps)
    requires |all| == |bitmaps| && forall i :: 0 <= i < |bitmaps| ==> bitmaps[i].words[..] == all[i]
    ensures fresh(b) && fresh(b.words) && b.nbits == bitmaps[0].nbits
    ensures forall i :: 0 <= i < |all| ==> |all[i]| == |all[0]|
    ensures b.words[..] == CombineAll(op, all[0], all[1..])
    ensures bitmaps[0].Valid() ==> b.Valid()
  {
    ghost var os := all[1..];
    ghost var valid := bitmaps[0].Valid();
    forall j | 0 <= j < |os| ensures |os[j]| == |all[0]| {
      assert os[j] == all[j + 1];
    }
    b := bitmaps[0].Clone();
    var i := 1;
    while i < |bitmaps|
      invariant 1 <= i <= |bitmaps|
      invariant fresh(b) && fresh(b.words) && b.nbits == bitmaps[0].nbits && b.Shaped()
      invariant b.words[..] == CombineAll(op, all[0], os[..i - 1])
      invariant valid ==> b.Valid()
      decreases |bitmaps| - i
    {
      assert bitmaps[i].words[..] == os[i - 1];
      FoldStep(op, b, bitmaps[i], all[0], os, i - 1);
      i := i + 1;
    }
    assert os[..|bitmaps| - 1] == os;
  }

  /** `AndBitmaps(bitmaps...)`: an empty bitmap of capacity 0 for no argument, else the intersection of all. */
  method AndBitmaps(bitmaps: seq<Bitmap>) returns (b: Bitmap)
    requires Uniform(bitmaps)
    ensures fresh(b)
    ensures |bitmaps| == 0 ==> b.nbits == 0 && b.Valid() && b.cardinality == 0
    ensures |bitmaps| > 0 ==> b.nbits == bitmaps[0].nbits
    ensures |bitmaps| > 0 ==>
      forall v: nat :: Has(b.words[..], v) == forall i :: 0 <= i < |bitmaps| ==> Has(bitmaps[i].words[..], v)
    ensures |bitmaps| > 0 && bitmaps[0].Valid() ==> b.Valid()
  {
    if |bitmaps| == 0 {
      b := new Bitmap(0);
      return;
    }
    ghost var all := WordsOf(bitmaps);
    b := Fold(Intersect, bitmaps, all);
    forall v: nat
      ensures Has(b.words[..], v) == forall i :: 0 <= i < |bitmaps| ==> Has(bitmaps[i].words[..], v)
    {
      FoldHas(Intersect, all, v);
    }
  }

  /** `OrBitmaps(bitmaps...)`: an empty bitmap of capacity 0 for no argument, else the union of all. */
  method OrBitmaps(bitmaps: seq<Bitmap>) returns (b: Bitmap)
    requires Uniform(bitmaps)
    ensures fresh(b)
    ensures |bitmaps| == 0 ==> b.nbits == 0 && b.Valid() && b.cardinality == 0
    ensures |bitmaps| > 0 ==> b.nbits == bitmaps[0].nbits
    ensures |bitmaps| > 0 ==>
      forall v: nat :: Has(b.words[..], v) == exists i :: 0 <= i < |bitmaps| && Has(bitmaps[i].words[..], v)
    ensures |bitmaps| > 0 && bitmaps[0].Valid() ==> b.Valid()
  {
    if |bitmaps| == 0 {
      b := new Bitmap(0);
      return;
    }
    ghost var all := WordsOf(bitmaps);
    b := Fold(Union, bitmaps, all);
    forall v: nat
      ensures Has(b.words[..], v) == exists i :: 0 <= i < |bitmaps| && Has(bitmaps[i].words[..], v)
    {
      FoldHas(Union, all, v);
    }
  }

  /** `AndNotBitmap(a, b)`: a fresh bitmap holding a's values not in b. */
  method AndNotBitmap(a: Bitmap, b: Bitmap) returns (c: Bitmap)
    requires a.Shaped() && b.Shaped() && a.nbits == b.nbits
    ensures fresh(c) && c.nbits == a.nbits
    ensures forall v: nat :: Has(c.words[..], v) == (Has(a.words[..], v) && !Has(b.words[..], v))
    ensures c.Valid()
  {
    c := a.Clone();
    c.AndNot(b);
    forall v: nat ensures Has(c.words[..], v) == (Has(a.words[..], v) && !Has(b.words[..], v)) {
      CombineHas(Difference, a.words[..], b.words[..], v);
    }
  }

  /** `FlipBitmap(b, start, stop)`: a fresh bitmap with the values of b flipped over the range. */
  method FlipBitmap(b: Bitmap, start: int, stop: int) returns (c: Bitmap)
    requires b.Shaped()
    requires start < stop ==> 0 <= start && stop / 64 < b.words.Length
    ensures fresh(c) && c.nbits == b.nbits
    ensures forall v: nat :: v < 64 * c.words.Length ==>
      Has(c.words[..], v) == (Has(b.words[..], v) != (start < stop && start <= v < FlipEnd(stop)))
    ensures (start < stop || b.Valid()) ==> c.Valid()
  {
    c := b.Clone();
    c.FlipInt(start, stop);
    forall v: nat | v < 64 * c.words.Length
      ensures Has(c.words[..], v) == (Has(b.words[..], v) != (start < stop && start <= v < FlipEnd(stop)))
    {
      if start < stop {
        FlipHas(b.words[..], start, stop, v);
      }
    }
  }
}

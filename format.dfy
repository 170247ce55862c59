/**
 * The marshaled form shared by fixed.Bitmap and boring.Bitmap: an 8-byte
 * header word `magic<<32 | encoding<<24 | cardinality` followed by either the
 * bitset words (uint64) or the sorted array values (uint16). The byte order is
 * the machine's; the model fixes it as little-endian. The constants and the
 * header functions are identical in both Go packages and are defined once here.
 */
module Format {
  import opened Words

  type Byte = x: int | 0 <= x < 0x100
  type U16 = x: int | 0 <= x < 0x1_0000
  type U32 = x: int | 0 <= x < 0x1_0000_0000

  const HeaderSize := 8
  /** Below this cardinality fixed.Bitmap.Marshal emits the array encoding. */
  const ArrayMax := 1000
  const Magic: U32 := 0xFAD4F00D
  const EncodingBitmap: Byte := 0xF0
  const EncodingArray: Byte := 0x0F

  /** `bodySize(nbits)`: one spare header-sized block plus one word per 64 bits, plus one. */
  function BodySize(nbits: nat): nat
  {
    HeaderSize + 8 * (nbits / 64 + 1)
  }

  /** `totalSize(nbits)`: the header followed by the body. */
  function TotalSize(nbits: nat): nat
  {
    HeaderSize + BodySize(nbits)
  }

  /** The number of words of `toUint64Slice(buf[headerSize:])` for a totalSize buffer. */
  function NumWords(nbits: nat): (r: nat)
    ensures HeaderSize + 8 * r == TotalSize(nbits)
    ensures 64 * r > nbits + 64
  {
    nbits / 64 + 2
  }

  /** A value below the modulus is its own remainder. */
  lemma ModSmall(x: int, m: int)
    requires 0 <= x < m
    ensures x % m == x
  {
  }

  /** `uint16(v)`: the low 16 bits. */
  function Trunc16(v: nat): U16
  {
    v % 0x1_0000
  }

  /** `uint32(v)`: the low 32 bits. */
  function Trunc32(v: nat): U32
  {
    v % 0x1_0000_0000
  }

  datatype Error =
    | InvalidData       // shorter than the header
    | BadMagic
    | BadBitmapLength   // bitset encoding whose length is not totalSize(nbits)
    | BadArrayLength    // array encoding whose payload does not hold exactly cardinality values
    | BadEncoding       // neither tag
    | IndexOutOfRange   // a value beyond the bitset: the Go code panics here
    | BodyOverrun       // an array count past the body: the Go slice would reach beyond the buffer

  datatype Result<T> = Ok(value: T) | Err(error: Error)

  // ---------------------------------------------------------------------
  // Bytes and words

  /** The 8 bits of a byte, least significant first. */
  function ByteBits(b: Byte): (r: seq<bool>)
    ensures |r| == 8
  {
    ToBits(b, 8)
  }

  /** The uint64 stored in 8 bytes (little-endian). */
  function WordOf(bs: seq<Byte>): Word
    requires |bs| == 8
  {
    seq(64, i requires 0 <= i < 64 => ByteBits(bs[i / 8])[i % 8])
  }

  lemma Pow2Eight()
    ensures Pow2(8) == 0x100
  {
  }

  /** The 8 bytes of a uint64 (little-endian). */
  function WordBytes(w: Word): (r: seq<Byte>)
    ensures |r| == 8
  {
    Pow2Eight();
    seq(8, j requires 0 <= j < 8 => Value(w[8 * j .. 8 * j + 8]))
  }

  /** Reading back the bytes of a word gives the word. */
  lemma WordOfBytes(w: Word)
    ensures WordOf(WordBytes(w)) == w
  {
    forall i | 0 <= i < 64
      ensures WordOf(WordBytes(w))[i] == w[i]
    {
      var j, k := i / 8, i % 8;
      assert i == 8 * j + k;
      var bits := w[8 * j .. 8 * j + 8];
      BitsOfValue(bits);
      assert WordBytes(w)[j] == Value(bits);
      assert bits[k] == w[i];
    }
  }

  /** Writing the bytes of a word read from bytes gives those bytes. */
  lemma BytesOfWord(bs: seq<Byte>)
    requires |bs| == 8
    ensures WordBytes(WordOf(bs)) == bs
  {
    Pow2Eight();
    forall j | 0 <= j < 8
      ensures WordBytes(WordOf(bs))[j] == bs[j]
    {
      forall k | 0 <= k < 8 ensures WordOf(bs)[8 * j .. 8 * j + 8][k] == ByteBits(bs[j])[k] {
        assert (8 * j + k) / 8 == j && (8 * j + k) % 8 == k;
      }
      assert WordOf(bs)[8 * j .. 8 * j + 8] == ByteBits(bs[j]);
      ValueOfBits(bs[j], 8);
    }
  }

  /** `toUint64Slice(b)`: len(b) / 8 words. */
  function ToWords(bs: seq<Byte>): (r: seq<Word>)
    ensures |r| == |bs| / 8
  {
    if |bs| < 8 then [] else [WordOf(bs[..8])] + ToWords(bs[8..])
  }

  /** The bytes the words occupy in memory. */
  function FromWords(ws: seq<Word>): (r: seq<Byte>)
    ensures |r| == 8 * |ws|
  {
    if ws == [] then [] else WordBytes(ws[0]) + FromWords(ws[1..])
  }

  lemma {:induction false} ToFromWords(ws: seq<Word>)
    ensures ToWords(FromWords(ws)) == ws
  {
    if ws != [] {
      var bs := FromWords(ws);
      assert bs[..8] == WordBytes(ws[0]);
      assert bs[8..] == FromWords(ws[1..]);
      WordOfBytes(ws[0]);
      ToFromWords(ws[1..]);
    }
  }

  /** A uint16 stored in two bytes (little-endian). */
  function HalfOf(lo: Byte, hi: Byte): U16
  {
    lo + 0x100 * hi
  }

  function HalfBytes(h: U16): (r: seq<Byte>)
    ensures |r| == 2
  {
    [h % 0x100, h / 0x100]
  }

  /** `toUint16Slice(b, len(b) / 2)`: len(b) / 2 values. */
  function ToHalves(bs: seq<Byte>): (r: seq<U16>)
    ensures |r| == |bs| / 2
  {
    if |bs| < 2 then [] else [HalfOf(bs[0], bs[1])] + ToHalves(bs[2..])
  }

  /** The bytes the uint16 values occupy in memory. */
  function FromHalves(hs: seq<U16>): (r: seq<Byte>)
    ensures |r| == 2 * |hs|
  {
    if hs == [] then [] else HalfBytes(hs[0]) + FromHalves(hs[1..])
  }

  lemma {:induction false} ToFromHalves(hs: seq<U16>, rest: seq<Byte>)
    ensures ToHalves(FromHalves(hs) + rest)[..|hs|] == hs
  {
    if hs != [] {
      var bs := FromHalves(hs) + rest;
      assert bs[0] == hs[0] % 0x100 && bs[1] == hs[0] / 0x100;
      assert HalfOf(bs[0], bs[1]) == hs[0];
      assert bs[2..] == FromHalves(hs[1..]) + rest;
      ToFromHalves(hs[1..], rest);
      var t := ToHalves(bs[2..]);
      assert ToHalves(bs) == [hs[0]] + t;
      assert ToHalves(bs)[..|hs|] == [hs[0]] + t[..|hs| - 1];
    }
  }

  // ---------------------------------------------------------------------
  // The header word

  datatype Header = Header(magic: U32, encoding: Byte, cardinality: U16)

  lemma Pow2Fields()
    ensures Pow2(8) == 0x100 && Pow2(16) == 0x1_0000 && Pow2(32) == 0x1_0000_0000
  {
    Pow2Eight();
    Pow2Add(8, 8);
    assert Pow2(16) == 0x100 * 0x100 == 0x1_0000;
    Pow2Add(16, 16);
    assert Pow2(32) == 0x1_0000 * 0x1_0000 == 0x1_0000_0000;
  }

  lemma {:induction false} Pow2Add(a: nat, b: nat)
    ensures Pow2(a + b) == Pow2(a) * Pow2(b)
  {
    if a > 0 {
      Pow2Add(a - 1, b);
    }
  }

  /**
   * `header.read`: the magic is bits 32..63 (`(v & 0xFFFFFFFF00000000) >> 32`),
   * the encoding bits 24..31 (`(v & 0xFF000000) >> 24`) and the cardinality
   * bits 0..15 (`v & 0xFFFF`).
   */
  function ReadHeader(w: Word): Header
  {
    Pow2Fields();
    Header(Value(w[32..]), Value(w[24..32]), Value(w[..16]))
  }

  /** `header.write`: `uint64(magic)<<32 | uint64(encoding)<<24 | uint64(cardinality)`. */
  function WriteHeader(h: Header): Word
  {
    ToBits(h.cardinality, 16) + ToBits(0, 8) + ToBits(h.encoding, 8) + ToBits(h.magic, 32)
  }

  /** Reading a written header recovers its three fields. */
  lemma ReadWrite(h: Header)
    ensures ReadHeader(WriteHeader(h)) == h
  {
    Pow2Fields();
    var w := WriteHeader(h);
    assert w[32..] == ToBits(h.magic, 32);
    assert w[24..32] == ToBits(h.encoding, 8);
    assert w[..16] == ToBits(h.cardinality, 16);
    ValueOfBits(h.magic, 32);
    ValueOfBits(h.encoding, 8);
    ValueOfBits(h.cardinality, 16);
  }

  /** Rewriting a read header keeps the three fields and clears bits 16..23. */
  lemma RewriteFields(w: Word)
    ensures WriteHeader(ReadHeader(w))[..16] == w[..16]
    ensures WriteHeader(ReadHeader(w))[16..24] == seq(8, _ => false)
    ensures WriteHeader(ReadHeader(w))[24..32] == w[24..32]
    ensures WriteHeader(ReadHeader(w))[32..] == w[32..]
  {
    Pow2Fields();
    BitsOfValue(w[32..]);
    BitsOfValue(w[24..32]);
    BitsOfValue(w[..16]);
    ValueOfZeros(8);
    BitsOfValue(seq(8, _ => false));
  }

  /** Writing what was read gives the word back exactly when its unused bits 16..23 are clear. */
  lemma WriteRead(w: Word)
    ensures WriteHeader(ReadHeader(w)) == w <==> forall i | 16 <= i < 24 :: !w[i]
  {
    var w2 := WriteHeader(ReadHeader(w));
    RewriteFields(w);
    if forall i | 16 <= i < 24 :: !w[i] {
      forall i | 0 <= i < 64 ensures w2[i] == w[i] {
        if i < 16 {
          assert w2[..16][i] == w[..16][i];
        } else if i < 24 {
          assert w2[16..24][i - 16] == false;
        } else if i < 32 {
          assert w2[24..32][i - 24] == w[24..32][i - 24];
        } else {
          assert w2[32..][i - 32] == w[32..][i - 32];
        }
      }
    } else {
      var i :| 16 <= i < 24 && w[i];
      assert w2[16..24][i - 16] == false;
      assert w2[i] != w[i];
    }
  }

  /** The header at the front of a buffer of at least 8 bytes. */
  function HeaderOf(buf: seq<Byte>): Header
    requires |buf| >= HeaderSize
  {
    ReadHeader(WordOf(buf[..HeaderSize]))
  }

  /** The 8 bytes `header.write` stores. */
  function HeaderBytes(h: Header): (r: seq<Byte>)
    ensures |r| == HeaderSize
  {
    WordBytes(WriteHeader(h))
  }

  /** A written header is read back from the front of any buffer it starts. */
  lemma HeaderRoundTrip(h: Header, body: seq<Byte>)
    ensures HeaderOf(HeaderBytes(h) + body) == h
  {
    assert (HeaderBytes(h) + body)[..HeaderSize] == HeaderBytes(h);
    WordOfBytes(WriteHeader(h));
    ReadWrite(h);
  }
}

# bitmaps — a verified model of three integer-set layers

This project models the core of the customerio/bitmaps Go library: three
in-memory representations of sets of unsigned integers, and the wire format
two of them share.

- **`fixed.Bitmap`** (fixed/bitmap.go) is a dense bitset with a fixed
  capacity. It keeps one 64-bit word per 64 values, a cached cardinality and
  a buffer that starts with an 8-byte header word. The header packs a magic
  number, an encoding tag and a 16-bit count. `Marshal` writes small sets as
  an array of `uint16` values and large ones as the raw words.
  `NewBitmapFromBuf` reads either form back.
- **`boring.Bitmap`** (boring/bitmap.go) is a hybrid container. It holds a
  strictly ascending `[]uint16` array (boring/array.go) while it has fewer
  than `sz = bodySize(nbits)/32` values. It switches to a bitset
  (boring/bits.go) at that count, and back when the count drops below it.
  Every binary operation dispatches over the four pairings of encodings. The
  array half relies on merge kernels over sorted slices: `binarySearch`,
  `union2by2`, `intersection2by2` (galloping or local merge), `advanceUntil`
  and `difference`.
- **`bitmaps.Bitmaps`** (bitmaps/bitmaps.go) spreads a large domain over
  chunks. It is a slice of optional `fixed.Bitmap`s, and value `v` lives in
  chunk `v / Bits` at offset `v % Bits`. Chunks are allocated lazily. The
  package offers domain-wide And/Or/AndNot/Flip, rank-based `Range`, and
  paged listing through `NextMany` and `EachBatch`.

## How the model is built

- **Words.** A 64-bit word is a `seq<bool>` of length 64 (module `Words`).
  Go's `&`, `|`, `^`, `&^`, `^x`, shifts and `+1` are functions on it.
  `OnesCount64` and `TrailingZeros64` are specification functions
  (`Popcount`, `TrailingZeros`).
- **Word sequences as sets.** Module `Bitset` reads a sequence of words as a
  set of values:
  - `Has(ws, v)`: the bit of v is set.
  - `Members(ws)`: the values in ascending order.
  - `Card(ws)`: the population count.
  - `Combine`: word-wise and, or and and-not.
  - `Flip`: the three xor steps of `FlipInt`.
- **Format.** The header is a 64-bit word with three fields (module `Format`). The body is
  a sequence of words or of `uint16` halves. Conversions between bytes and
  words are written out in little-endian order.
- **Shared loops.** Module `Dense` holds the in-place loops over a word
  array that both bitsets use: set or clear a bit, combine, count, compare,
  flip a range, and the `nextSetMany` extraction.
- **Classes.**
  - `Fixed.Bitmap`, `Bits.Bitmap`, `Arrays.Array` and `Boring.Bitmap` are
    classes whose fields the methods update in place.
  - `Chunked.Bitmaps` holds a `seq<Fixed.Bitmap?>` and a ghost `state:
    seq<Slot>`, which mirrors each chunk as a value.
  - Each method is proved against specification functions on those values.
- **Sorted kernels.** `Sorted.Union`, `Sorted.Intersect` and `Sorted.Diff`
  are the merges as functions. The cursor loops that write into an output
  array are proved to produce exactly them.

## Model

| member | source | states |
|---|---|---|
| Words.IncrementValue | fixed/bitmap.go:294 | `^word + 1` (ripple-carry increment) adds one to the word's value, modulo 2^64 |
| Words.PopcountSet | fixed/bitmap.go:236-243 | setting bit j raises the population count by one exactly when bit j was clear |
| Words.PopcountClear | fixed/bitmap.go:251-256 | clearing bit j lowers the population count by one exactly when bit j was set |
| Words.AddIncrement | fixed/bitmap.go:242 | `(previous ^ newb) >> j` is 1 when bit j was newly set and 0 otherwise, so `Add`'s count step is right |
| Words.TestBit | fixed/bitmap.go:265 | `word & (1 << p) != 0` holds exactly when bit p is set |
| Words.TrailingZeros | fixed/bitmap.go:293 | the index of the lowest set bit: it is set, every lower bit is clear, and it heads the word's positions |
| Words.IsolateLowest | fixed/bitmap.go:294 | `word & (^word + 1)` is the one-bit word of the lowest set bit |
| Words.ClearLowest | fixed/bitmap.go:300 | `word ^ t` drops exactly the lowest position and lowers the population count by one |
| Words.PositionsInclusionExclusion | fixed/bitmap.go:148-169 | per word, \|x or y\| + \|x and y\| = \|x\| + \|y\| |
| Bitset.MembersProperties | fixed/bitmap.go:269-273 | the listing of a word sequence is strictly ascending, within 64·len, has Card entries, and holds exactly the set bits |
| Bitset.SetBitEffect | fixed/bitmap.go:236-243 | setting v adds exactly v and raises Card by one exactly when v was absent |
| Bitset.ClearBitEffect | fixed/bitmap.go:251-256 | clearing v removes exactly v and lowers Card by one exactly when v was present |
| Bitset.ClearBitTwice | fixed/bitmap.go:251-256 | removing a value twice is the same as removing it once |
| Bitset.CombineHas | fixed/bitmap.go:148-181 | word-wise and / or / and-not hold a value exactly when both / either / the first only hold it |
| Bitset.CardInclusionExclusion | fixed/bitmap.go:148-169 | the union's count plus the intersection's count is the sum of the two counts |
| Bitset.CardSplit | fixed/bitmap.go:172-181 | the difference's count plus the intersection's count is the first operand's count |
| Bitset.CombineAllHas | fixed/bitmap.go:328-349 | folding and/or over many word sequences holds a value exactly when all / some of them do |
| Bitset.CardEmpty | fixed/bitmap.go:231-233 | a count of zero means no value is present, and conversely |
| Bitset.SameBitmap | fixed/bitmap.go:200-223 | equal words (with equal counts) is the same as holding the same values |
| Bitset.FlipEnd | fixed/bitmap.go:195 | the end mask `^0 >> (-stop & 63)` ends the flip at stop when stop % 64 != 0, and never more than one word past stop |
| Bitset.FlipHas | fixed/bitmap.go:185-197 | the three xor steps toggle exactly the values in [start, FlipEnd(stop)) when start <= stop and leave the rest |
| Bitset.FlipHasReversed | boring/bits.go:110-120 | with start > stop the same steps toggle a value exactly when it lies in one, but not both, of: start's word below start, and stop's word below FlipEnd(stop) |
| Bitset.FlipBeyond | fixed/bitmap.go:185-197 | values in words past stop's word are untouched by the flip |
| Format.NumWords | fixed/bitmap.go:365-371 | `toUint64Slice(buf[headerSize:])` of a totalSize(nbits) buffer has nbits/64 + 2 words: the header plus 8 bytes per word is exactly totalSize(nbits), and the words hold more than nbits + 64 bits |
| Format.ToFromWords | fixed/bitmap.go:395-403 | words written out as bytes and read back as words give the same words |
| Format.ToFromHalves | fixed/bitmap.go:405-412 | `uint16` values written as bytes and read back give the same values |
| Format.ReadWrite | fixed/bitmap.go:382-393 | `header.read` of a written header recovers magic, encoding and cardinality |
| Format.WriteRead | fixed/bitmap.go:382-393 | a header word survives read-then-write exactly when its unused byte is zero |
| Format.HeaderRoundTrip | fixed/bitmap.go:382-393 | the header read from a header-led buffer is the header written there |
| Dense.SetValue | fixed/bitmap.go:236-243 | sets bit v in place and returns 1 exactly when v was absent, else 0 |
| Dense.Test | fixed/bitmap.go:259-266 | the bit test agrees with Has |
| Dense.ClearValue | fixed/bitmap.go:251-256 | reports whether v was present and clears it when it was |
| Dense.CombineWith | fixed/bitmap.go:148-181 | combines the first len(o) words in place (the rest untouched) and returns the popcount of the combined prefix |
| Dense.CountBits | fixed/bitmap.go:275-281 | the sum of popcounts is Card of the words |
| Dense.EqualPrefix | fixed/bitmap.go:216-222 | true exactly when the first len(o) words equal o's |
| Dense.FlipRange | fixed/bitmap.go:189-195 | the words become Flip(old words, start, stop) |
| Dense.NextSetMany | fixed/bitmap.go:283-325 | the buffer receives the smallest present values, converted, ascending, as many as fit; the rest of the buffer is unchanged |
| Fixed.Bitmap.constructor | fixed/bitmap.go:43-52 | NewBitmap: NumWords(nbits) zero words, count 0, valid |
| Fixed.Bitmap.Add | fixed/bitmap.go:236-243 | sets bit v, adds exactly v, raises the count by one exactly when v was absent; keeps the count equal to the popcount |
| Fixed.Bitmap.Remove | fixed/bitmap.go:251-256 | when v is present, clears it and lowers the count by one; otherwise nothing changes |
| Fixed.Bitmap.Contains | fixed/bitmap.go:259-266 | the bit of v; a present value implies a positive count in a valid bitmap |
| Fixed.Bitmap.GetCardinality | fixed/bitmap.go:226-228 | the count as a uint64; for a valid bitmap, the number of present values |
| Fixed.Bitmap.IsEmpty | fixed/bitmap.go:231-233 | for a valid bitmap, true exactly when no value is present |
| Fixed.Bitmap.And | fixed/bitmap.go:148-157 | words become the word-wise and over o's words, the count their popcount; o unchanged; valid when capacities match |
| Fixed.Bitmap.Or | fixed/bitmap.go:160-169 | as And, with word-wise or |
| Fixed.Bitmap.AndNot | fixed/bitmap.go:172-181 | as And, with word-wise and-not |
| Fixed.Bitmap.FlipInt | fixed/bitmap.go:185-197 | nothing when start >= stop; otherwise words become Flip(words, start, stop) and the count is recomputed |
| Fixed.Bitmap.ComputeCardinality | fixed/bitmap.go:275-281 | the popcount of all words, equal to the number of present values |
| Fixed.Bitmap.NextSetMany16 | fixed/bitmap.go:283-303 | the buffer gets the smallest present values truncated to uint16, ascending |
| Fixed.Bitmap.NextSetMany32 | fixed/bitmap.go:305-325 | the buffer gets the smallest present values as uint32, ascending |
| Fixed.Bitmap.ToArray | fixed/bitmap.go:269-273 | a fresh array of GetCardinality() entries; for a valid bitmap inside the uint32 domain, every present value once, ascending |
| Fixed.Bitmap.Bytes | fixed/bitmap.go:104-112 | header (bitmap tag, count as uint16) then the words; decodes back to the words and the truncated count |
| Fixed.Bitmap.Marshal | fixed/bitmap.go:118-137 | the buffer is MarshalBytes of its words and count: array-tagged below 1000 values, bitmap-tagged otherwise (MarshalShape), and NewBitmapFromBuf reads it back (MarshalRoundTrip) |
| Fixed.Bitmap.Clone | fixed/bitmap.go:140-145 | a fresh bitmap with the same capacity, words and count |
| Fixed.Bitmap.NextMany | bitmaps/bitmaps.go:246 | at most limit present values at or above offset, ascending, and no present value is skipped before the last one |
| Fixed.TakeFacts | bitmaps/bitmaps.go:214-237 | taking at most n values of an ascending list keeps order, adds nothing and skips nothing before its last value |
| Fixed.AtLeast | bitmaps/bitmaps.go:214-237 | the values of a list at or above offset |
| Fixed.Equals | fixed/bitmap.go:200-223 | both nil, or same capacity, same count and same first len(o) words; for valid bitmaps exactly equal value sets |
| Fixed.BytesRoundTrip | fixed/bitmap.go:104-112 | Bytes() output decodes to the same words with the count mod 2^16 |
| Fixed.InsertHas | fixed/bitmap.go:86-97 | adding the array's values one by one succeeds exactly when each fits the body, and then adds exactly those values |
| Fixed.Decode | fixed/bitmap.go:57-101 | decoding yields NumWords(nbits) words when it succeeds |
| Fixed.FromValues | fixed/bitmap.go:86-97 | an array payload decodes to words whose count is their popcount |
| Fixed.DecodeAccepts | fixed/bitmap.go:57-101 | decoding succeeds exactly when there is a header, the magic matches, and either the bitmap tag comes with totalSize(nbits) bytes or the array tag with as many halves as the header counts, all within the body |
| Fixed.DecodeArray | fixed/bitmap.go:86-97 | a decoded array payload holds exactly the listed values, and its count is their number |
| Fixed.NewBitmapFromBuf | fixed/bitmap.go:57-101 | fails with Decode's error, otherwise builds the decoded words and count |
| Fixed.MarshalRoundTrip | fixed/bitmap.go:118-137 | when the count is below 65536 (the header's count is a uint16) and, in the array form, every value is below 65536 (`nextSetMany16` truncates to uint16), NewBitmapFromBuf(Marshal(b)) gives back b's words and count, in both encodings |
| Fixed.MarshalShape | fixed/bitmap.go:118-137 | Marshal's buffer is array-tagged with 8 + 2·count bytes below 1000 values, bitmap-tagged with totalSize bytes otherwise |
| Fixed.MarshalArrayShape | fixed/bitmap.go:125-135 | the array form's header counts the values and its halves are the ascending values |
| Fixed.Fold | fixed/bitmap.go:328-349 | a clone of the first bitmap combined with each later one: the fold of all their words |
| Fixed.AndBitmaps | fixed/bitmap.go:328-337 | a fresh bitmap holding exactly the values every argument holds (empty bitmap of capacity 0 for none) |
| Fixed.OrBitmaps | fixed/bitmap.go:340-349 | a fresh bitmap holding exactly the values some argument holds (empty bitmap of capacity 0 for none) |
| Fixed.AndNotBitmap | fixed/bitmap.go:352-356 | a fresh valid bitmap holding a's values not in b |
| Fixed.FlipBitmap | fixed/bitmap.go:359-363 | a fresh bitmap whose values below FlipEnd(stop) and at or above start are toggled; the rest as in b |
| Bits.Bitmap.Contains | boring/bits.go:37-40 | the bit of v, which is membership in the listing |
| Bits.Bitmap.BitValue | boring/bits.go:42-48 | 1 exactly when v is present, else 0 |
| Bits.Bitmap.Add | boring/bits.go:50-59 | sets bit v, adds exactly v, raises the count by one exactly when v was absent |
| Bits.Bitmap.Remove | boring/bits.go:61-66 | when v is present, lowers the count and clears it; otherwise nothing changes |
| Bits.Bitmap.And | boring/bits.go:68-77 | word-wise and over o's words, count = popcount of the result |
| Bits.Bitmap.Or | boring/bits.go:79-89 | word-wise or over o's words, count = popcount of the result |
| Bits.Bitmap.AndNot | boring/bits.go:91-101 | word-wise and-not over o's words, count = popcount of the result |
| Bits.Bitmap.AndNotArray | boring/bits.go:103-108 | removes exactly the array's values; every other bit stays |
| Bits.Bitmap.Flip | boring/bits.go:110-120 | words become Flip(words, start, stop) and the count is their popcount |
| Bits.Bitmap.ComputeCardinality | boring/bits.go:122-128 | the popcount, which is the number of present values |
| Bits.Bitmap.Equals | boring/bits.go:130-138 | compares the first len(o) words; with equal lengths, true exactly when the same values are present |
| Bits.Bitmap.EqualsArray | boring/bits.go:140-148 | true exactly when every value of the array is present |
| Bits.Bitmap.NextSetMany16 | boring/bits.go:150-170 | the buffer gets the smallest present values truncated to uint16, ascending |
| Bits.Bitmap.NextSetMany32 | boring/bits.go:172-192 | the buffer gets the smallest present values as uint32, ascending |
| Sorted.UnionSorted | boring/array.go:146-204 | on strictly ascending inputs the merge is strictly ascending and holds exactly the values of either |
| Sorted.UnionMembers | boring/array.go:146-204 | whatever the inputs, the merge loses and adds no value |
| Sorted.IntersectSorted | boring/array.go:206-327 | on strictly ascending inputs the intersection merge is strictly ascending and holds exactly the common values |
| Sorted.IntersectCommutes | boring/array.go:206-218 | on ascending inputs the intersection does not depend on the operands' order |
| Sorted.DiffSorted | boring/array.go:380-435 | on strictly ascending inputs the difference merge is ascending and holds exactly set1's values not in set2 |
| Sorted.BinarySearch | boring/array.go:120-144 | a non-negative result indexes the key; a negative one is -(p+1) for p <= len; on ascending input, every element before p is below the key and every one from p on above it, and the result is non-negative exactly when the key occurs |
| Sorted.AdvanceUntil | boring/array.go:329-378 | a position past pos that skips only values below min and, when inside length, holds a value >= min: the first such position, or length when there is none |
| Sorted.Union2by2 | boring/array.go:146-204 | the buffer's first pos entries are the merge Union(set1, set2); the rest of the buffer is unchanged |
| Sorted.Intersection2by2 | boring/array.go:206-218 | the buffer's first pos entries are Intersect(set1, set2), whichever of galloping and local merge runs |
| Sorted.OnesidedGallopingIntersect2by2 | boring/array.go:220-268 | the buffer's first pos entries are Intersect(smallset, largeset) |
| Sorted.Gallop | boring/array.go:236-262 | the skipped part of the large set takes no part in the intersection |
| Sorted.LocalIntersect2by2 | boring/array.go:270-327 | the buffer's first pos entries are Intersect(set1, set2) |
| Sorted.SkipBelow | boring/array.go:283-312 | steps past exactly the values below the bound |
| Sorted.Difference | boring/array.go:380-435 | the buffer's first pos entries are Diff(set1, set2) |
| Arrays.Array.Add | boring/array.go:9-28 | content stays strictly ascending, gains uint16(v) exactly when absent, and grows by one exactly then |
| Arrays.Array.Contains | boring/array.go:30-33 | true exactly when uint16(v) is in the content |
| Arrays.Array.Remove | boring/array.go:35-43 | content stays ascending, loses exactly uint16(v), and shrinks by one exactly when it was present |
| Arrays.Array.And | boring/array.go:45-48 | content becomes the intersection with o's, ascending |
| Arrays.Array.AndBitmap | boring/array.go:50-60 | content keeps exactly its values present in the bitset, in order |
| Arrays.Array.OrAsWritten | boring/array.go:62-73 | as written, for contents of equal length: the result is o's content (see Findings) |
| Arrays.Array.Or | boring/array.go:62-73 | corrected: content becomes the ascending union of both contents |
| Arrays.Array.AndNot | boring/array.go:75-78 | content becomes its values not in o's, ascending |
| Arrays.Array.AndNotBitmapAsWritten | boring/array.go:80-91 | as written: the content ends empty (see Findings) |
| Arrays.Array.AndNotBitmap | boring/array.go:80-91 | corrected: content keeps exactly its values absent from the bitset, ascending |
| Arrays.Array.Equals | boring/array.go:93-101 | true exactly when the content equals the first len(content) entries of o's |
| Arrays.Array.EqualsBitmap | boring/array.go:103-111 | true exactly when the bitset holds every value of the content |
| Arrays.PresentSubsequence | boring/array.go:50-60 | andBitmap's pos/bitValue compaction keeps order and exactly the present values |
| Arrays.IncreasingBound | boring/array.go:3-7 | a strictly ascending uint16 array has at most 2^16 entries |
| Arrays.InsertAt | boring/array.go:18-26 | inserting at binarySearch's position keeps the array ascending and adds exactly x |
| Arrays.DeleteAt | boring/array.go:37-42 | cutting out the found position removes exactly that value and keeps order |
| Arrays.UnionSelf | boring/array.go:62-73 | merging a content with itself gives it back |
| Arrays.SortedUnique | boring/array.go:93-101 | two ascending arrays of one length with the same values are equal |
| Arrays.OrAsWrittenIsUnion | boring/array.go:62-73 | the as-written result (o's content) is the union exactly when both contents are equal |
| Arrays.AndNotBitmapAsWrittenIsDifference | boring/array.go:80-91 | the as-written empty result is the difference exactly when the bitset holds every value |
| Boring.ThresholdFits | boring/bitmap.go:456-458 | two full arrays (2·sz values) fit the body's capacity, so the merge of `or` stays inside it |
| Boring.CombineMembers | boring/bits.go:68-101 | combining words of one length combines their listings value by value |
| Boring.FlipToggles | boring/bitmap.go:277-293 | the values the clamped flip toggles, for either order of the clamped start and stop |
| Boring.Bitmap.ValuesFacts | boring/bitmap.go:29-35 | the values are ascending and within the words; in bitset encoding they are the set bits and the cached count is their number |
| Boring.Bitmap.constructor | boring/bitmap.go:38-57 | NewBitmap: array-encoded and empty; valid for the capacities modelled |
| Boring.Bitmap.GetCardinality | boring/bitmap.go:329-335 | the array length or the cached count; for a sound bitmap the number of values |
| Boring.Bitmap.IsEmpty | boring/bitmap.go:361-363 | for a sound bitmap, true exactly when there is no value |
| Boring.Bitmap.ConvertEncoding | boring/bitmap.go:337-358 | the encoding becomes the target and the values stay the same |
| Boring.Bitmap.IntoArray | boring/bitmap.go:341-345 | to the array: the bitset's values become the ascending content |
| Boring.Bitmap.IntoBitmap | boring/bitmap.go:346-356 | to the bitset: valid, with the same values |
| Boring.Bitmap.ConvertMaybe | boring/bitmap.go:188-199 | values unchanged; afterwards the array encoding holds fewer than sz values and the bitset encoding at least sz |
| Boring.Bitmap.Add | boring/bitmap.go:155-162 | adds exactly Key(v), which is v truncated to uint16 in the array encoding, and stays valid, converting when the count reaches sz; a bitset stays a bitset |
| Boring.Bitmap.Remove | boring/bitmap.go:170-177 | removes exactly Key(v) and stays valid |
| Boring.Bitmap.Contains | boring/bitmap.go:180-186 | true exactly when Key(v) is a value |
| Boring.Bitmap.And | boring/bitmap.go:202-225 | nothing for nil, itself or another capacity; otherwise the intersection, in the encoding `convertMaybe` settles on (the array below sz values, the bitset from sz on); o keeps its values even when converted and back |
| Boring.Bitmap.IntersectConverting | boring/bitmap.go:216-219 | bitset and array: the intersection in the settled encoding, and o ends valid with its own values |
| Boring.Bitmap.Or | boring/bitmap.go:228-252 | as written: nothing for nil, itself or another capacity; two arrays of one length give o's values; every other pairing gives the union; a bitset receiver stays a bitset, an array receiver ends in the encoding `convertMaybe` settles on |
| Boring.Bitmap.OrCorrected | boring/bitmap.go:228-252 | Or with the corrected array merge: always the union, with Or's encodings afterwards |
| Boring.Bitmap.AndNot | boring/bitmap.go:255-273 | as written: nothing for another capacity; an array minus a bitset ends empty; every other pairing gives the difference; the result is in the encoding `convertMaybe` settles on |
| Boring.Bitmap.AndNotCorrected | boring/bitmap.go:255-273 | AndNot with the corrected andNotBitmap: always the difference, in the settled encoding |
| Boring.Bitmap.SubtractValues | boring/bitmap.go:266-267 | bitset minus array: exactly the array's values leave |
| Boring.Bitmap.AddEach | boring/bitmap.go:244-247 | a bitset takes each array value in turn, giving the union |
| Boring.Bitmap.FlipInt | boring/bitmap.go:277-293 | nothing when start >= stop; otherwise, with start clamped to 0 and stop to nbits-1, the values in [start, FlipEnd(stop)) change presence when start <= stop, and those of ReversedFlip when the clamped start lies past the clamped stop |
| Boring.Bitmap.Bytes | boring/bitmap.go:126-138 | for a valid bitmap, the bytes decode back to what it holds |
| Boring.Bitmap.ValidFits | boring/bitmap.go:126-138 | a valid bitmap's count fits the 16-bit header and its array fits the body |
| Boring.Bitmap.Clone | boring/bitmap.go:149-152 | a fresh valid bitmap of the same capacity, encoding and values |
| Boring.Bitmap.ToArray | boring/bitmap.go:366-376 | a fresh array of every value, ascending |
| Boring.ClearWords | boring/bitmap.go:349-351 | every word zero |
| Boring.Load | boring/bitmap.go:352-355 | from zero words, adding each ascending value gives a valid bitset listing exactly those values |
| Boring.Equals | boring/bitmap.go:296-326 | true exactly when both are nil, or both are present with one capacity and the same values, whatever their encodings |
| Boring.EqualValues | boring/bitmap.go:312-324 | for one capacity and one count, each of the four encoding pairings decides value-set equality |
| Boring.SameValuesEqual | boring/array.go:93-101 | ascending sequences of one length have the same values exactly when they are equal |
| Boring.ContainedEqual | boring/array.go:103-111 | of two ascending sequences of one length, the first lies in the second exactly when they have the same values |
| Boring.Padded | boring/bitmap.go:101-103 | the copy into a zeroed buffer of n bytes: the buffer's bytes, then zeros, cut at n |
| Boring.Decode | boring/bitmap.go:62-123 | succeeds exactly when the buffer holds a header with the right magic and either the bitmap tag or the array tag with a count within the body's capacity; a bitmap payload has NumWords(nbits) words and a 16-bit count |
| Boring.ArrayRoundTrip | boring/bitmap.go:126-138 | an array-encoded Bytes() decodes to its content when it fits the body and the header |
| Boring.BitmapRoundTrip | boring/bitmap.go:126-138 | a bitset-encoded Bytes() decodes to its words and count when the count fits 16 bits |
| Boring.NewBitmapFromBuf | boring/bitmap.go:62-123 | fails with Decode's error, otherwise builds the decoded stored form; a consistent form gives a valid bitmap |
| Boring.FoldedNext | boring/bitmap.go:379-400 | one more bitmap narrows (And) or widens (Or) the fold, and one of another capacity is skipped |
| Boring.Fold | boring/bitmap.go:379-400 | a clone of the first bitmap combined with each later one; the arguments keep their values |
| Boring.AndBitmaps | boring/bitmap.go:379-388 | an empty bitmap of nbits for no argument; else exactly the values held by every argument of the first one's capacity |
| Boring.OrBitmaps | boring/bitmap.go:391-400 | an empty bitmap of nbits for no argument; else exactly the values held by some argument of the first one's capacity |
| Boring.AndNotBitmap | boring/bitmap.go:403-407 | a clone of a after AndNot(b), as written: empty for an array a and a bitset b, otherwise a's values not in b, all of a for another capacity |
| Boring.FlipBitmap | boring/bitmap.go:410-414 | a clone of b after FlipInt(start, stop), with FlipInt's effect on the values |
| Chunked.Fresh | bitmaps/bitmaps.go:149 | a new chunk: present, NumWords(bits) zero words, count 0, holding nothing |
| Chunked.ShiftedFacts | bitmaps/bitmaps.go:185 | offsets placed in a band that fits uint32 stay ascending and unwrapped |
| Chunked.ConcatFacts | bitmaps/bitmaps.go:179-190 | bands concatenated in chunk order form an ascending listing holding exactly each band's values |
| Chunked.ElementsFacts | bitmaps/bitmaps.go:179-190 | the listing of all chunks is ascending and holds exactly the values Contains reports |
| Chunked.SumCardLength | bitmaps/bitmaps.go:124-132 | the sum of the chunks' counts is the length of the listing |
| Chunked.MergeFacts | bitmaps/bitmaps.go:51-91 | merging two present chunks with Fixed's And/Or/AndNot gives a valid chunk holding the combined values |
| Chunked.AndSlotsFacts | bitmaps/bitmaps.go:51-64 | after And, b holds exactly the values both held |
| Chunked.AndOperandsFacts | bitmaps/bitmaps.go:56-57 | after And, o keeps only values in chunks that b has |
| Chunked.OrSlotsFacts | bitmaps/bitmaps.go:67-79 | after Or, b holds exactly the values either held |
| Chunked.AndNotSlotsFacts | bitmaps/bitmaps.go:82-91 | after AndNot, b holds exactly its values not in o |
| Chunked.FlipSlotsFacts | bitmaps/bitmaps.go:95-102 | after Flip every chunk is present and every value of the domain changes presence; tidiness is kept when Bits % 64 != 0 |
| Chunked.FlipStray | bitmaps/bitmaps.go:95-102 | when Bits % 64 == 0 the flip leaves offset Bits set in every chunk, past the chunk's own band |
| Chunked.AddSlotsFacts | bitmaps/bitmaps.go:145-152 | after Add(v), exactly v has been added |
| Chunked.RemoveSlotsFacts | bitmaps/bitmaps.go:160-166 | after Remove(v), exactly v has gone |
| Chunked.MergeInto | bitmaps/bitmaps.go:61 | one Fixed And/Or/AndNot on two chunks is Merge on their slots |
| Chunked.Bitmaps.constructor | bitmaps/bitmaps.go:17-22 | New: sz.Chunks absent chunks, an empty listing |
| Chunked.Bitmaps.Contains | bitmaps/bitmaps.go:169-176 | true exactly when chunk v / Bits is present and holds v % Bits; absent chunks answer false |
| Chunked.Bitmaps.Add | bitmaps/bitmaps.go:145-152 | allocates chunk v / Bits when absent and sets offset v % Bits |
| Chunked.Bitmaps.Remove | bitmaps/bitmaps.go:160-166 | clears offset v % Bits in a present chunk; allocates nothing |
| Chunked.Bitmaps.Clone | bitmaps/bitmaps.go:33-41 | a fresh, independent Bitmaps with the same chunks |
| Chunked.Bitmaps.And | bitmaps/bitmaps.go:51-64 | b becomes the chunk-wise intersection (absent on either side gives absent); o loses the chunks b lacks |
| Chunked.Bitmaps.Or | bitmaps/bitmaps.go:67-79 | b becomes the chunk-wise union, allocating where o has a chunk; o unchanged |
| Chunked.Bitmaps.AndNot | bitmaps/bitmaps.go:82-91 | b loses o's values where both have a chunk |
| Chunked.Bitmaps.Flip | bitmaps/bitmaps.go:95-102 | every chunk present (new where absent) and flipped over [0, Bits) |
| Chunked.Bitmaps.GetCardinality | bitmaps/bitmaps.go:124-132 | the sum of the present chunks' counts modulo 2^64, which is the listing's length modulo 2^64 |
| Chunked.Bitmaps.IsEmpty | bitmaps/bitmaps.go:135-142 | true exactly when every chunk is absent or empty, which is an empty listing |
| Chunked.Bitmaps.ToArray | bitmaps/bitmaps.go:179-190 | chunk after chunk, `chunk*Bits + v` for every value; inside the uint32 domain, every value once, ascending |
| Chunked.Bitmaps.NextMany | bitmaps/bitmaps.go:238-262 | appends to buffer the first limit values at or above i, walking chunk by chunk; more is true exactly when limit values were there to take (for limit 0, when some chunk from i's chunk on is present) |
| Chunked.Bitmaps.Range | bitmaps/bitmaps.go:295-326 | exactly the listing's values of rank start to stop-1, cut at the listing's length |
| Chunked.Bitmaps.EachBatch | bitmaps/bitmaps.go:194-212 | the intended, terminating walk (see Findings): process receives the listing in pages of batchSize until it reports done or an error |
| Chunked.Equals | bitmaps/bitmaps.go:105-121 | true exactly when both are nil, or both have the same chunks, absent and present alike (a nil receiver with a non-nil o dereferences nil in Go) |
| Chunked.EqualsSeesEmptyChunks | bitmaps/bitmaps.go:115-119 | an absent chunk and an empty chunk hold the same values yet make Equals false |
| Chunked.AndAllFacts | bitmaps/bitmaps.go:329-338 | the fold of And holds exactly the values every argument holds |
| Chunked.OrAllFacts | bitmaps/bitmaps.go:341-350 | the fold of Or holds exactly the values some argument holds |
| Chunked.AndBitmaps | bitmaps/bitmaps.go:329-338 | New(sz) for no argument; else a fresh clone of the first folded with And over the rest, which also rewrites the later arguments as And does |
| Chunked.OrBitmaps | bitmaps/bitmaps.go:341-350 | New(sz) for no argument; else a fresh clone of the first folded with Or; the arguments are unchanged |
| Chunked.AndNotBitmap | bitmaps/bitmaps.go:353-357 | a fresh clone of a after AndNot(b) |
| Chunked.RestFacts | bitmaps/bitmaps.go:238-262 | from chunk c at offset off, the chunk walk lists ascending exactly the values at or above c·Bits + off |
| Chunked.RestIsAtLeast | bitmaps/bitmaps.go:238-262 | NextMany's walk from i is the listing's values at or above i |
| Chunked.NextManyFacts | bitmaps/bitmaps.go:214-262 | NextMany's values are the first limit values at or above i: ascending, present, none skipped, and limit of them exactly when the walk has that many |
| Chunked.RangeFacts | bitmaps/bitmaps.go:295-326 | Range's window is the slice of the listing between the clamped ranks |
| Chunked.BatchesConcat | bitmaps/bitmaps.go:194-212 | the pages of the listing concatenate to the listing |
| Chunked.DeliverFacts | bitmaps/bitmaps.go:202-206 | every page but the last one handed over got neither done nor an error; a returned error is the last page's; the walk stops before the last page only after done or an error |
| Chunked.EachBatchCovers | bitmaps/bitmaps.go:194-212 | with a process that never stops it, EachBatch hands over every value of ToArray once, in order, in non-empty pages of at most batchSize, with no error |
| Chunked.NextOffsetAsWritten | bitmaps/bitmaps.go:207 | `buf[len(buf)-1] + 1` in uint32: the next value, or 0 after 4294967295 |
| Chunked.AsWrittenPages | bitmaps/bitmaps.go:194-212 | the pages the loop as written hands over in its first k rounds, at most k of them |
| Chunked.AsWrittenNeverEnds | bitmaps/bitmaps.go:207 | on a listing holding 4294967295 with pages of one value, the loop as written repeats the same page forever |

## Left out

- Byte order: the words and halves of the wire format are read little-endian. The Go code uses the machine's own order through `unsafe`, and calls the format non-portable.
- `toUint64Slice` and `toUint16Slice` are not modelled as unsafe reinterpretations of the byte buffer. Bodies are explicit sequences of words or halves.
- The aliasing between a boring bitmap's array content, its bitset words and its one byte buffer is not modelled. Boring.Bitmap keeps the array half and the bitset half in two separate stores, and the words are cleared at each conversion as the buffer is.
- `NewBitmapFromBuf(buf, nbits, false)` is not modelled. In that mode the bitmap aliases the caller's buffer. Decoding always copies.
- `fixed.Bitmap.NextMany` is not part of fixed/bitmap.go. Fixed.Bitmap.NextMany specifies it abstractly from its use at bitmaps/bitmaps.go:246 and the doc comment there.
- `NextManyInt`, `AddInt` (in all three packages), `Set`, `GetBitmaps` and `Size` are not modelled. The first two are int-typed copies of NextMany and Add. The last three only expose internal slices.
- The `assert` method (boring/bits.go:19-35) is commented out. So is the chunked `FlipBitmap` (bitmaps/bitmaps.go:359-366).
- EachBatch's `process` callback is foreign code, modelled as a pure function from a page to (done, error). A callback that keeps the page buffer or has side effects is not modelled.
- Go index-out-of-range panics become preconditions:
  - a value whose word lies past the body: Bits.Bitmap.Add, Remove, Contains and Flip, and Fixed.Bitmap.Add, Remove, Contains and FlipInt;
  - an operand with more words than the receiver: the And, Or and AndNot methods of Fixed.Bitmap and Bits.Bitmap;
  - a chunk index past the slice: Chunked.Bitmaps.Add, Remove and Contains.
- Fixed.Decode, Fixed.NewBitmapFromBuf, Boring.Decode and Boring.NewBitmapFromBuf: the IndexOutOfRange and BodyOverrun error variants stand for failures that Go does not report as errors.
  - IndexOutOfRange: an array payload value beyond the bitset, which is Add's index panic.
  - BodyOverrun: an array count past the body, where the unsafe slice would reach past the buffer.
- Fixed.AndBitmaps, Fixed.OrBitmaps and Fixed.AndNotBitmap: operands must share one capacity. Go combines over the operand's words, panics when the operand has more of them, and combines a prefix when it has fewer.
- Boring.Small: Boring.Bitmap's validity covers only capacities whose every bit position is a uint16 and whose full count fits the 16-bit header, i.e. 64·NumWords(nbits) < 65536. Beyond that the array encoding truncates values the bitset keeps, and the header count wraps.
- Boring.Bitmap.Add: the precondition `Key(v)/64 < words` also applies in the array encoding. There Go would panic only later, when the array converts to a bitset.
- Arrays.Array.OrAsWritten: it requires the two contents to have equal length. For unequal lengths the Go code copies `o.content[:lb]` past o's length, or reads the receiver's stale memory, and that result is not modelled. Arrays.Array.Or, the union, stands in for those cases, and Boring.Bitmap.Or uses it there.
- Boring.OrBitmaps folds with Boring.Bitmap.OrCorrected, the union, and not with the as-written Or. With the as-written Or the fold's result depends on array lengths, as the Findings row on `array.or` shows.
- Sorted.Intersection2by2, Sorted.Difference, Arrays.Array.And and Arrays.Array.AndNot: the input slices are values and the output buffer is separate. The Go callers pass the receiver's content as both `set1` and `buffer`, and that in-place overlap is not modelled.
- Chunked.Bitmaps.And, Chunked.Bitmaps.Or, Chunked.Bitmaps.AndNot and Chunked.AndBitmaps require the operands to share no chunk object (Separate). Bitmaps that share chunk objects, for example after `Set`, are not modelled.
- Fixed.MarshalRoundTrip: a Marshal of 65536 or more values, or of array-form values of 65536 or more, does not round-trip (the uint16 count wraps, `nextSetMany16` truncates), and the lemma states nothing for those bitmaps.
- Chunked.Bitmaps.And, Or and AndNot require equal chunk counts. Go panics whenever the chunk counts differ (bitmaps/bitmaps.go:52-54, 68-70, 83-85), and that panic is not modelled.
- Chunked.Bitmaps.EachBatch: it requires the domain `Chunks·Bits` to fit in 2^32, and requires no chunk to hold an offset of Bits or more (Tidy).
  - The first keeps the `offset = last + 1` step from wrapping, which is the Findings row.
  - The second excludes the stray values a Flip leaves when Bits % 64 == 0 (Chunked.FlipStray).
  - Outside these the Go loop can repeat or skip pages; only the wrap is exhibited (Chunked.AsWrittenNeverEnds).
- Chunked.Bitmaps.ToArray: the ascending, duplicate-free listing is stated only for tidy chunks inside the uint32 domain. Elsewhere the listing with Go's uint32 wrap is still its exact result.
- Flip end mask: `^uint64(0) >> (-stop & 63)` at fixed/bitmap.go:195 and boring/bits.go:118 flips the whole end word when stop % 64 == 0. This is reproduced, not corrected.
  - Bitset.FlipEnd and Bitset.FlipHas state it.
  - Fixed.Bitmap.FlipInt, Bits.Bitmap.Flip and Boring.Bitmap.FlipInt inherit it.
  - Chunked.FlipStray shows its effect on chunks whose size is a multiple of 64.
- Boring.Bitmap.FlipInt with a start at or past nbits: the clamped start lies past the clamped stop `nbits-1`, and the xor steps then toggle the values that Boring.ReversedFlip describes. This is reproduced as written. No corrected FlipInt is given, because no intended behaviour for such a call is documented.
- Fixed.Bitmap.GetCardinality and Chunked.Bitmaps.GetCardinality keep Go's uint64 wrap. The cached count of a Fixed.Bitmap is an unbounded integer, and the `int` conversion is not modelled.
- Concurrency, I/O and the `errors`/`fmt` message texts are not modelled. Errors are a datatype of causes.

## Findings

| source | as written | input that shows it | evidently intended | confidence | as-written member | corrected member |
|---|---|---|---|---|---|---|
| boring/array.go:62-73 | `array.or` copies `o.content[:lb]` to position lo and merges `b.content[lb:max]` with `o.content`, so for equal lengths both merge operands are o's values and the receiver's are lost | arrays {5} or {3} (both length 1) give {3} | the union of the two arrays, as `union2by2` computes | not executed | Arrays.Array.OrAsWritten, with Arrays.OrAsWrittenIsUnion and Boring.Bitmap.Or | Arrays.Array.Or and Boring.Bitmap.OrCorrected |
| boring/array.go:80-91 | `andNotBitmap` copies the content into `src`, truncates `b.content` to length 0, then ranges over the truncated `b.content` instead of `src`, so no value is added back | array {1, 2} minus a bitset holding {2} gives {} | the array's values absent from the bitset, here {1} | not executed | Arrays.Array.AndNotBitmapAsWritten, with Arrays.AndNotBitmapAsWrittenIsDifference, Boring.Bitmap.AndNot and Boring.AndNotBitmap | Arrays.Array.AndNotBitmap and Boring.Bitmap.AndNotCorrected |
| bitmaps/bitmaps.go:207 | `offset = buf[len(buf)-1] + 1` wraps to 0 in uint32 after the value 4294967295, and the walk starts over from the beginning | a Bitmaps holding 4294967295, batchSize 1, and a process that never reports done: the page [4294967295] is handed over forever | the walk ends after the last value | not executed | Chunked.AsWrittenNeverEnds, with Chunked.AsWrittenPages and Chunked.NextOffsetAsWritten | Chunked.Bitmaps.EachBatch, with Chunked.EachBatchCovers |

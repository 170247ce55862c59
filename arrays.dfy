/**
 * boring.array (boring/array.go): the array half of the hybrid bitmap, an
 * ascending slice of uint16 values living in the body of the hybrid bitmap's
 * byte buffer. Here the content is a sequence the methods reassign, and the
 * buffer contributes only its capacity. The merge kernels are those of module
 * Sorted. A value is `uint16(v)` of the uint32 the caller passes.
 */
module Arrays {
  import opened Words
  import opened Bitset
  import opened Format
  import Sorted
  import Bits

  class Array {
    /** `content`: the values, ascending. */
    var content: seq<U16>
    /** `sz`: the length at which the hybrid bitmap switches to the bitset encoding. */
    const sz: nat
    /** How many uint16 the body of the buffer holds (the capacity of `content`). */
    const capacity: nat

    /** The content is strictly ascending (every operation keeps this). */
    ghost predicate Valid()
      reads this
    {
      Increasing(content)
    }

    /** An array with the given content, threshold and capacity. */
    constructor (content: seq<U16>, sz: nat, capacity: nat)
      ensures this.content == content && this.sz == sz && this.capacity == capacity
    {
      this.content := content;
      this.sz := sz;
      this.capacity := capacity;
    }

    /**
     * `add(v)`: append `uint16(v)` when it is above the last value and the
     * content is shorter than sz, otherwise insert it where binarySearch
     * says it belongs, unless it is already there.
     */
    method Add(v: U32)
      requires Valid()
      modifies this
      ensures Valid()
      ensures forall y :: y in content <==> y in old(content) || y == Trunc16(v)
      ensures |content| == |old(content)| + (if Trunc16(v) in old(content) then 0 else 1)
    {
      var x := Trunc16(v);
      var l := |content|;
      if l > 0 && l < sz && content[l - 1] < x {
        InsertAt(content, l, x);
        assert content[..l] + [x] + content[l..] == content + [x];
        content := content + [x];
        return;
      }
      IncreasingBound(content);
      var loc := Sorted.BinarySearch(content, x);
      if loc < 0 {
        var i := -loc - 1;
        InsertAt(content, i, x);
        content := content[..i] + [x] + content[i..];
      }
    }

    /** `contains(v)`: binarySearch finds `uint16(v)`. */
    method Contains(v: U32) returns (r: bool)
      requires Valid()
      ensures r <==> Trunc16(v) in content
    {
      IncreasingBound(content);
      var loc := Sorted.BinarySearch(content, Trunc16(v));
      r := loc >= 0;
    }

    /** `remove(v)`: cut `uint16(v)` out of the content when binarySearch finds it. */
    method Remove(v: U32)
      requires Valid()
      modifies this
      ensures Valid()
      ensures forall y :: y in content <==> y in old(content) && y != Trunc16(v)
      ensures |content| == |old(content)| - (if Trunc16(v) in old(content) then 1 else 0)
    {
      IncreasingBound(content);
      var loc := Sorted.BinarySearch(content, Trunc16(v));
      if loc >= 0 {
        DeleteAt(content, loc);
        content := content[..loc] + content[loc + 1..];
      }
    }

    /** `and(o)`: intersection2by2 of the two contents, written over this content. */
    method And(o: Array)
      requires Valid() && o.Valid()
      modifies this
      ensures content == Sorted.Intersect(old(content), old(o.content))
      ensures Valid()
      ensures forall y :: y in content <==> y in old(content) && y in old(o.content)
    {
      var buffer := new U16[|content|](_ => 0);
      var length := Sorted.Intersection2by2(content, o.content, buffer);
      Sorted.IntersectSorted(content, o.content);
      content := buffer[..length];
    }

    /**
     * `andBitmap(o)`: keep the values whose bit is set in o, by writing each
     * value at pos and advancing pos by its bitValue.
     */
    method AndBitmap(o: Bits.Bitmap)
      requires Valid()
      requires forall i :: 0 <= i < |content| ==> content[i] / 64 < o.words.Length
      modifies this
      ensures content == Present(old(content), o.words[..])
      ensures Valid()
      ensures forall y :: y in content <==> y in old(content) && Has(o.words[..], y)
    {
      var src := content;
      var buffer := new U16[|src|](_ => 0);
      var pos: nat := 0;
      for i := 0 to |src|
        invariant buffer.Length == |src|
        invariant pos <= i && buffer[..pos] == Present(src[..i], o.words[..])
      {
        assert src[..i + 1][..i] == src[..i];
        buffer[pos] := src[i];
        pos := pos + o.BitValue(src[i]);
      }
      assert src[..|src|] == src;
      PresentSubsequence(src, o.words[..]);
      content := buffer[..pos];
    }

    /**
     * `or(o)` as written: the content is re-viewed with length lb + lo over
     * the body, o's first lb values are copied to position lo, and
     * union2by2 merges positions lb..lb+lo with o into the body. When the two
     * lengths are equal the first operand of the merge is o's own content, so
     * the result is o's content and this array's values are lost. (With
     * unequal lengths the merge reads memory neither slice owns.)
     */
    method OrAsWritten(o: Array)
      requires |content| == |o.content| && |content| + |o.content| <= capacity
      modifies this
      ensures content == old(o.content)
    {
      var lb := |content|;
      var lo := |o.content|;
      var max := lb + lo;
      var old_content := content;
      var body := new U16[max](i requires 0 <= i < max => if i < lb then old_content[i] else 0);
      forall i | lo <= i < max {
        body[i] := o.content[i - lo];
      }
      assert body[lb..max] == o.content;
      var l := Sorted.Union2by2(body[lb..max], o.content, body);
      UnionSelf(o.content);
      content := body[..l];
    }

    /**
     * `or(o)` as evidently intended: union2by2 of this content and o's into
     * the body. The source assumes the two lengths together fit the body.
     */
    method Or(o: Array)
      requires Valid() && o.Valid()
      requires |content| + |o.content| <= capacity
      modifies this
      ensures content == Sorted.Union(old(content), old(o.content))
      ensures Valid()
      ensures forall y :: y in content <==> y in old(content) || y in old(o.content)
    {
      var buffer := new U16[|content| + |o.content|](_ => 0);
      var l := Sorted.Union2by2(content, o.content, buffer);
      Sorted.UnionSorted(content, o.content);
      content := buffer[..l];
    }

    /** `andNot(o)`: difference of the two contents, written over this content. */
    method AndNot(o: Array)
      requires Valid() && o.Valid()
      modifies this
      ensures content == Sorted.Diff(old(content), old(o.content))
      ensures Valid()
      ensures forall y :: y in content <==> y in old(content) && y !in old(o.content)
    {
      var buffer := new U16[|content|](_ => 0);
      var length := Sorted.Difference(content, o.content, buffer);
      Sorted.DiffSorted(content, o.content);
      content := buffer[..length];
    }

    /**
     * `andNotBitmap(o)` as written: the content is copied aside, truncated to
     * length 0, and the loop that re-adds the values absent from o ranges
     * over the truncated content, so it runs no round. The array ends empty.
     */
    method AndNotBitmapAsWritten(o: Bits.Bitmap)
      modifies this
      ensures content == []
    {
      content := content[..0];
    }

    /**
     * `andNotBitmap(o)` as evidently intended: start empty and add back, in
     * order, each saved value that o does not contain.
     */
    method AndNotBitmap(o: Bits.Bitmap)
      requires Valid()
      requires forall i :: 0 <= i < |content| ==> content[i] / 64 < o.words.Length
      modifies this
      ensures Valid()
      ensures forall y :: y in content <==> y in old(content) && !Has(o.words[..], y)
    {
      var src := content;
      content := content[..0];
      for i := 0 to |src|
        invariant Valid()
        invariant forall y :: y in content <==> y in src[..i] && !Has(o.words[..], y)
      {
        assert src[..i + 1] == src[..i] + [src[i]];
        if !o.Contains(src[i]) {
          Add(src[i]);
        }
      }
      assert src[..|src|] == src;
    }

    /** `equals(o)`: compare position by position over this content's length. */
    method Equals(o: Array) returns (eq: bool)
      requires |content| <= |o.content|
      ensures eq == (content == o.content[..|content|])
    {
      var l := |content|;
      for i := 0 to l
        invariant content[..i] == o.content[..i]
      {
        if content[i] != o.content[i] {
          return false;
        }
      }
      assert content == content[..l];
      return true;
    }

    /** `equalsBitmap(o)`: o contains every value of this content. */
    method EqualsBitmap(o: Bits.Bitmap) returns (eq: bool)
      requires forall i :: 0 <= i < |content| ==> content[i] / 64 < o.words.Length
      ensures eq <==> forall i :: 0 <= i < |content| ==> Has(o.words[..], content[i])
    {
      var l := |content|;
      for i := 0 to l
        invariant forall j :: 0 <= j < i ==> Has(o.words[..], content[j])
      {
        if !o.Contains(content[i]) {
          return false;
        }
      }
      return true;
    }
  }

  // ---------------------------------------------------------------------
  // Ascending sequences of uint16

  /** The values of s whose bit is set in ws, in their order. */
  function Present(s: seq<U16>, ws: seq<Word>): (r: seq<U16>)
    ensures |r| <= |s|
  {
    if s == [] then []
    else Present(s[..|s| - 1], ws) + (if Has(ws, s[|s| - 1]) then [s[|s| - 1]] else [])
  }

  /** Present keeps ascending order and exactly the values whose bit is set. */
  lemma {:induction false} PresentSubsequence(s: seq<U16>, ws: seq<Word>)
    requires Increasing(s)
    ensures Increasing(Present(s, ws))
    ensures forall y :: y in Present(s, ws) <==> y in s && Has(ws, y)
  {
    if s != [] {
      var n := |s| - 1;
      PresentSubsequence(s[..n], ws);
      assert s == s[..n] + [s[n]];
      var p := Present(s[..n], ws);
      forall y | y in p ensures y < s[n] {
        var k :| 0 <= k < n && s[k] == y;
      }
      if Has(ws, s[n]) {
        forall i, j | 0 <= i < j < |p| + 1 ensures (p + [s[n]])[i] < (p + [s[n]])[j] {
          assert (p + [s[n]])[i] == p[i] && p[i] in p;
        }
      }
    }
  }

  /** Position i of an ascending sequence holds at least i. */
  lemma {:induction false} AtLeastIndex(s: seq<U16>, i: nat)
    requires Increasing(s) && i < |s|
    ensures s[i] >= i
  {
    if i > 0 {
      AtLeastIndex(s, i - 1);
    }
  }

  /** An ascending sequence of uint16 has at most 2^16 elements. */
  lemma IncreasingBound(s: seq<U16>)
    requires Increasing(s)
    ensures |s| <= 0x1_0000
  {
    if |s| > 0x1_0000 {
      AtLeastIndex(s, 0x1_0000);
    }
  }

  /** Inserting x at the place binarySearch reports keeps the sequence ascending and adds x. */
  lemma InsertAt(s: seq<U16>, i: nat, x: U16)
    requires i <= |s| && Increasing(s)
    requires forall j :: 0 <= j < i ==> s[j] < x
    requires forall j :: i <= j < |s| ==> x < s[j]
    ensures Increasing(s[..i] + [x] + s[i..])
    ensures forall y :: y in s[..i] + [x] + s[i..] <==> y in s || y == x
    ensures x !in s
  {
    var t := s[..i] + [x] + s[i..];
    forall k | 0 <= k < |t|
      ensures t[k] == if k < i then s[k] else if k == i then x else s[k - 1]
    {
    }
    forall a, b | 0 <= a < b < |t|
      ensures t[a] < t[b]
    {
    }
    assert s == s[..i] + s[i..];
  }

  /** Cutting out position i of an ascending sequence removes exactly s[i]. */
  lemma DeleteAt(s: seq<U16>, i: nat)
    requires i < |s| && Increasing(s)
    ensures Increasing(s[..i] + s[i + 1..])
    ensures forall y :: y in s[..i] + s[i + 1..] <==> y in s && y != s[i]
  {
    var t := s[..i] + s[i + 1..];
    assert forall k :: 0 <= k < i ==> t[k] == s[k];
    assert forall k :: i <= k < |t| ==> t[k] == s[k + 1];
    assert s == s[..i] + [s[i]] + s[i + 1..];
  }

  /** Merging a sequence with itself gives it back. */
  lemma {:induction false} UnionSelf(s: seq<U16>)
    ensures Sorted.Union(s, s) == s
  {
    if s != [] {
      UnionSelf(s[1..]);
    }
  }

  /** Two ascending sequences of the same length holding the same values are equal. */
  lemma {:induction false} SortedUnique(a: seq<nat>, b: seq<nat>)
    requires Increasing(a) && Increasing(b) && |a| == |b|
    requires forall y :: y in a <==> y in b
    ensures a == b
    decreases |a|
  {
    if a != [] {
      assert a[0] in a && b[0] in b;
      var i :| 0 <= i < |b| && b[i] == a[0];
      var j :| 0 <= j < |a| && a[j] == b[0];
      assert a[0] == b[0];
      forall y ensures y in a[1..] <==> y in b[1..] {
        if y in a[1..] {
          var k :| 0 <= k < |a| - 1 && a[1..][k] == y;
          assert a[k + 1] == y && y in a && y > b[0];
          var m :| 0 <= m < |b| && b[m] == y;
          assert b[1..][m - 1] == y;
        }
        if y in b[1..] {
          var k :| 0 <= k < |b| - 1 && b[1..][k] == y;
          assert b[k + 1] == y && y in b && y > a[0];
          var m :| 0 <= m < |a| && a[m] == y;
          assert a[1..][m - 1] == y;
        }
      }
      SortedUnique(a[1..], b[1..]);
      assert a == [a[0]] + a[1..];
      assert b == [b[0]] + b[1..];
    }
  }

  /** An ascending sequence all of whose values occur in s is no longer than s. */
  lemma {:induction false} SubsetLength(a: seq<nat>, s: seq<nat>)
    requires Increasing(a)
    requires forall y :: y in a ==> y in s
    ensures |a| <= |s|
    decreases |a|
  {
    if a != [] {
      var n := |a| - 1;
      assert a[n] in a;
      var m :| 0 <= m < |s| && s[m] == a[n];
      var rest := s[..m] + s[m + 1..];
      forall y | y in a[..n] ensures y in rest {
        var k :| 0 <= k < n && a[k] == y;
        assert y in a && y < a[n];
        var j :| 0 <= j < |s| && s[j] == y;
        if j < m {
          assert rest[j] == y;
        } else {
          assert rest[j - 1] == y;
        }
      }
      SubsetLength(a[..n], rest);
    }
  }

  /**
   * An ascending sequence all of whose values lie in another ascending
   * sequence of the same length equals it.
   */
  lemma SubsetEqual(a: seq<nat>, b: seq<nat>)
    requires Increasing(a) && Increasing(b) && |a| == |b|
    requires forall y :: y in a ==> y in b
    ensures a == b
  {
    forall y | y in b ensures y in a {
      if y !in a {
        var m :| 0 <= m < |b| && b[m] == y;
        var rest := b[..m] + b[m + 1..];
        forall z | z in a ensures z in rest {
          var j :| 0 <= j < |b| && b[j] == z;
          if j < m {
            assert rest[j] == z;
          } else {
            assert rest[j - 1] == z;
          }
        }
        SubsetLength(a, rest);
      }
    }
    SortedUnique(a, b);
  }

  /**
   * The as-written `or` of two arrays of equal length yields the second one;
   * that is their union exactly when both already hold the same values.
   */
  lemma OrAsWrittenIsUnion(a: seq<U16>, b: seq<U16>)
    requires Increasing(a) && Increasing(b) && |a| == |b|
    ensures b == Sorted.Union(a, b) <==> a == b
  {
    Sorted.UnionMembers(a, b);
    if a == b {
      UnionSelf(a);
    }
    if b == Sorted.Union(a, b) {
      SubsetEqual(a, b);
    }
  }

  /** The as-written `andNotBitmap` result, empty, is the difference only when every value is in o. */
  lemma AndNotBitmapAsWrittenIsDifference(s: seq<U16>, ws: seq<Word>)
    ensures (forall y :: y in [] <==> y in s && !Has(ws, y)) <==> forall i :: 0 <= i < |s| ==> Has(ws, s[i])
  {
    if !forall i :: 0 <= i < |s| ==> Has(ws, s[i]) {
      var i :| 0 <= i < |s| && !Has(ws, s[i]);
      assert s[i] in s;
    }
  }
}

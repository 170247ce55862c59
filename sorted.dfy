/**
 * The sorted-array kernels of boring/array.go: binary search, galloping
 * search, and the merge loops that compute the union, intersection and
 * difference of two ascending uint16 slices into an output buffer. Each
 * kernel is proved against a recursive definition of the merge it performs
 * (Union, Intersect, Diff); the lemmas then show that on strictly increasing
 * inputs those merges are the sorted set union, intersection and difference.
 * The input slices are values and the output is a separate buffer; the
 * Go callers that pass one slice as both set1 and buffer are not modelled.
 */
module Sorted {
  import opened Words
  import opened Format

  // ---------------------------------------------------------------------
  // The merges, on values

  /** The two-way merge of union2by2: take the smaller head, one copy of equal heads. */
  function Union(a: seq<U16>, b: seq<U16>): (r: seq<U16>)
    ensures |r| <= |a| + |b|
    decreases |a| + |b|
  {
    if a == [] then b
    else if b == [] then a
    else if a[0] < b[0] then [a[0]] + Union(a[1..], b)
    else if a[0] == b[0] then [a[0]] + Union(a[1..], b[1..])
    else [b[0]] + Union(a, b[1..])
  }

  /** The merge of the intersection loops: drop the smaller head, keep equal heads once. */
  function Intersect(a: seq<U16>, b: seq<U16>): (r: seq<U16>)
    ensures |r| <= |a| && |r| <= |b|
    decreases |a| + |b|
  {
    if a == [] || b == [] then []
    else if a[0] < b[0] then Intersect(a[1..], b)
    else if a[0] == b[0] then [a[0]] + Intersect(a[1..], b[1..])
    else Intersect(a, b[1..])
  }

  /** The merge of difference: keep a head smaller than b's, drop equal heads, skip smaller heads of b. */
  function Diff(a: seq<U16>, b: seq<U16>): (r: seq<U16>)
    ensures |r| <= |a|
    decreases |a| + |b|
  {
    if a == [] then []
    else if b == [] then a
    else if a[0] < b[0] then [a[0]] + Diff(a[1..], b)
    else if a[0] == b[0] then Diff(a[1..], b[1..])
    else Diff(a, b[1..])
  }

  /** A value below every element of an ascending sequence extends it at the front. */
  lemma ConsIncreasing(h: U16, s: seq<U16>)
    requires Increasing(s) && forall x :: x in s ==> h < x
    ensures Increasing([h] + s)
  {
    forall i, j | 0 <= i < j < |[h] + s| ensures ([h] + s)[i] < ([h] + s)[j] {
      assert ([h] + s)[j] == s[j - 1] && s[j - 1] in s;
      if i > 0 {
        assert ([h] + s)[i] == s[i - 1];
      }
    }
  }

  /** Dropping the head keeps a sequence ascending, and the head is below the rest. */
  lemma TailIncreasing(s: seq<U16>)
    requires Increasing(s) && s != []
    ensures Increasing(s[1..]) && forall x :: x in s[1..] ==> s[0] < x
  {
  }

  /** union2by2 loses nothing and adds nothing, whatever the inputs. */
  lemma {:induction false} UnionMembers(a: seq<U16>, b: seq<U16>)
    ensures forall x :: x in Union(a, b) <==> x in a || x in b
    decreases |a| + |b|
  {
    if a == [] || b == [] {
    } else if a[0] < b[0] {
      UnionMembers(a[1..], b);
      assert a == [a[0]] + a[1..];
    } else if a[0] == b[0] {
      UnionMembers(a[1..], b[1..]);
      assert a == [a[0]] + a[1..];
      assert b == [b[0]] + b[1..];
    } else {
      UnionMembers(a, b[1..]);
      assert b == [b[0]] + b[1..];
    }
  }

  /** On strictly increasing inputs union2by2 yields their sorted union without duplicates. */
  lemma {:induction false} UnionSorted(a: seq<U16>, b: seq<U16>)
    requires Increasing(a) && Increasing(b)
    ensures Increasing(Union(a, b))
    ensures forall x :: x in Union(a, b) <==> x in a || x in b
    decreases |a| + |b|
  {
    UnionMembers(a, b);
    if a == [] || b == [] {
    } else if a[0] < b[0] {
      TailIncreasing(a);
      UnionSorted(a[1..], b);
      ConsIncreasing(a[0], Union(a[1..], b));
    } else if a[0] == b[0] {
      TailIncreasing(a);
      TailIncreasing(b);
      UnionSorted(a[1..], b[1..]);
      ConsIncreasing(a[0], Union(a[1..], b[1..]));
    } else {
      TailIncreasing(b);
      UnionSorted(a, b[1..]);
      ConsIncreasing(b[0], Union(a, b[1..]));
    }
  }

  /** Everything the intersection merge keeps is in both inputs, whatever the inputs. */
  lemma {:induction false} IntersectMembers(a: seq<U16>, b: seq<U16>)
    ensures forall x :: x in Intersect(a, b) ==> x in a && x in b
    decreases |a| + |b|
  {
    if a == [] || b == [] {
    } else if a[0] < b[0] {
      IntersectMembers(a[1..], b);
    } else if a[0] == b[0] {
      IntersectMembers(a[1..], b[1..]);
    } else {
      IntersectMembers(a, b[1..]);
    }
  }

  /** On strictly increasing inputs the intersection merge yields exactly the common values, ascending. */
  lemma {:induction false} IntersectSorted(a: seq<U16>, b: seq<U16>)
    requires Increasing(a) && Increasing(b)
    ensures Increasing(Intersect(a, b))
    ensures forall x :: x in Intersect(a, b) <==> x in a && x in b
    decreases |a| + |b|
  {
    IntersectMembers(a, b);
    if a == [] || b == [] {
    } else if a[0] < b[0] {
      TailIncreasing(a);
      IntersectSorted(a[1..], b);
      assert a == [a[0]] + a[1..];
    } else if a[0] == b[0] {
      TailIncreasing(a);
      TailIncreasing(b);
      IntersectSorted(a[1..], b[1..]);
      IntersectMembers(a[1..], b[1..]);
      ConsIncreasing(a[0], Intersect(a[1..], b[1..]));
      assert a == [a[0]] + a[1..];
      assert b == [b[0]] + b[1..];
    } else {
      TailIncreasing(b);
      IntersectSorted(a, b[1..]);
      assert b == [b[0]] + b[1..];
    }
  }

  /** The intersection merge does not depend on the order of its inputs. */
  lemma {:induction false} IntersectCommutes(a: seq<U16>, b: seq<U16>)
    ensures Intersect(a, b) == Intersect(b, a)
    decreases |a| + |b|
  {
    if a == [] || b == [] {
    } else if a[0] < b[0] {
      IntersectCommutes(a[1..], b);
    } else if a[0] == b[0] {
      IntersectCommutes(a[1..], b[1..]);
    } else {
      IntersectCommutes(a, b[1..]);
    }
  }

  /** Everything the difference merge keeps comes from its first input, whatever the inputs. */
  lemma {:induction false} DiffMembers(a: seq<U16>, b: seq<U16>)
    ensures forall x :: x in Diff(a, b) ==> x in a
    decreases |a| + |b|
  {
    if a == [] || b == [] {
    } else if a[0] < b[0] {
      DiffMembers(a[1..], b);
    } else if a[0] == b[0] {
      DiffMembers(a[1..], b[1..]);
    } else {
      DiffMembers(a, b[1..]);
    }
  }

  /** The difference merge keeps a subsequence of a, so it stays ascending when a is. */
  lemma {:induction false} DiffIncreasing(a: seq<U16>, b: seq<U16>)
    requires Increasing(a)
    ensures Increasing(Diff(a, b))
    decreases |a| + |b|
  {
    if a == [] || b == [] {
    } else if a[0] < b[0] {
      TailIncreasing(a);
      DiffIncreasing(a[1..], b);
      DiffMembers(a[1..], b);
      ConsIncreasing(a[0], Diff(a[1..], b));
    } else if a[0] == b[0] {
      TailIncreasing(a);
      DiffIncreasing(a[1..], b[1..]);
    } else {
      DiffIncreasing(a, b[1..]);
    }
  }

  /** On strictly increasing inputs the difference merge keeps exactly the values of a not in b. */
  lemma {:induction false} DiffExact(a: seq<U16>, b: seq<U16>)
    requires Increasing(a) && Increasing(b)
    ensures forall x :: x in Diff(a, b) <==> x in a && x !in b
    decreases |a| + |b|
  {
    DiffMembers(a, b);
    if a == [] || b == [] {
    } else if a[0] < b[0] {
      TailIncreasing(a);
      TailIncreasing(b);
      DiffExact(a[1..], b);
      assert a == [a[0]] + a[1..];
      assert b == [b[0]] + b[1..];
    } else if a[0] == b[0] {
      TailIncreasing(a);
      TailIncreasing(b);
      DiffExact(a[1..], b[1..]);
      assert a == [a[0]] + a[1..];
      assert b == [b[0]] + b[1..];
    } else {
      TailIncreasing(a);
      TailIncreasing(b);
      DiffExact(a, b[1..]);
      assert a == [a[0]] + a[1..];
      assert b == [b[0]] + b[1..];
    }
  }

  /** On strictly increasing inputs the difference merge yields the values of a not in b, ascending. */
  lemma DiffSorted(a: seq<U16>, b: seq<U16>)
    requires Increasing(a) && Increasing(b)
    ensures Increasing(Diff(a, b))
    ensures forall x :: x in Diff(a, b) <==> x in a && x !in b
  {
    DiffIncreasing(a, b);
    DiffExact(a, b);
  }

  // One step of each merge, at positions i and j of the inputs.

  lemma UnionStep(a: seq<U16>, b: seq<U16>, i: nat, j: nat)
    requires i < |a| && j < |b|
    ensures Union(a[i..], b[j..]) ==
      if a[i] < b[j] then [a[i]] + Union(a[i + 1..], b[j..])
      else if a[i] == b[j] then [a[i]] + Union(a[i + 1..], b[j + 1..])
      else [b[j]] + Union(a[i..], b[j + 1..])
  {
    assert a[i..][1..] == a[i + 1..];
    assert b[j..][1..] == b[j + 1..];
  }

  lemma IntersectStep(a: seq<U16>, b: seq<U16>, i: nat, j: nat)
    requires i < |a| && j < |b|
    ensures Intersect(a[i..], b[j..]) ==
      if a[i] < b[j] then Intersect(a[i + 1..], b[j..])
      else if a[i] == b[j] then [a[i]] + Intersect(a[i + 1..], b[j + 1..])
      else Intersect(a[i..], b[j + 1..])
  {
    assert a[i..][1..] == a[i + 1..];
    assert b[j..][1..] == b[j + 1..];
  }

  lemma DiffStep(a: seq<U16>, b: seq<U16>, i: nat, j: nat)
    requires i < |a| && j < |b|
    ensures Diff(a[i..], b[j..]) ==
      if a[i] < b[j] then [a[i]] + Diff(a[i + 1..], b[j..])
      else if a[i] == b[j] then Diff(a[i + 1..], b[j + 1..])
      else Diff(a[i..], b[j + 1..])
  {
    assert a[i..][1..] == a[i + 1..];
    assert b[j..][1..] == b[j + 1..];
  }

  lemma UnionFirst(a: seq<U16>, b: seq<U16>, i: nat, j: nat)
    requires i < |a| && j < |b| && a[i] < b[j]
    ensures Union(a[i..], b[j..]) == [a[i]] + Union(a[i + 1..], b[j..])
  {
    UnionStep(a, b, i, j);
  }

  lemma UnionBoth(a: seq<U16>, b: seq<U16>, i: nat, j: nat)
    requires i < |a| && j < |b| && a[i] == b[j]
    ensures Union(a[i..], b[j..]) == [a[i]] + Union(a[i + 1..], b[j + 1..])
  {
    UnionStep(a, b, i, j);
  }

  lemma UnionSecond(a: seq<U16>, b: seq<U16>, i: nat, j: nat)
    requires i < |a| && j < |b| && b[j] < a[i]
    ensures Union(a[i..], b[j..]) == [b[j]] + Union(a[i..], b[j + 1..])
  {
    UnionStep(a, b, i, j);
  }

  lemma DiffKeep(a: seq<U16>, b: seq<U16>, i: nat, j: nat)
    requires i < |a| && j < |b| && a[i] < b[j]
    ensures Diff(a[i..], b[j..]) == [a[i]] + Diff(a[i + 1..], b[j..])
  {
    DiffStep(a, b, i, j);
  }

  lemma DiffDropBoth(a: seq<U16>, b: seq<U16>, i: nat, j: nat)
    requires i < |a| && j < |b| && a[i] == b[j]
    ensures Diff(a[i..], b[j..]) == Diff(a[i + 1..], b[j + 1..])
  {
    DiffStep(a, b, i, j);
  }

  lemma DiffDropSecond(a: seq<U16>, b: seq<U16>, i: nat, j: nat)
    requires i < |a| && j < |b| && b[j] < a[i]
    ensures Diff(a[i..], b[j..]) == Diff(a[i..], b[j + 1..])
  {
    DiffStep(a, b, i, j);
  }

  lemma IntersectDropFirst(a: seq<U16>, b: seq<U16>, i: nat, j: nat)
    requires i < |a| && j < |b| && a[i] < b[j]
    ensures Intersect(a[i..], b[j..]) == Intersect(a[i + 1..], b[j..])
  {
    IntersectStep(a, b, i, j);
  }

  lemma IntersectKeep(a: seq<U16>, b: seq<U16>, i: nat, j: nat)
    requires i < |a| && j < |b| && a[i] == b[j]
    ensures Intersect(a[i..], b[j..]) == [a[i]] + Intersect(a[i + 1..], b[j + 1..])
  {
    IntersectStep(a, b, i, j);
  }

  lemma IntersectDropSecond(a: seq<U16>, b: seq<U16>, i: nat, j: nat)
    requires i < |a| && j < |b| && b[j] < a[i]
    ensures Intersect(a[i..], b[j..]) == Intersect(a[i..], b[j + 1..])
  {
    IntersectStep(a, b, i, j);
  }

  /** Values of b below a's head at positions j..r-1 take no part in the intersection. */
  lemma {:induction false} IntersectSkip(a: seq<U16>, b: seq<U16>, i: nat, j: nat, r: nat)
    requires i < |a| && j <= r <= |b|
    requires forall t :: j <= t < r ==> b[t] < a[i]
    ensures Intersect(a[i..], b[j..]) == Intersect(a[i..], b[r..])
    decreases r - j
  {
    if j < r {
      IntersectStep(a, b, i, j);
      IntersectSkip(a, b, i, j + 1, r);
    }
  }

  /** Values of a below b's head at positions i..r-1 take no part in the intersection. */
  lemma {:induction false} IntersectSkipFirst(a: seq<U16>, b: seq<U16>, i: nat, r: nat, j: nat)
    requires i <= r <= |a| && j < |b|
    requires forall t :: i <= t < r ==> a[t] < b[j]
    ensures Intersect(a[i..], b[j..]) == Intersect(a[r..], b[j..])
    decreases r - i
  {
    if i < r {
      IntersectDropFirst(a, b, i, j);
      IntersectSkipFirst(a, b, i + 1, r, j);
    }
  }

  // ---------------------------------------------------------------------
  // The kernels

  /**
   * `binarySearch(array, ikey)`: halve [low, high] while it spans more than
   * 16 elements, then scan. A non-negative result is an index holding the
   * key; a negative one is -(p+1) for the position p where the scan stopped,
   * which on an ascending slice is where the key would be inserted. The
   * midpoint is computed on 32 bits, so the slice is limited to 2^31 elements.
   */
  method BinarySearch(values: seq<U16>, ikey: U16) returns (r: int)
    requires |values| <= 0x8000_0000
    ensures 0 <= r ==> r < |values| && values[r] == ikey
    ensures r < 0 ==> -(r + 1) <= |values|
    ensures r < 0 && Increasing(values) ==>
              (forall i :: 0 <= i < -(r + 1) ==> values[i] < ikey) &&
              (forall i :: -(r + 1) <= i < |values| ==> ikey < values[i])
    ensures Increasing(values) ==> (0 <= r <==> ikey in values)
  {
    ghost var sorted := Increasing(values);
    var low := 0;
    var high := |values| - 1;
    while low + 16 <= high
      invariant 0 <= low && high < |values| && low <= high + 1
      invariant sorted ==> forall i :: 0 <= i < low ==> values[i] < ikey
      invariant sorted ==> forall i :: high < i < |values| ==> ikey < values[i]
    {
      var middleIndex := Trunc32(low + high) / 2;
      var middleValue := values[middleIndex];
      if middleValue < ikey {
        low := middleIndex + 1;
      } else if middleValue > ikey {
        high := middleIndex - 1;
      } else {
        return middleIndex;
      }
    }
    while low <= high
      invariant 0 <= low && high < |values| && low <= high + 1
      invariant sorted ==> forall i :: 0 <= i < low ==> values[i] < ikey
      invariant sorted ==> forall i :: high < i < |values| ==> ikey < values[i]
    {
      var val := values[low];
      if val >= ikey {
        if val == ikey {
          return low;
        }
        break;
      }
      low := low + 1;
    }
    r := -(low + 1);
  }

  /**
   * `advanceUntil(array, pos, length, min)`: the first position after pos
   * holding a value at least min, or length when there is none. It probes
   * pos+1, then doubles a span until it overshoots, then bisects the last
   * span. Only the part of the slice after pos is read, and it must be
   * ascending.
   */
  method AdvanceUntil(values: seq<U16>, pos: nat, length: nat, min: U16) returns (r: nat)
    requires length <= |values|
    requires forall i, j :: pos < i < j < length ==> values[i] < values[j]
    ensures pos < r && (r <= length || r == pos + 1)
    ensures forall j :: pos < j < r && j < length ==> values[j] < min
    ensures r < length ==> min <= values[r]
  {
    var lower := pos + 1;
    if lower >= length || values[lower] >= min {
      return lower;
    }
    var spansize := 1;
    while lower + spansize < length && values[lower + spansize] < min
      invariant 1 <= spansize && lower + spansize / 2 < length
      invariant values[lower + spansize / 2] < min
      decreases length - spansize
    {
      spansize := spansize * 2;
    }
    var upper;
    if lower + spansize < length {
      upper := lower + spansize;
    } else {
      upper := length - 1;
    }
    if values[upper] == min {
      return upper;
    }
    if values[upper] < min {
      return length;
    }
    lower := lower + spansize / 2;
    var mid := 0;
    while lower + 1 != upper
      invariant pos < lower < upper < length
      invariant values[lower] < min < values[upper]
      decreases upper - lower
    {
      mid := (lower + upper) / 2;
      if values[mid] == min {
        return mid;
      } else if values[mid] < min {
        lower := mid;
      } else {
        upper := mid;
      }
    }
    return upper;
  }

  /** `buffer[pos] = x; pos++`. */
  method Put(buffer: array<U16>, pos: nat, x: U16) returns (next: nat)
    requires pos < buffer.Length
    modifies buffer
    ensures next == pos + 1
    ensures buffer[..next] == old(buffer[..pos]) + [x]
    ensures forall j :: next <= j < buffer.Length ==> buffer[j] == old(buffer[j])
  {
    buffer[pos] := x;
    next := pos + 1;
  }

  /** Moving the next output element from the pending merge to the written prefix. */
  lemma Emitted(done: seq<U16>, x: U16, rest: seq<U16>, u: seq<U16>)
    requires done + ([x] + rest) == u
    ensures (done + [x]) + rest == u && |done| < |u|
  {
    assert done + ([x] + rest) == (done + [x]) + rest;
  }

  /** Writes the next output element x and moves it from the pending merge to the written prefix. */
  method Keep(buffer: array<U16>, pos: nat, x: U16, ghost done: seq<U16>, ghost rest: seq<U16>, ghost u: seq<U16>)
    returns (next: nat, ghost done': seq<U16>)
    requires pos == |done| && done + ([x] + rest) == u && |u| <= buffer.Length && buffer[..pos] == done
    modifies buffer
    ensures next == pos + 1 == |done'| <= |u| && buffer[..next] == done' && done' + rest == u
    ensures forall j :: next <= j < buffer.Length ==> buffer[j] == old(buffer[j])
  {
    Emitted(done, x, rest, u);
    next := Put(buffer, pos, x);
    done' := done + [x];
  }

  /** `copy(dst[at:], src[from:])`; returns the position after the copy. */
  method Copy(dst: array<U16>, at: nat, src: seq<U16>, from: nat) returns (end: nat)
    requires from <= |src| && at + (|src| - from) <= dst.Length
    modifies dst
    ensures end == at + (|src| - from)
    ensures dst[..end] == old(dst[..at]) + src[from..]
    ensures forall j :: end <= j < dst.Length ==> dst[j] == old(dst[j])
  {
    forall i | 0 <= i < |src| - from {
      dst[at + i] := src[from + i];
    }
    end := at + (|src| - from);
    assert dst[..end] == old(dst[..at]) + src[from..];
  }

  /** Copies the rest of src after the written prefix, which completes the merge. */
  method Flush(buffer: array<U16>, pos: nat, src: seq<U16>, from: nat, ghost done: seq<U16>, ghost u: seq<U16>)
    returns (end: nat)
    requires from <= |src| && pos == |done| && done + src[from..] == u && |u| <= buffer.Length
    requires buffer[..pos] == done
    modifies buffer
    ensures end <= buffer.Length && buffer[..end] == u
    ensures forall j :: end <= j < buffer.Length ==> buffer[j] == old(buffer[j])
  {
    end := Copy(buffer, pos, src, from);
  }

  /**
   * `union2by2(set1, set2, buffer)`: merge the two slices into the buffer,
   * which must have room for the result; returns its length.
   */
  method Union2by2(set1: seq<U16>, set2: seq<U16>, buffer: array<U16>) returns (pos: nat)
    requires |Union(set1, set2)| <= buffer.Length
    modifies buffer
    ensures pos <= buffer.Length && buffer[..pos] == Union(set1, set2)
    ensures forall j :: pos <= j < buffer.Length ==> buffer[j] == old(buffer[j])
  {
    pos := 0;
    var k1 := 0;
    var k2 := 0;
    if 0 == |set2| {
      pos := Copy(buffer, 0, set1, 0);
      return;
    }
    if 0 == |set1| {
      pos := Copy(buffer, 0, set2, 0);
      return;
    }
    ghost var u := Union(set1, set2);
    var s1 := set1[k1];
    var s2 := set2[k2];
    ghost var done: seq<U16> := [];
    while true
      invariant k1 < |set1| && k2 < |set2| && s1 == set1[k1] && s2 == set2[k2]
      invariant pos == |done| <= |u| <= buffer.Length
      invariant buffer[..pos] == done && done + Union(set1[k1..], set2[k2..]) == u
      invariant forall j :: pos <= j < buffer.Length ==> buffer[j] == old(buffer[j])
      decreases |set1| - k1 + |set2| - k2
    {
      if s1 < s2 {
        UnionFirst(set1, set2, k1, k2);
        pos, done := Keep(buffer, pos, s1, done, Union(set1[k1 + 1..], set2[k2..]), u);
        k1 := k1 + 1;
        if k1 >= |set1| {
          assert set1[k1..] == [];
          pos := Flush(buffer, pos, set2, k2, done, u);
          return;
        }
        s1 := set1[k1];
      } else if s1 == s2 {
        UnionBoth(set1, set2, k1, k2);
        pos, done := Keep(buffer, pos, s1, done, Union(set1[k1 + 1..], set2[k2 + 1..]), u);
        k1 := k1 + 1;
        k2 := k2 + 1;
        if k1 >= |set1| {
          assert set1[k1..] == [];
          pos := Flush(buffer, pos, set2, k2, done, u);
          return;
        }
        if k2 >= |set2| {
          assert set2[k2..] == [];
          pos := Flush(buffer, pos, set1, k1, done, u);
          return;
        }
        s1 := set1[k1];
        s2 := set2[k2];
      } else {
        UnionSecond(set1, set2, k1, k2);
        pos, done := Keep(buffer, pos, s2, done, Union(set1[k1..], set2[k2 + 1..]), u);
        k2 := k2 + 1;
        if k2 >= |set2| {
          assert set2[k2..] == [];
          pos := Flush(buffer, pos, set1, k1, done, u);
          return;
        }
        s2 := set2[k2];
      }
    }
  }

  /**
   * `intersection2by2(set1, set2, buffer)`: gallop through the larger slice
   * when one is more than 64 times longer than the other, else merge both.
   * Galloping relies on the larger slice being ascending.
   */
  method Intersection2by2(set1: seq<U16>, set2: seq<U16>, buffer: array<U16>) returns (pos: nat)
    requires |set1| * 64 < |set2| ==> Increasing(set2)
    requires |set2| * 64 < |set1| ==> Increasing(set1)
    requires |Intersect(set1, set2)| <= buffer.Length
    modifies buffer
    ensures pos <= buffer.Length && buffer[..pos] == Intersect(set1, set2)
    ensures forall j :: pos <= j < buffer.Length ==> buffer[j] == old(buffer[j])
  {
    if |set1| * 64 < |set2| {
      pos := OnesidedGallopingIntersect2by2(set1, set2, buffer);
    } else if |set2| * 64 < |set1| {
      IntersectCommutes(set1, set2);
      pos := OnesidedGallopingIntersect2by2(set2, set1, buffer);
    } else {
      pos := LocalIntersect2by2(set1, set2, buffer);
    }
  }

  /**
   * The galloping step: `advanceUntil(largeset, k1, len(largeset), smallset[k2])`,
   * with the values it passes over shown to take no part in the intersection.
   */
  method Gallop(smallset: seq<U16>, largeset: seq<U16>, k2: nat, k1: nat) returns (r: nat)
    requires k2 < |smallset| && k1 < |largeset| && Increasing(largeset)
    ensures k1 < r <= |largeset|
    ensures Intersect(smallset[k2..], largeset[k1 + 1..]) == Intersect(smallset[k2..], largeset[r..])
    ensures r < |largeset| ==> smallset[k2] <= largeset[r]
  {
    r := AdvanceUntil(largeset, k1, |largeset|, smallset[k2]);
    IntersectSkip(smallset, largeset, k2, k1 + 1, r);
  }


  /**
   * `onesidedgallopingintersect2by2(smallset, largeset, buffer)`: walk the
   * small slice and find each of its values in the large one with
   * advanceUntil. The large slice is read at position 0 when the small one is
   * not empty, so it must not be empty then.
   */
  method OnesidedGallopingIntersect2by2(smallset: seq<U16>, largeset: seq<U16>, buffer: array<U16>) returns (pos: nat)
    requires 0 < |smallset| ==> 0 < |largeset|
    requires Increasing(largeset)
    requires |Intersect(smallset, largeset)| <= buffer.Length
    modifies buffer
    ensures pos <= buffer.Length && buffer[..pos] == Intersect(smallset, largeset)
    ensures forall j :: pos <= j < buffer.Length ==> buffer[j] == old(buffer[j])
  {
    if 0 == |smallset| {
      return 0;
    }
    ghost var u := Intersect(smallset, largeset);
    ghost var done: seq<U16> := [];
    var k1 := 0;
    var k2 := 0;
    pos := 0;
    var s1 := largeset[k1];
    var s2 := smallset[k2];
    while true
      invariant k1 < |largeset| && k2 < |smallset| && s1 == largeset[k1] && s2 == smallset[k2]
      invariant pos == |done| <= |u| <= buffer.Length
      invariant buffer[..pos] == done && done + Intersect(smallset[k2..], largeset[k1..]) == u
      invariant forall j :: pos <= j < buffer.Length ==> buffer[j] == old(buffer[j])
      decreases |smallset| - k2
    {
      if s1 < s2 {
        IntersectDropSecond(smallset, largeset, k2, k1);
        k1 := Gallop(smallset, largeset, k2, k1);
        if k1 == |largeset| {
          assert largeset[k1..] == [];
          return;
        }
        s1 := largeset[k1];
      }
      if s2 < s1 {
        IntersectDropFirst(smallset, largeset, k2, k1);
        k2 := k2 + 1;
        if k2 == |smallset| {
          assert smallset[k2..] == [];
          return;
        }
        s2 := smallset[k2];
      } else {
        IntersectKeep(smallset, largeset, k2, k1);
        pos, done := Keep(buffer, pos, s2, done, Intersect(smallset[k2 + 1..], largeset[k1 + 1..]), u);
        k2 := k2 + 1;
        if k2 == |smallset| {
          assert smallset[k2..] == [];
          return;
        }
        s2 := smallset[k2];
        k1 := Gallop(smallset, largeset, k2, k1);
        if k1 == |largeset| {
          assert largeset[k1..] == [];
          return;
        }
        s1 := largeset[k1];
      }
    }
  }

  /**
   * `localintersect2by2(set1, set2, buffer)`: skip ahead in whichever slice
   * has the smaller head until it catches up, and keep equal heads.
   */
  method LocalIntersect2by2(set1: seq<U16>, set2: seq<U16>, buffer: array<U16>) returns (pos: nat)
    requires |Intersect(set1, set2)| <= buffer.Length
    modifies buffer
    ensures pos <= buffer.Length && buffer[..pos] == Intersect(set1, set2)
    ensures forall j :: pos <= j < buffer.Length ==> buffer[j] == old(buffer[j])
  {
    if 0 == |set1| || 0 == |set2| {
      return 0;
    }
    ghost var u := Intersect(set1, set2);
    ghost var done: seq<U16> := [];
    var k1 := 0;
    var k2 := 0;
    pos := 0;
    var s1 := set1[k1];
    var s2 := set2[k2];
    while true
      invariant k1 < |set1| && k2 < |set2| && s1 == set1[k1] && s2 == set2[k2]
      invariant pos == |done| <= |u| <= buffer.Length
      invariant buffer[..pos] == done && done + Intersect(set1[k1..], set2[k2..]) == u
      invariant forall j :: pos <= j < buffer.Length ==> buffer[j] == old(buffer[j])
      decreases |set1| - k1 + |set2| - k2
    {
      if s2 < s1 {
        var k := SkipBelow(set2, k2, s1);
        IntersectSkip(set1, set2, k1, k2, k);
        k2 := k;
        if k2 == |set2| {
          assert set2[k2..] == [];
          return;
        }
        s2 := set2[k2];
      }
      if s1 < s2 {
        var k := SkipBelow(set1, k1, s2);
        IntersectSkipFirst(set1, set2, k1, k, k2);
        k1 := k;
        if k1 == |set1| {
          assert set1[k1..] == [];
          return;
        }
        s1 := set1[k1];
      } else {
        IntersectKeep(set1, set2, k1, k2);
        pos, done := Keep(buffer, pos, s1, done, Intersect(set1[k1 + 1..], set2[k2 + 1..]), u);
        k1 := k1 + 1;
        if k1 == |set1| {
          assert set1[k1..] == [];
          return;
        }
        s1 := set1[k1];
        k2 := k2 + 1;
        if k2 == |set2| {
          assert set2[k2..] == [];
          return;
        }
        s2 := set2[k2];
      }
    }
  }

  /**
   * The skipping loops of localintersect2by2: step past the values below
   * bound, starting at k0 (whose value is below it); stop at the first value
   * at least bound or at the end.
   */
  method SkipBelow(values: seq<U16>, k0: nat, bound: U16) returns (k: nat)
    requires k0 < |values| && values[k0] < bound
    ensures k0 < k <= |values|
    ensures forall t :: k0 <= t < k ==> values[t] < bound
    ensures k < |values| ==> bound <= values[k]
  {
    k := k0;
    while true
      invariant k0 <= k < |values| && forall t :: k0 <= t <= k ==> values[t] < bound
      decreases |values| - k
    {
      k := k + 1;
      if k == |values| {
        return;
      }
      if values[k] >= bound {
        return;
      }
    }
  }

  /**
   * `difference(set1, set2, buffer)`: keep the heads of set1 smaller than
   * set2's, drop equal heads, skip smaller heads of set2, and copy what is
   * left of set1 once set2 runs out.
   */
  method Difference(set1: seq<U16>, set2: seq<U16>, buffer: array<U16>) returns (pos: nat)
    requires |Diff(set1, set2)| <= buffer.Length
    modifies buffer
    ensures pos <= buffer.Length && buffer[..pos] == Diff(set1, set2)
    ensures forall j :: pos <= j < buffer.Length ==> buffer[j] == old(buffer[j])
  {
    if 0 == |set2| {
      for k := 0 to |set1|
        invariant buffer[..k] == set1[..k]
        invariant forall j :: k <= j < buffer.Length ==> buffer[j] == old(buffer[j])
      {
        buffer[k] := set1[k];
      }
      assert set1[..|set1|] == set1;
      return |set1|;
    }
    if 0 == |set1| {
      return 0;
    }
    ghost var u := Diff(set1, set2);
    ghost var done: seq<U16> := [];
    pos := 0;
    var k1 := 0;
    var k2 := 0;
    var s1 := set1[k1];
    var s2 := set2[k2];
    while true
      invariant k1 < |set1| && k2 < |set2| && s1 == set1[k1] && s2 == set2[k2]
      invariant pos == |done| <= |u| <= buffer.Length
      invariant buffer[..pos] == done && done + Diff(set1[k1..], set2[k2..]) == u
      invariant forall j :: pos <= j < buffer.Length ==> buffer[j] == old(buffer[j])
      decreases |set1| - k1 + |set2| - k2
    {
      if s1 < s2 {
        DiffKeep(set1, set2, k1, k2);
        pos, done := Keep(buffer, pos, s1, done, Diff(set1[k1 + 1..], set2[k2..]), u);
        k1 := k1 + 1;
        if k1 >= |set1| {
          assert set1[k1..] == [];
          return;
        }
        s1 := set1[k1];
      } else if s1 == s2 {
        DiffDropBoth(set1, set2, k1, k2);
        k1 := k1 + 1;
        k2 := k2 + 1;
        if k1 >= |set1| {
          assert set1[k1..] == [];
          return;
        }
        s1 := set1[k1];
        if k2 >= |set2| {
          assert set2[k2..] == [];
          pos, done := DrainRest(set1, k1, buffer, pos, done, u);
          return;
        }
        s2 := set2[k2];
      } else {
        DiffDropSecond(set1, set2, k1, k2);
        k2 := k2 + 1;
        if k2 >= |set2| {
          assert set2[k2..] == [];
          pos, done := DrainRest(set1, k1, buffer, pos, done, u);
          return;
        }
        s2 := set2[k2];
      }
    }
  }

  /** The tail loop of difference: `for ; k1 < len(set1); k1++ { buffer[pos] = set1[k1]; pos++ }`. */
  method DrainRest(set1: seq<U16>, k1: nat, buffer: array<U16>, pos0: nat, ghost done0: seq<U16>, ghost u: seq<U16>)
    returns (pos: nat, ghost done: seq<U16>)
    requires k1 <= |set1| && pos0 == |done0| && |u| <= buffer.Length
    requires done0 + set1[k1..] == u && buffer[..pos0] == done0
    modifies buffer
    ensures pos == |u| && buffer[..pos] == u && done == u
    ensures forall j :: pos <= j < buffer.Length ==> buffer[j] == old(buffer[j])
  {
    pos, done := pos0, done0;
    var k := k1;
    while k < |set1|
      invariant k1 <= k <= |set1| && pos == |done| <= |u|
      invariant buffer[..pos] == done && done + set1[k..] == u
      invariant forall j :: pos <= j < buffer.Length ==> buffer[j] == old(buffer[j])
    {
      assert set1[k..] == [set1[k]] + set1[k + 1..];
      pos, done := Keep(buffer, pos, set1[k], done, set1[k + 1..], u);
      k := k + 1;
    }
    assert set1[k..] == [];
  }
}

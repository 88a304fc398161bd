/**
 * Bytes, fixed-width little-endian integers, in-place splicing of a byte
 * buffer, and the lexicographic order of byte strings (Go's bytes.Compare).
 */
module Bytes {

  type Byte = x: int | 0 <= x < 256

  const U16_LIMIT := 0x1_0000
  const U64_LIMIT := 0x1_0000_0000_0000_0000

  /** Go's uint64. */
  type U64 = x: int | 0 <= x < U64_LIMIT

  function Pow256(n: nat): (r: nat)
    ensures r >= 1
  {
    if n == 0 then 1 else 256 * Pow256(n - 1)
  }

  lemma Pow256Limits()
    ensures Pow256(8) == U64_LIMIT
  {
    assert Pow256(2) == 65536;
    assert Pow256(4) == 256 * (256 * 65536);
    assert Pow256(6) == 256 * (256 * Pow256(4));
  }

  /** x % 256, written as a subtraction loop so that unfolding it stays linear. */
  function Low(x: nat): Byte
  {
    if x < 256 then x else Low(x - 256)
  }

  /** x / 256, written the same way. */
  function High(x: nat): nat
  {
    if x < 256 then 0 else 1 + High(x - 256)
  }

  lemma {:induction false} LowHigh(x: nat)
    ensures Low(x) == x % 256 && High(x) == x / 256
  {
    if x >= 256 {
      LowHigh(x - 256);
    }
  }

  /** Little-endian encoding of x in n bytes (binary.LittleEndian.PutUintN). */
  function LE(x: nat, n: nat): (r: seq<Byte>)
    requires x < Pow256(n)
    ensures |r| == n
  {
    if n == 0 then []
    else
      LowHigh(x);
      [Low(x)] + LE(High(x), n - 1)
  }

  /** Little-endian decoding (binary.LittleEndian.UintN). */
  function FromLE(s: seq<Byte>): (x: nat)
    ensures x < Pow256(|s|)
  {
    if s == [] then 0 else s[0] + 256 * FromLE(s[1..])
  }

  /** The two-byte field of the node layout (binary.LittleEndian.PutUint16). */
  function LE16(x: nat): (r: seq<Byte>)
    requires x < U16_LIMIT
    ensures |r| == 2
  {
    LowHigh(x);
    assert x == 256 * High(x) + Low(x);
    [Low(x), High(x)]
  }

  /** The two-byte field at s[pos] (binary.LittleEndian.Uint16). */
  function U16At(s: seq<Byte>, pos: nat): (x: nat)
    requires pos + 2 <= |s|
    ensures x < U16_LIMIT
  {
    s[pos] as int + 256 * (s[pos + 1] as int)
  }

  /** A two-byte field reads back the value written there. */
  lemma ReadU16(s: seq<Byte>, pos: nat, x: nat)
    requires x < U16_LIMIT && pos + 2 <= |s| && s[pos..pos + 2] == LE16(x)
    ensures U16At(s, pos) == x
  {
    assert s[pos] == s[pos..pos + 2][0] && s[pos + 1] == s[pos..pos + 2][1];
    LowHigh(x);
  }

  lemma U16Same(s: seq<Byte>, r: seq<Byte>, pos: nat)
    requires pos + 2 <= |s| && pos + 2 <= |r| && r[pos..pos + 2] == s[pos..pos + 2]
    ensures U16At(r, pos) == U16At(s, pos)
  {
    assert r[pos] == r[pos..pos + 2][0] && r[pos + 1] == r[pos..pos + 2][1];
    assert s[pos] == s[pos..pos + 2][0] && s[pos + 1] == s[pos..pos + 2][1];
  }

  /** The eight-byte field of the node, meta and free-list layouts. */
  function LE64(x: nat): (r: seq<Byte>)
    requires x < U64_LIMIT
    ensures |r| == 8
  {
    Pow256Limits();
    LE(x, 8)
  }

  /** Decoding inverts encoding. */
  lemma {:induction false} FromLEOfLE(x: nat, n: nat)
    requires x < Pow256(n)
    ensures FromLE(LE(x, n)) == x
  {
    if n > 0 {
      var r := LE(x, n);
      LowHigh(x);
      assert r[1..] == LE(x / 256, n - 1);
      FromLEOfLE(x / 256, n - 1);
    }
  }

  /** Encoding inverts decoding: every n-byte string is the encoding of its value. */
  lemma {:induction false} LEOfFromLE(s: seq<Byte>)
    ensures LE(FromLE(s), |s|) == s
  {
    if s != [] {
      LEOfFromLE(s[1..]);
      var x := FromLE(s);
      LowHigh(x);
      assert x % 256 == s[0] && x / 256 == FromLE(s[1..]);
    }
  }

  lemma LE64RoundTrip(x: nat)
    requires x < U64_LIMIT
    ensures FromLE(LE64(x)) == x
  {
    Pow256Limits();
    FromLEOfLE(x, 8);
  }

  /** An eight-byte field decodes to a value below its limit. */
  lemma FromLEBound(s: seq<Byte>)
    requires |s| == 8
    ensures FromLE(s) < U64_LIMIT
  {
    Pow256Limits();
  }

  /** s with the bytes at pos .. pos+|d| overwritten by d (Go's copy or PutUintN into a slice). */
  function Write(s: seq<Byte>, pos: nat, d: seq<Byte>): (r: seq<Byte>)
    requires pos + |d| <= |s|
    ensures |r| == |s|
  {
    seq(|s|, k requires 0 <= k < |s| => if pos <= k < pos + |d| then d[k - pos] else s[k])
  }

  lemma WriteAt(s: seq<Byte>, pos: nat, d: seq<Byte>)
    requires pos + |d| <= |s|
    ensures forall k :: 0 <= k < |s| ==> Write(s, pos, d)[k] == if pos <= k < pos + |d| then d[k - pos] else s[k]
  {
  }

  lemma WriteInside(s: seq<Byte>, pos: nat, d: seq<Byte>)
    requires pos + |d| <= |s|
    ensures Write(s, pos, d)[pos..pos + |d|] == d
  {
  }

  /** A write leaves every slice that it does not overlap unchanged. */
  lemma WriteOutside(s: seq<Byte>, pos: nat, d: seq<Byte>, a: nat, b: nat)
    requires pos + |d| <= |s| && a <= b <= |s|
    requires b <= pos || pos + |d| <= a || d == []
    ensures Write(s, pos, d)[a..b] == s[a..b]
  {
    var r := Write(s, pos, d);
    WriteAt(s, pos, d);
    assert forall k :: 0 <= k < b - a ==> r[a..b][k] == r[a + k];
  }

  /** Two writes side by side are one write of their concatenation. */
  lemma WriteAdjacent(s: seq<Byte>, pos: nat, a: seq<Byte>, b: seq<Byte>)
    requires pos + |a| + |b| <= |s|
    ensures Write(Write(s, pos, a), pos + |a|, b) == Write(s, pos, a + b)
  {
    var l, r := Write(Write(s, pos, a), pos + |a|, b), Write(s, pos, a + b);
    WriteAt(s, pos, a);
    WriteAt(Write(s, pos, a), pos + |a|, b);
    WriteAt(s, pos, a + b);
    assert forall k :: 0 <= k < |s| ==> l[k] == r[k];
  }

  /**
   * Three writes at increasing, disjoint positions, made in the order
   * first, third, second: each region holds its data and the gaps between
   * them keep the old bytes.
   */
  lemma DisjointWrites(s: seq<Byte>, r: seq<Byte>, p1: nat, l1: nat, d1: seq<Byte>,
                       p2: nat, l2: nat, d2: seq<Byte>, p3: nat, l3: nat, d3: seq<Byte>)
    requires |d1| == l1 && |d2| == l2 && |d3| == l3
    requires p1 + l1 <= p2 && p2 + l2 <= p3 && p3 + l3 <= |s|
    requires r == Write(Write(Write(s, p1, d1), p3, d3), p2, d2)
    ensures |r| == |s|
    ensures r[..p1] == s[..p1]
    ensures r[p1..p1 + l1] == d1
    ensures r[p1 + l1..p2] == s[p1 + l1..p2]
    ensures r[p2..p2 + l2] == d2
    ensures r[p2 + l2..p3] == s[p2 + l2..p3]
    ensures r[p3..p3 + l3] == d3
    ensures r[p3 + l3..] == s[p3 + l3..]
  {
    var s1 := Write(s, p1, d1);
    var s2 := Write(s1, p3, d3);
    Untouched3(s, p1, d1, p3, d3, p2, d2, 0, p1);
    assert r[..p1] == r[0..p1] && s[..p1] == s[0..p1];
    Untouched3(s, p1, d1, p3, d3, p2, d2, p1 + l1, p2);
    Untouched3(s, p1, d1, p3, d3, p2, d2, p2 + l2, p3);
    Untouched3(s, p1, d1, p3, d3, p2, d2, p3 + l3, |s|);
    assert r[p3 + l3..] == r[p3 + l3..|s|] && s[p3 + l3..] == s[p3 + l3..|s|];
    WriteInside(s, p1, d1);
    WriteOutside(s1, p3, d3, p1, p1 + l1);
    WriteOutside(s2, p2, d2, p1, p1 + l1);
    WriteInside(s2, p2, d2);
    WriteInside(s1, p3, d3);
    WriteOutside(s2, p2, d2, p3, p3 + l3);
  }

  /** Three writes that all miss a .. b leave that slice as it was. */
  lemma Untouched3(s: seq<Byte>, p1: nat, d1: seq<Byte>, p3: nat, d3: seq<Byte>,
                   p2: nat, d2: seq<Byte>, a: nat, b: nat)
    requires p1 + |d1| <= |s| && p3 + |d3| <= |s| && p2 + |d2| <= |s| && a <= b <= |s|
    requires b <= p1 || p1 + |d1| <= a
    requires b <= p3 || p3 + |d3| <= a
    requires b <= p2 || p2 + |d2| <= a
    ensures Write(Write(Write(s, p1, d1), p3, d3), p2, d2)[a..b] == s[a..b]
  {
    var s1 := Write(s, p1, d1);
    var s2 := Write(s1, p3, d3);
    WriteOutside(s, p1, d1, a, b);
    WriteOutside(s1, p3, d3, a, b);
    WriteOutside(s2, p2, d2, a, b);
  }

  /** Agreement on a suffix carries over to any shorter suffix. */
  lemma SuffixKept(x: seq<Byte>, y: seq<Byte>, z: seq<Byte>, a: nat, b: nat)
    requires a <= b <= |x| && |y| == |x| && |z| == |x|
    requires y[a..] == x[a..] && z[b..] == y[b..]
    ensures z[b..] == x[b..]
  {
    assert forall k :: b <= k < |x| ==> y[k] == y[a..][k - a] && x[k] == x[a..][k - a];
    assert forall k :: b <= k < |x| ==> z[k] == z[b..][k - b] && y[k] == y[b..][k - b];
  }

  /** Slices of equal sequences taken inside a common prefix agree. */
  lemma SliceOfPrefix(s: seq<Byte>, p: seq<Byte>, a: nat, b: nat)
    requires |p| <= |s| && s[..|p|] == p && a <= b <= |p|
    ensures s[a..b] == p[a..b]
  {
    assert forall k :: a <= k < b ==> s[k] == s[..|p|][k];
  }

  lemma SliceOfSlice(s: seq<Byte>, a: nat, b: nat, c: nat, d: nat)
    requires a <= b <= |s| && c <= d <= b - a
    ensures s[a..b][c..d] == s[a + c..a + d]
  {
    assert forall k :: 0 <= k < d - c ==> s[a..b][c..d][k] == s[a + c + k];
  }

  /** r agrees with s on a .. b and holds q at b .. c. */
  lemma ConcatSlices(s: seq<Byte>, r: seq<Byte>, a: nat, b: nat, c: nat, q: seq<Byte>)
    requires a <= b <= c <= |r| && b <= |s| && r[a..b] == s[a..b] && r[b..c] == q
    ensures r[a..c] == s[a..b] + q
  {
    assert r[a..c] == r[a..b] + r[b..c];
  }

  /** A slice that agreed with t, extended by bytes o, agrees with t + o. */
  lemma SliceExtend(s: seq<Byte>, r: seq<Byte>, a: nat, b: nat, c: nat, t: seq<Byte>, t': seq<Byte>, o: seq<Byte>)
    requires a <= b <= c <= |s| && |r| == |s| && s[a..b] == t && t' == t + o
    requires r[a..b] == s[a..b] && r[b..c] == o
    ensures r[a..c] == t'
  {
    ConcatSlices(s, r, a, b, c, o);
  }

  /** A window of a region that holds table t holds the same window of t. */
  lemma SliceWindow(s: seq<Byte>, a: nat, b: nat, t: seq<Byte>, c: nat, d: nat, w: seq<Byte>)
    requires a <= b <= |s| && s[a..b] == t && c <= d <= b - a && t[c..d] == w
    ensures s[a + c..a + d] == w
  {
    SliceOfSlice(s, a, b, c, d);
  }

  /** A buffer whose consecutive windows hold a, b, c, d and e starts with their concatenation. */
  lemma Concat5(s: seq<Byte>, i: nat, j: nat, k: nat, l: nat, m: nat,
                a: seq<Byte>, b: seq<Byte>, c: seq<Byte>, d: seq<Byte>, e: seq<Byte>)
    requires i <= j <= k <= l <= m <= |s|
    requires s[0..i] == a && s[i..j] == b && s[j..k] == c && s[k..l] == d && s[l..m] == e
    ensures s[..m] == a + b + c + d + e
  {
    SliceSplit(s, 0, i, j);
    SliceSplit(s, 0, j, k);
    SliceSplit(s, 0, k, l);
    SliceSplit(s, 0, l, m);
    assert s[..m] == s[0..m];
  }

  lemma PrefixSlice(x: seq<Byte>, y: seq<Byte>, a: nat, b: nat)
    requires a <= b <= |x|
    ensures (x + y)[a..b] == x[a..b]
  {
    assert forall k :: a <= k < b ==> (x + y)[k] == x[k];
  }

  lemma SuffixSlice(x: seq<Byte>, y: seq<Byte>)
    ensures (x + y)[|x|..|x| + |y|] == y
  {
    assert forall k :: 0 <= k < |y| ==> (x + y)[|x|..|x| + |y|][k] == y[k];
  }

  lemma AppendSlices(a: seq<Byte>, b: seq<Byte>)
    ensures (a + b)[..|a|] == a && (a + b)[|a|..] == b
    ensures forall i, j :: 0 <= i <= j <= |a| ==> (a + b)[i..j] == a[i..j]
  {
  }

  /** Two buffers that agree on [a, b) agree on every window inside it. */
  lemma SliceInside(s: seq<Byte>, r: seq<Byte>, a: nat, b: nat, c: nat, d: nat)
    requires a <= c <= d <= b <= |s| && |r| == |s| && r[a..b] == s[a..b]
    ensures r[c..d] == s[c..d]
  {
    forall j | 0 <= j < d - c
      ensures r[c..d][j] == s[c..d][j]
    {
      assert r[a..b][c - a + j] == s[a..b][c - a + j];
    }
  }

  lemma SliceSame(s: seq<Byte>, a: nat, b: nat, a': nat, b': nat)
    requires a <= b <= |s| && a == a' && b == b'
    ensures s[a..b] == s[a'..b']
  {
  }

  lemma SliceSplit(s: seq<Byte>, a: nat, b: nat, c: nat)
    requires a <= b <= c <= |s|
    ensures s[a..c] == s[a..b] + s[b..c]
  {
  }

  /** The ASCII code points of a string whose characters are all bytes. */
  function Ascii(s: string): (r: seq<Byte>)
    requires forall i :: 0 <= i < |s| ==> s[i] as int < 256
    ensures |r| == |s|
    ensures forall i :: 0 <= i < |s| ==> r[i] == s[i] as int
  {
    seq(|s|, i requires 0 <= i < |s| => s[i] as int)
  }

  /**
   * Go's bytes.Compare: -1, 0 or +1 as a is lexicographically below,
   * equal to or above b (a proper prefix is below).
   */
  function Compare(a: seq<Byte>, b: seq<Byte>): (c: int)
    ensures -1 <= c <= 1
    ensures c == 0 <==> a == b
  {
    if a == [] then (if b == [] then 0 else -1)
    else if b == [] then 1
    else if a[0] < b[0] then -1
    else if a[0] > b[0] then 1
    else
      assert a == [a[0]] + a[1..] && b == [b[0]] + b[1..];
      Compare(a[1..], b[1..])
  }

  /** Swapping the arguments negates the comparison. */
  lemma {:induction false} CompareAntisymmetric(a: seq<Byte>, b: seq<Byte>)
    ensures Compare(b, a) == -Compare(a, b)
  {
    if a != [] && b != [] && a[0] == b[0] {
      CompareAntisymmetric(a[1..], b[1..]);
    }
  }

  /** "Below" is transitive. */
  lemma {:induction false} CompareTransitive(a: seq<Byte>, b: seq<Byte>, c: seq<Byte>)
    requires Compare(a, b) < 0 && Compare(b, c) < 0
    ensures Compare(a, c) < 0
  {
    if a != [] && b != [] && c != [] && a[0] == b[0] && b[0] == c[0] {
      CompareTransitive(a[1..], b[1..], c[1..]);
    }
  }

  /** "Below" composes with "at most" on either side. */
  lemma CompareTransitiveLe(a: seq<Byte>, b: seq<Byte>, c: seq<Byte>)
    requires Compare(a, b) <= 0 && Compare(b, c) <= 0
    ensures Compare(a, c) <= 0
    ensures Compare(a, b) < 0 || Compare(b, c) < 0 ==> Compare(a, c) < 0
  {
    if Compare(a, b) < 0 && Compare(b, c) < 0 {
      CompareTransitive(a, b, c);
    }
  }
}

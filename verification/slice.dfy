/** `Slice`: a window into a buffer owned by someone else, and its byte-wise order. */
module Slices {
  import opened Words
  import opened Storage

  class Slice {
    var data: array<u8>   // the storage the slice points into
    var off: nat          // where in that storage it starts
    var size: nat

    predicate Valid()
      reads this
    {
      off + size <= data.Length
    }

    function Contents(): (c: seq<u8>)
      reads this, data
      requires Valid()
      ensures |c| == size
    {
      data[off..off + size]
    }

    constructor (data: array<u8>, off: nat, size: nat)
      requires off + size <= data.Length
      ensures Valid() && this.data == data && this.off == off && this.size == size
    {
      this.data, this.off, this.size := data, off, size;
    }

    /** `*this = Slice(data, size)` with a pointer at offset `off`. */
    method Assign(data: array<u8>, off: nat, size: nat)
      requires off + size <= data.Length
      modifies this
      ensures Valid() && this.data == data && this.off == off && this.size == size
    {
      this.data, this.off, this.size := data, off, size;
    }

    method RemovePrefix(n: nat)
      requires Valid() && n <= size
      modifies this
      ensures Valid() && data == old(data) && off == old(off) + n && size == old(size) - n
      ensures Contents() == old(Contents())[n..]
    {
      off, size := off + n, size - n;
    }

    method RemoveSuffix(n: nat)
      requires Valid() && n <= size
      modifies this
      ensures Valid() && data == old(data) && off == old(off) && size == old(size) - n
      ensures Contents() == old(Contents())[..size]
    {
      size := size - n;
    }
  }

  /** A slice of bytes of its own. */
  method SliceOf(bytes: seq<u8>) returns (s: Slice)
    ensures fresh(s) && fresh(s.data) && s.Valid() && s.Contents() == bytes
  {
    var data := new u8[|bytes|](i requires 0 <= i < |bytes| => bytes[i]);
    s := new Slice(data, 0, |bytes|);
  }

  /** A window of a window. */
  lemma Window(a: array<u8>, off: nat, size: nat, i: nat, n: nat)
    requires off + size <= a.Length && i + n <= size
    ensures a[off..off + size][i..i + n] == a[off + i..off + i + n]
  {
    var window, part := a[off..off + size], a[off + i..off + i + n];
    forall k | 0 <= k < n
      ensures window[i..i + n][k] == part[k]
    {
      assert window[i + k] == a[off + (i + k)];
    }
    assert window[i..i + n] == part;
  }

  // ---------- comparison ----------

  /** `memcmp`: zero or the difference of the first two bytes that differ; only its sign matters. */
  function Memcmp(a: seq<u8>, b: seq<u8>, n: nat): int
    requires n <= |a| && n <= |b|
    decreases n
  {
    if n == 0 then 0
    else if a[0] != b[0] then a[0] - b[0]
    else Memcmp(a[1..], b[1..], n - 1)
  }

  /** Conversion of a size to a 32-bit `int`, in two's complement. */
  function ToInt32(n: nat): int {
    var low := n % 0x1_0000_0000;
    if low < 0x8000_0000 then low else low - 0x1_0000_0000
  }

  function MinSize(m: nat, n: nat): nat {
    if m < n then m else n
  }

  /**
    * `Slice::compare`.  The shorter size is stored in an `int`; a negative one would
    * reach `memcmp` as a huge length, which C leaves undefined: there is no answer then.
    */
  function Compare(a: seq<u8>, b: seq<u8>): Option<int> {
    var minLen := ToInt32(MinSize(|a|, |b|));
    if minLen < 0 then None
    else
      var r := Memcmp(a, b, minLen);
      if r == 0 then
        Some(if |a| < |b| then -1 else if |a| > |b| then 1 else r)
      else Some(r)
  }

  predicate StartsWith(s: seq<u8>, x: seq<u8>) {
    |s| >= |x| && Memcmp(s, x, |x|) == 0
  }

  predicate EndsWith(s: seq<u8>, x: seq<u8>) {
    if |s| < |x| then false else Memcmp(s[|s| - |x|..], x, |x|) == 0
  }

  /** `operator==` on slices. */
  predicate Equals(x: seq<u8>, y: seq<u8>) {
    |x| == |y| && Memcmp(x, y, |y|) == 0
  }

  /** Strict lexicographic order on unsigned bytes: a proper prefix comes first. */
  predicate Less(a: seq<u8>, b: seq<u8>) {
    b != [] && (a == [] || a[0] < b[0] || (a[0] == b[0] && Less(a[1..], b[1..])))
  }

  predicate AgreesWithOrder(r: int, a: seq<u8>, b: seq<u8>) {
    (r < 0 <==> Less(a, b)) && (r == 0 <==> a == b) && (r > 0 <==> Less(b, a))
  }

  /** `compare` has an answer, and it is the right one. */
  predicate ComparesCorrectly(a: seq<u8>, b: seq<u8>) {
    Compare(a, b).Some? && AgreesWithOrder(Compare(a, b).value, a, b)
  }

  lemma {:induction false} MemcmpZero(a: seq<u8>, b: seq<u8>, n: nat)
    requires n <= |a| && n <= |b|
    ensures Memcmp(a, b, n) == 0 <==> a[..n] == b[..n]
  {
    if n > 0 && a[0] == b[0] {
      MemcmpZero(a[1..], b[1..], n - 1);
      assert a[..n] == [a[0]] + a[1..][..n - 1];
      assert b[..n] == [b[0]] + b[1..][..n - 1];
      assert a[..n][1..] == a[1..][..n - 1] && b[..n][1..] == b[1..][..n - 1];
    } else if n > 0 {
      assert a[..n][0] != b[..n][0];
    }
  }

  /** The comparison without the narrowing of the shorter size. */
  function CompareExact(a: seq<u8>, b: seq<u8>): int {
    var r := Memcmp(a, b, MinSize(|a|, |b|));
    if r == 0 then |a| - |b| else r
  }

  lemma {:induction false} CompareExactIsOrder(a: seq<u8>, b: seq<u8>)
    ensures AgreesWithOrder(CompareExact(a, b), a, b)
  {
    if a != [] && b != [] && a[0] == b[0] {
      CompareExactIsOrder(a[1..], b[1..]);
      assert CompareExact(a, b) == CompareExact(a[1..], b[1..]);
      assert a == [a[0]] + a[1..] && b == [b[0]] + b[1..];
    }
  }

  /** Below 2^31 bytes, `compare` is three-way lexicographic order. */
  lemma CompareIsOrder(a: seq<u8>, b: seq<u8>)
    requires MinSize(|a|, |b|) < 0x8000_0000
    ensures ComparesCorrectly(a, b)
  {
    CompareExactIsOrder(a, b);
  }

  /** All zero bytes but for a one at index k. */
  function OneAt(n: nat, k: nat): seq<u8> {
    seq(n, i => if i == k then 1 else 0)
  }

  /** `compare` is right on all contents of the two sizes. */
  ghost predicate OrdersAllOfSize(m: nat, n: nat) {
    forall a: seq<u8>, b: seq<u8> :: |a| == m && |b| == n ==> ComparesCorrectly(a, b)
  }

  lemma {:induction false} LessSkipsCommonPrefix(a: seq<u8>, b: seq<u8>, n: nat)
    requires n <= |a| && n <= |b| && a[..n] == b[..n]
    ensures Less(a, b) <==> Less(a[n..], b[n..])
  {
    if n == 0 {
      assert a[0..] == a && b[0..] == b;
    } else {
      assert a[0] == a[..n][0] == b[..n][0] == b[0];
      assert a[1..][..n - 1] == a[..n][1..] && b[1..][..n - 1] == b[..n][1..];
      LessSkipsCommonPrefix(a[1..], b[1..], n - 1);
      assert a[1..][n - 1..] == a[n..] && b[1..][n - 1..] == b[n..];
    }
  }

  /**
    * For which sizes `compare` orders all contents correctly: exactly when the
    * shorter size is below 2^31.  Beyond, either the `int` is negative and there is
    * no answer, or only the first (size mod 2^32) bytes are looked at and a
    * difference at the next byte goes unseen.
    */
  lemma CompareIsOrderIff(m: nat, n: nat)
    ensures OrdersAllOfSize(m, n) <==> MinSize(m, n) < 0x8000_0000
  {
    var k := ToInt32(MinSize(m, n));
    if MinSize(m, n) < 0x8000_0000 {
      forall a: seq<u8>, b: seq<u8> | |a| == m && |b| == n
        ensures ComparesCorrectly(a, b)
      {
        CompareIsOrder(a, b);
      }
    } else if k < 0 {
      assert !ComparesCorrectly(Zeros(m), Zeros(n));
    } else {
      UnseenDifference(m, n, k);
    }
  }

  lemma UnseenDifference(m: nat, n: nat, k: nat)
    requires ToInt32(MinSize(m, n)) == k && k < m && k < n
    ensures !OrdersAllOfSize(m, n)
  {
    // the larger operand is the shorter one, so the answer by size is wrong
    var a, b := if m <= n then OneAt(m, k) else Zeros(m), if m <= n then Zeros(n) else OneAt(n, k);
    assert a[..k] == b[..k];
    MemcmpZero(a, b, k);
    assert a[k] != b[k];
    LessSkipsCommonPrefix(a, b, k);
    LessSkipsCommonPrefix(b, a, k);
    assert !ComparesCorrectly(a, b);
  }

  // ---------- laws of the order ----------

  lemma LessIsTotal(a: seq<u8>, b: seq<u8>)
    ensures Less(a, b) || a == b || Less(b, a)
    ensures !(Less(a, b) && Less(b, a)) && !Less(a, a)
  {
    CompareExactIsOrder(a, b);
    CompareExactIsOrder(a, a);
  }

  lemma {:induction false} LessIsTransitive(a: seq<u8>, b: seq<u8>, c: seq<u8>)
    requires Less(a, b) && Less(b, c)
    ensures Less(a, c)
  {
    if a != [] && a[0] == b[0] == c[0] {
      LessIsTransitive(a[1..], b[1..], c[1..]);
    }
  }

  /** a and b agree before k, and there a ends or has the smaller byte. */
  predicate SmallerAt(a: seq<u8>, b: seq<u8>, k: nat) {
    k <= |a| && k < |b| && a[..k] == b[..k] && (k == |a| || a[k] < b[k])
  }

  lemma {:induction false} LessAtFirstDifference(a: seq<u8>, b: seq<u8>) returns (k: nat)
    requires Less(a, b)
    ensures SmallerAt(a, b, k)
  {
    if a == [] || a[0] < b[0] {
      k := 0;
    } else {
      var j := LessAtFirstDifference(a[1..], b[1..]);
      k := j + 1;
      assert a[..k] == [a[0]] + a[1..][..j] && b[..k] == [b[0]] + b[1..][..j];
    }
  }

  /** The order is decided at the first difference, by the smaller unsigned byte or the end of the shorter one. */
  lemma LessIff(a: seq<u8>, b: seq<u8>)
    ensures Less(a, b) <==> exists k: nat :: SmallerAt(a, b, k)
  {
    if Less(a, b) {
      var k := LessAtFirstDifference(a, b);
    }
    forall k: nat | SmallerAt(a, b, k)
      ensures Less(a, b)
    {
      LessSkipsCommonPrefix(a, b, k);
    }
  }

  /** `==` decides equality. */
  lemma EqualsIsEquality(x: seq<u8>, y: seq<u8>)
    ensures Equals(x, y) <==> x == y
  {
    if |x| == |y| {
      MemcmpZero(x, y, |y|);
      assert x[..|y|] == x && y[..|y|] == y;
    }
  }

  /** `starts_with` decides prefix, and a prefix is never greater. */
  lemma StartsWithIsPrefix(s: seq<u8>, x: seq<u8>)
    ensures StartsWith(s, x) <==> x <= s
    ensures x <= s ==> !Less(s, x)
  {
    if |x| <= |s| {
      MemcmpZero(s, x, |x|);
      assert x[..|x|] == x;
      if x <= s {
        LessSkipsCommonPrefix(s, x, |x|);
      }
    }
  }

  /** `ends_with` decides suffix. */
  lemma EndsWithIsSuffix(s: seq<u8>, x: seq<u8>)
    ensures EndsWith(s, x) <==> exists p: seq<u8> :: s == p + x
  {
    if |x| <= |s| {
      var tail := s[|s| - |x|..];
      MemcmpZero(tail, x, |x|);
      assert tail[..|x|] == tail && x[..|x|] == x;
      if tail == x {
        assert s == s[..|s| - |x|] + x;
      }
    }
  }
}

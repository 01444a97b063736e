/**
  * Base-128 variable-length integers (unsigned LEB128, section 7.6 of DWARF
  * Version 5): the encoding `Varint`, the decoder specification `Parse`, and what
  * holds between them.
  */
module VarintSpec {
  import opened Words

  type Bytes = seq<u8>

  /** The shortest encoding of v: seven bits a byte, low group first, top bit set on all but the last. */
  function Varint(v: nat): (r: Bytes)
    ensures |r| >= 1
  {
    if v < 128 then [v] else [v % 128 + 128] + Varint(v / 128)
  }

  /** The number represented by the low seven bits of each byte. */
  function Base128(bs: Bytes): nat {
    if bs == [] then 0 else bs[0] % 128 + 128 * Base128(bs[1..])
  }

  /** How many leading bytes have the top bit set: the index of the first byte that ends a varint. */
  function StopIndex(bs: Bytes): (n: nat)
    ensures n <= |bs|
    ensures forall i :: 0 <= i < n ==> bs[i] >= 128
    ensures n < |bs| ==> bs[n] < 128
  {
    if bs == [] || bs[0] < 128 then 0 else 1 + StopIndex(bs[1..])
  }

  datatype Parsed = Failed | Parsed(value: nat, used: nat)

  /**
    * What a decoder limited to `max` bytes answers on `bs`: it succeeds iff one of
    * the first `max` bytes has the top bit clear, consumes through the first such
    * byte, and yields the represented number modulo the word size.
    */
  function Parse(bs: Bytes, max: nat, modulus: nat): Parsed
    requires modulus > 0
  {
    var n := StopIndex(bs);
    if n < |bs| && n < max then Parsed(Base128(bs[..n + 1]) % modulus, n + 1) else Failed
  }

  function Parse32(bs: Bytes): (r: Parsed)
    ensures r.Parsed? ==> r.value < 0x1_0000_0000 && 1 <= r.used <= 5 && r.used <= |bs|
  {
    Parse(bs, 5, 0x1_0000_0000)
  }

  function Parse64(bs: Bytes): (r: Parsed)
    ensures r.Parsed? ==> r.value < 0x1_0000_0000_0000_0000 && 1 <= r.used <= 10 && r.used <= |bs|
  {
    Parse(bs, 10, 0x1_0000_0000_0000_0000)
  }

  function Pow128(n: nat): (p: nat)
    ensures p > 0
  {
    if n == 0 then 1 else 128 * Pow128(n - 1)
  }

  lemma Pow128Values()
    ensures Pow128(4) == 0x1000_0000 && Pow128(5) == 0x8_0000_0000
    ensures Pow128(9) == 0x8000_0000_0000_0000 && Pow128(10) == 0x40_0000_0000_0000_0000
  {
  }

  lemma {:induction false} Pow128Monotone(m: nat, n: nat)
    requires m <= n
    ensures Pow128(m) <= Pow128(n)
  {
    if m < n {
      Pow128Monotone(m, n - 1);
    }
  }

  // ---------- well-formed encodings ----------

  /** Exactly one byte has the top bit clear, and it is the last one. */
  ghost predicate Terminated(bs: Bytes) {
    bs != [] && StopIndex(bs) == |bs| - 1
  }

  lemma {:induction false} VarintIsTerminated(v: nat)
    ensures Terminated(Varint(v)) && Base128(Varint(v)) == v
  {
    if v >= 128 {
      VarintIsTerminated(v / 128);
      assert Varint(v)[1..] == Varint(v / 128);
    }
  }

  lemma {:induction false} StopIndexOfPrefix(bs: Bytes, n: nat)
    requires n <= |bs|
    ensures StopIndex(bs[..n]) == if StopIndex(bs) < n then StopIndex(bs) else n
  {
    if n > 0 && bs[0] >= 128 {
      StopIndexOfPrefix(bs[1..], n - 1);
      assert bs[..n][1..] == bs[1..][..n - 1];
    }
  }

  lemma StopIndexOfAppend(bs: Bytes, more: Bytes)
    requires StopIndex(bs) < |bs|
    ensures StopIndex(bs + more) == StopIndex(bs)
  {
    StopIndexOfPrefix(bs + more, |bs|);
    assert (bs + more)[..|bs|] == bs;
  }

  /** A decoder reads a terminated sequence exactly, whatever follows. */
  lemma ParseTerminated(bs: Bytes, more: Bytes, max: nat, modulus: nat)
    requires modulus > 0 && Terminated(bs) && |bs| <= max
    ensures Parse(bs + more, max, modulus) == Parsed(Base128(bs) % modulus, |bs|)
  {
    StopIndexOfAppend(bs, more);
    assert (bs + more)[..|bs|] == bs;
  }

  // ---------- byte by byte ----------

  lemma DivisionByPow128(v: nat, i: nat)
    ensures v / 128 / Pow128(i) == v / Pow128(i + 1)
  {
    var q, r := Divide(v / 128, Pow128(i));
    DivModUnique(v / 128, Pow128(i), q, r);
    assert q * (128 * Pow128(i)) == 128 * (q * Pow128(i));
    DivModUnique(v, Pow128(i + 1), q, 128 * r + v % 128);
  }

  /** Byte i of an encoding is the i-th base-128 digit, with the top bit set on all but the last. */
  lemma {:induction false} VarintByte(v: nat, i: nat)
    requires i < |Varint(v)|
    ensures Varint(v)[i] == v / Pow128(i) % 128 + if i + 1 < |Varint(v)| then 128 else 0
  {
    if i == 0 {
      assert v / 1 == v;
    } else {
      VarintByte(v / 128, i - 1);
      DivisionByPow128(v, i - 1);
    }
  }

  /** The sum of the low seven bits of each byte, with byte i weighted by 128^i. */
  function WeightedSum(bs: Bytes, n: nat): nat
    requires n <= |bs|
  {
    if n == 0 then 0 else WeightedSum(bs, n - 1) + bs[n - 1] % 128 * Pow128(n - 1)
  }

  lemma {:induction false} Base128IsWeightedSum(bs: Bytes, n: nat)
    requires n <= |bs|
    ensures Base128(bs[..n]) == WeightedSum(bs, n)
  {
    if n > 0 {
      Base128IsWeightedSum(bs, n - 1);
      assert bs[..n] == bs[..n - 1] + [bs[n - 1]];
      Base128Append(bs[..n - 1], bs[n - 1]);
    }
  }

  /** The first n bytes have the top bit set and the next one has not. */
  predicate StopsAt(bs: Bytes, n: nat) {
    n < |bs| && bs[n] < 128 && forall i :: 0 <= i < n ==> bs[i] >= 128
  }

  /**
    * What the decoders accept: for every input, success iff a byte without the top
    * bit is among the first 5 or 10, and then the weighted sum up to the first such
    * byte, modulo the word.
    */
  lemma ParseIff(bs: Bytes, n: nat)
    requires StopsAt(bs, n)
    ensures Parse32(bs) == if n < 5 then Parsed(WeightedSum(bs, n + 1) % 0x1_0000_0000, n + 1) else Failed
    ensures Parse64(bs) == if n < 10 then Parsed(WeightedSum(bs, n + 1) % 0x1_0000_0000_0000_0000, n + 1) else Failed
  {
    Base128IsWeightedSum(bs, n + 1);
    assert StopIndex(bs) == n;
  }

  lemma ParseUnterminated(bs: Bytes)
    requires forall i :: 0 <= i < |bs| ==> bs[i] >= 128
    ensures Parse32(bs) == Failed && Parse64(bs) == Failed
  {
  }

  // ---------- lengths ----------

  lemma {:induction false} Base128Bounded(bs: Bytes)
    ensures Base128(bs) < Pow128(|bs|)
  {
    if bs != [] {
      Base128Bounded(bs[1..]);
    }
  }

  /** The encoded length is the least k >= 1 with v < 128^k. */
  lemma {:induction false} LengthIsLeast(v: nat, k: nat)
    requires k >= 1
    ensures |Varint(v)| <= k <==> v < Pow128(k)
  {
    if v < 128 {
      Pow128Monotone(1, k);
    } else if k == 1 {
      assert Pow128(1) == 128;
    } else {
      LengthIsLeast(v / 128, k - 1);
    }
  }

  lemma LengthIsMonotone(v: nat, w: nat)
    requires v <= w
    ensures |Varint(v)| <= |Varint(w)|
  {
    LengthIsLeast(w, |Varint(w)|);
    LengthIsLeast(v, |Varint(w)|);
  }

  /** Five bytes hold every 32-bit value and ten every 64-bit value. */
  lemma LengthBounds(v: u64)
    ensures |Varint(v)| <= 10
    ensures v < 0x1_0000_0000 ==> |Varint(v)| <= 5
  {
    Pow128Values();
    LengthIsLeast(v, 10);
    LengthIsLeast(v, 5);
  }

  // ---------- decode after encode ----------

  lemma ParseVarint32(v: u32, more: Bytes)
    ensures Parse32(Varint(v) + more) == Parsed(v, |Varint(v)|)
  {
    VarintIsTerminated(v);
    LengthBounds(v);
    ParseTerminated(Varint(v), more, 5, 0x1_0000_0000);
  }

  lemma ParseVarint64(v: u64, more: Bytes)
    ensures Parse64(Varint(v) + more) == Parsed(v, |Varint(v)|)
  {
    VarintIsTerminated(v);
    LengthBounds(v);
    ParseTerminated(Varint(v), more, 10, 0x1_0000_0000_0000_0000);
  }

  /** Every proper prefix of an encoding is rejected. */
  lemma ParseRejectsProperPrefix(v: nat, n: nat)
    requires n < |Varint(v)|
    ensures Parse32(Varint(v)[..n]) == Failed && Parse64(Varint(v)[..n]) == Failed
  {
    VarintIsTerminated(v);
    StopIndexOfPrefix(Varint(v), n);
  }

  /** No encoding is a prefix of another one. */
  lemma VarintIsPrefixFree(u: nat, v: nat, s: Bytes, t: Bytes)
    requires Varint(u) + s == Varint(v) + t
    ensures u == v && s == t
  {
    VarintIsTerminated(u);
    VarintIsTerminated(v);
    StopIndexOfAppend(Varint(u), s);
    StopIndexOfAppend(Varint(v), t);
    assert Varint(u) == (Varint(u) + s)[..|Varint(u)|] == Varint(v);
    assert s == (Varint(u) + s)[|Varint(u)|..];
    assert t == (Varint(v) + t)[|Varint(v)|..];
  }

  // ---------- encode after decode ----------

  lemma {:induction false} Base128Append(bs: Bytes, b: u8)
    ensures Base128(bs + [b]) == Base128(bs) + b % 128 * Pow128(|bs|)
  {
    if bs == [] {
      assert Base128([b]) == b % 128 + 128 * Base128([]);
    } else {
      Base128Append(bs[1..], b);
      assert (bs + [b])[1..] == bs[1..] + [b];
      assert 128 * (b % 128 * Pow128(|bs| - 1)) == b % 128 * (128 * Pow128(|bs| - 1));
    }
  }

  lemma TailIsTerminated(bs: Bytes)
    requires Terminated(bs) && |bs| > 1
    ensures bs[0] >= 128 && Terminated(bs[1..]) && bs[1..][|bs| - 2] == bs[|bs| - 1]
  {
  }

  lemma PrependByte(bs: Bytes, high: nat)
    requires |bs| > 1 && bs[0] >= 128 && high > 0 && high == Base128(bs[1..]) && bs[1..] == Varint(high)
    ensures bs == Varint(Base128(bs)) && Base128(bs) > 0
  {
    assert Base128(bs) == bs[0] % 128 + 128 * high;
    assert bs == [bs[0]] + bs[1..];
  }

  /** A terminated sequence without a superfluous last byte is the encoding of its number. */
  lemma {:induction false} ShortestIsVarint(bs: Bytes)
    requires Terminated(bs) && (|bs| == 1 || bs[|bs| - 1] != 0)
    ensures bs == Varint(Base128(bs))
    ensures bs[|bs| - 1] != 0 ==> Base128(bs) > 0
  {
    if |bs| == 1 {
      assert Base128(bs) == bs[0] % 128 + 128 * Base128([]);
    } else {
      TailIsTerminated(bs);
      ShortestIsVarint(bs[1..]);
      PrependByte(bs, Base128(bs[1..]));
    }
  }

  lemma {:induction false} VarintEndsNonZero(v: nat)
    ensures |Varint(v)| > 1 ==> Varint(v)[|Varint(v)| - 1] != 0
  {
    if v >= 128 {
      VarintEndsNonZero(v / 128);
      if |Varint(v / 128)| == 1 {
        assert v / 128 < 128;
      }
    }
  }

  /**
    * Canonical form: given v, the represented number or a truncation of it, the
    * bytes are the encoding of v iff their last byte is not a superfluous zero and
    * nothing was truncated.
    */
  lemma CanonicalIff(bs: Bytes, v: nat)
    requires Terminated(bs) && v <= Base128(bs)
    ensures bs == Varint(v) <==> (|bs| == 1 || bs[|bs| - 1] != 0) && v == Base128(bs)
    ensures |Varint(v)| <= |bs|
  {
    if bs == Varint(v) {
      VarintIsTerminated(v);
      VarintEndsNonZero(v);
    } else if |bs| == 1 || bs[|bs| - 1] != 0 {
      ShortestIsVarint(bs);
    }
    LengthOfValue(bs, v);
  }

  lemma LengthOfValue(bs: Bytes, v: nat)
    requires bs != [] && v <= Base128(bs)
    ensures |Varint(v)| <= |bs|
  {
    Base128Bounded(bs);
    LengthIsLeast(v, |bs|);
  }

  lemma ScaleMonotone(a: nat, b: nat, p: nat)
    requires a <= b
    ensures a * p <= b * p
  {
  }

  lemma CompareByTopDigit(low: nat, p: nat, digit: nat, limit: nat)
    requires low < p
    ensures low + digit * p < limit * p <==> digit < limit
  {
    if digit < limit {
      ScaleMonotone(digit + 1, limit, p);
      assert (digit + 1) * p == digit * p + p;
    } else {
      ScaleMonotone(limit, digit, p);
    }
  }

  lemma SplitTopDigit(bs: Bytes, k: nat)
    requires |bs| == k + 1
    ensures Base128(bs) == Base128(bs[..k]) + bs[k] % 128 * Pow128(k)
    ensures Base128(bs[..k]) < Pow128(k)
  {
    assert bs == bs[..k] + [bs[k]];
    Base128Append(bs[..k], bs[k]);
    Base128Bounded(bs[..k]);
  }

  /** The number of k+1 bytes is below limit * 128^k iff the last byte is below limit. */
  lemma FitsIffLastByteSmall(bs: Bytes, k: nat, limit: nat)
    requires Terminated(bs) && |bs| == k + 1
    ensures Base128(bs) < limit * Pow128(k) <==> bs[k] < limit
  {
    SplitTopDigit(bs, k);
    DivModSmall(bs[k], 128);
    CompareByTopDigit(Base128(bs[..k]), Pow128(k), bs[k], limit);
  }

  lemma ParsedIsTerminated(bs: Bytes)
    requires StopIndex(bs) < |bs|
    ensures Terminated(bs[..StopIndex(bs) + 1])
  {
    StopIndexOfPrefix(bs, StopIndex(bs) + 1);
  }

  lemma CanonicalForm64(bs: Bytes)
    requires Parse64(bs).Parsed?
    ensures var Parsed(v, k) := Parse64(bs);
      && |Varint(v)| <= k <= 10
      && (bs[..k] == Varint(v) <==> (k == 1 || bs[k - 1] != 0) && (k < 10 || bs[9] <= 1))
  {
    var Parsed(v, k) := Parse64(bs);
    assert bs[..k][k - 1] == bs[k - 1];
    ParsedIsTerminated(bs);
    CanonicalIff(bs[..k], v);
    Base128Bounded(bs[..k]);
    Pow128Values();
    if k < 10 {
      Pow128Monotone(k, 9);
    } else {
      FitsIffLastByteSmall(bs[..k], 9, 2);
    }
  }

  lemma CanonicalForm32(bs: Bytes)
    requires Parse32(bs).Parsed?
    ensures var Parsed(v, k) := Parse32(bs);
      && |Varint(v)| <= k <= 5
      && (bs[..k] == Varint(v) <==> (k == 1 || bs[k - 1] != 0) && (k < 5 || bs[4] <= 15))
  {
    var Parsed(v, k) := Parse32(bs);
    assert bs[..k][k - 1] == bs[k - 1];
    ParsedIsTerminated(bs);
    CanonicalIff(bs[..k], v);
    Base128Bounded(bs[..k]);
    Pow128Values();
    if k < 5 {
      Pow128Monotone(k, 4);
    } else {
      FitsIffLastByteSmall(bs[..k], 4, 16);
    }
  }

  /**
    * The 32-bit decoder accepts what the 64-bit decoder accepts within five bytes,
    * with the same length and a congruent value.
    */
  lemma DecodersAgree(bs: Bytes)
    ensures Parse32(bs).Parsed? <==> Parse64(bs).Parsed? && Parse64(bs).used <= 5
    ensures Parse32(bs).Parsed? ==>
      && Parse64(bs).used == Parse32(bs).used
      && Parse64(bs).value % 0x1_0000_0000 == Parse32(bs).value
  {
    if Parse32(bs).Parsed? {
      var k := Parse32(bs).used;
      Base128Bounded(bs[..k]);
      Pow128Monotone(k, 5);
      Pow128Values();
      DivModSmall(Base128(bs[..k]), 0x1_0000_0000_0000_0000);
    }
  }
}

/**
  * The varint and length-prefix routines: encoders that write through a moving
  * pointer, decoders that accumulate with `|=` and `<<`, and the `Get...` routines
  * that advance their input slice.  Pointers are offsets into a buffer; NULL is `None`.
  */
module Coding {
  import opened Words
  import opened Storage
  import opened Slices
  import opened VarintSpec

  // ---------- byte-level facts ----------

  /** `(uint8_t)(v | 128)` is the low seven bits of v with the top bit set. */
  lemma FlaggedByte(v: nat)
    ensures BitOr(v, 128) % 256 == v % 128 + 128
  {
    Pow2Values();
    OrBit(v, 7);
    LowIsMod(BitOr(v, 128), 8);
    LowIsMod(v, 7);
  }

  /** `b & 128` tests the top bit of a byte; `b & 127` clears it. */
  lemma TopBit(b: u8)
    ensures BitAnd(b, 128) != 0 <==> b >= 128
  {
    var q := if b < 128 then 0 else 1;
    Pow2Values();
    AndBit(b, 7);
    ShrIsDiv(b, 7);
    DivModUnique(b, 128, q, b - q * 128);
  }

  lemma LowSevenBits(v: nat)
    ensures BitAnd(v, 127) == v % 128
  {
    Pow2Values();
    AndMask(v, 7);
    LowIsMod(v, 7);
  }

  /** `byte & 128`, as a condition. */
  predicate HasMore(byte: u8): (r: bool)
    ensures r <==> byte >= 128
  {
    TopBit(byte);
    BitAnd(byte, 128) != 0
  }

  lemma ByteSplit(byte: u8)
    ensures BitAnd(byte, 127) == if byte < 128 then byte else byte - 128
  {
    LowSevenBits(byte);
    DivModUnique(byte, 128, if byte < 128 then 0 else 1, if byte < 128 then byte else byte - 128);
  }

  /** `byte & 127`. */
  function SevenBits(byte: u8): (r: nat)
    ensures r < 128 && (byte == r || byte == r + 128)
  {
    ByteSplit(byte);
    BitAnd(byte, 127)
  }

  lemma ShiftedBySevens(v: nat)
    ensures Shr(v, 7) == v / 128 && Shr(v, 14) == v / 0x4000
    ensures Shr(v, 21) == v / 0x20_0000 && Shr(v, 28) == v / 0x1000_0000
  {
    Pow2Values();
    ShrIsDiv(v, 7);
    ShrIsDiv(v, 14);
    ShrIsDiv(v, 21);
    ShrIsDiv(v, 28);
  }

  // ---------- encoders ----------

  /** The bytes stored by the five branches of the unrolled 32-bit encoder. */
  function Unrolled(v: nat): Bytes {
    if v < 0x80 then [v % 256]
    else if v < 0x4000 then [BitOr(v, 128) % 256, Shr(v, 7) % 256]
    else if v < 0x20_0000 then [BitOr(v, 128) % 256, BitOr(Shr(v, 7), 128) % 256, Shr(v, 14) % 256]
    else if v < 0x1000_0000 then
      [BitOr(v, 128) % 256, BitOr(Shr(v, 7), 128) % 256, BitOr(Shr(v, 14), 128) % 256, Shr(v, 21) % 256]
    else
      [BitOr(v, 128) % 256, BitOr(Shr(v, 7), 128) % 256, BitOr(Shr(v, 14), 128) % 256,
       BitOr(Shr(v, 21), 128) % 256, Shr(v, 28) % 256]
  }

  lemma VarintRound(v: nat, w: nat)
    requires v >= 128 && w == v / 128
    ensures Varint(v) == [BitOr(v, 128) % 256] + Varint(w)
  {
    FlaggedByte(v);
  }

  lemma VarintLast(v: nat)
    requires v < 128
    ensures Varint(v) == [v % 256]
  {
  }

  /** Unrolling five rounds of the loop gives the same bytes. */
  lemma UnrolledIsVarint(v: u32)
    ensures Unrolled(v) == Varint(v)
  {
    ShiftedBySevens(v);
    var a, b, c, d := Shr(v, 7), Shr(v, 14), Shr(v, 21), Shr(v, 28);
    assert b == a / 128 && c == b / 128 && d == c / 128;
    if v < 0x80 {
      VarintLast(v);
    } else if v < 0x4000 {
      VarintLast(a);
      VarintRound(v, a);
    } else if v < 0x20_0000 {
      VarintLast(b);
      VarintRound(a, b);
      VarintRound(v, a);
    } else if v < 0x1000_0000 {
      VarintLast(c);
      VarintRound(b, c);
      VarintRound(a, b);
      VarintRound(v, a);
    } else {
      VarintLast(d);
      VarintRound(c, d);
      VarintRound(b, c);
      VarintRound(a, b);
      VarintRound(v, a);
    }
  }

  lemma FlagSmall(x: nat)
    requires x < 128
    ensures BitOr(x, 128) == x + 128
  {
    Pow2Values();
    LowIsMod(128, 7);
    OrDisjoint(x, 128, 7);
  }

  /** One round of the encoder loop: the stored byte and the remaining number. */
  lemma LoopBytes(v: nat)
    ensures BitOr(BitAnd(v, 127), 128) % 256 == v % 128 + 128 && Shr(v, 7) == v / 128
  {
    LowSevenBits(v);
    FlagSmall(v % 128);
    DivModSmall(v % 128 + 128, 256);
    ShiftedBySevens(v);
  }

  method EncodeVarint32(dst: array<u8>, off: nat, v: u32) returns (end: nat)
    requires off + |Varint(v)| <= dst.Length
    modifies dst
    ensures dst[..] == Splice(old(dst[..]), off, Varint(v))
    ensures end == off + |Varint(v)|
  {
    ghost var was := dst[..];
    ghost var u := Unrolled(v);
    UnrolledIsVarint(v);
    end := off;
    if v < 0x80 {
      end := StoreByte(dst, end, v, was, off, u);
    } else if v < 0x4000 {
      end := StoreByte(dst, end, BitOr(v, 128), was, off, u);
      end := StoreByte(dst, end, Shr(v, 7), was, off, u);
    } else if v < 0x20_0000 {
      end := StoreByte(dst, end, BitOr(v, 128), was, off, u);
      end := StoreByte(dst, end, BitOr(Shr(v, 7), 128), was, off, u);
      end := StoreByte(dst, end, Shr(v, 14), was, off, u);
    } else if v < 0x1000_0000 {
      end := StoreByte(dst, end, BitOr(v, 128), was, off, u);
      end := StoreByte(dst, end, BitOr(Shr(v, 7), 128), was, off, u);
      end := StoreByte(dst, end, BitOr(Shr(v, 14), 128), was, off, u);
      end := StoreByte(dst, end, Shr(v, 21), was, off, u);
    } else {
      end := StoreByte(dst, end, BitOr(v, 128), was, off, u);
      end := StoreByte(dst, end, BitOr(Shr(v, 7), 128), was, off, u);
      end := StoreByte(dst, end, BitOr(Shr(v, 14), 128), was, off, u);
      end := StoreByte(dst, end, BitOr(Shr(v, 21), 128), was, off, u);
      end := StoreByte(dst, end, Shr(v, 28), was, off, u);
    }
  }

  method EncodeVarint64(dst: array<u8>, off: nat, v: u64) returns (end: nat)
    requires off + |Varint(v)| <= dst.Length
    modifies dst
    ensures dst[..] == Splice(old(dst[..]), off, Varint(v))
    ensures end == off + |Varint(v)|
  {
    end := off;
    var rest := v;
    ghost var was := dst[..];
    ghost var u := Varint(v);
    while rest >= 128
      invariant off <= end <= off + |u| && u[end - off..] == Varint(rest)
      invariant dst[..] == Splice(was, off, u[..end - off])
    {
      LoopBytes(rest);
      assert u[end - off] == Varint(rest)[0];
      assert u[end + 1 - off..] == Varint(rest)[1..];
      end := StoreByte(dst, end, BitOr(BitAnd(rest, 127), 128), was, off, u);
      rest := Shr(rest, 7);
    }
    assert u[end - off] == Varint(rest)[0];
    end := StoreByte(dst, end, rest, was, off, u);
  }

  method PutVarint32(dst: ByteString, v: u32)
    modifies dst
    ensures dst.data == old(dst.data) + Varint(v)
  {
    LengthBounds(v);
    var buf := new u8[5];
    var end := EncodeVarint32(buf, 0, v);
    dst.Append(buf[..end]);
  }

  method PutVarint64(dst: ByteString, v: u64)
    modifies dst
    ensures dst.data == old(dst.data) + Varint(v)
  {
    LengthBounds(v);
    var buf := new u8[10];
    var end := EncodeVarint64(buf, 0, v);
    dst.Append(buf[..end]);
  }

  method VarintLength(v: u64) returns (len: nat)
    ensures len == |Varint(v)|
  {
    len := 1;
    var rest := v;
    while rest >= 128
      invariant len >= 1 && len - 1 + |Varint(rest)| == |Varint(v)|
    {
      ShiftedBySevens(rest);
      rest := Shr(rest, 7);
      len := len + 1;
    }
  }

  /** The stored length is the size narrowed to 32 bits; all of the payload follows. */
  function LengthPrefixed(payload: Bytes): Bytes {
    Varint(|payload| % 0x1_0000_0000) + payload
  }

  /** The varint of `EncodeLengthPrefixedSlice`, `head`: it leaves a disjoint source region alone. */
  method EncodeHeader(dst: array<u8>, off: nat, size: nat, src: array<u8>, from: nat,
                      ghost head: Bytes, ghost payload: Bytes)
    returns (p: nat)
    requires head == Varint(size % 0x1_0000_0000)
    requires off + |head| <= dst.Length && from + size <= src.Length && src[from..from + size] == payload
    requires src == dst ==> from + size <= off || off + |head| <= from
    modifies dst
    ensures dst[..] == Splice(old(dst[..]), off, head)
    ensures p == off + |head|
    ensures src[from..from + size] == payload
  {
    p := EncodeVarint32(dst, off, size % 0x1_0000_0000);
    forall i | 0 <= i < size
      ensures src[from + i] == payload[i]
    {
      if src == dst {
        assert src[from + i] == dst[..][from + i];
      }
    }
  }

  method EncodeLengthPrefixedSlice(dst: array<u8>, off: nat, value: Slice) returns (end: nat)
    requires value.Valid()
    requires off + |LengthPrefixed(value.Contents())| <= dst.Length
    requires value.data == dst ==>
      value.off + value.size <= off || off + |LengthPrefixed(value.Contents())| <= value.off
    modifies dst
    ensures dst[..] == Splice(old(dst[..]), off, LengthPrefixed(old(value.Contents())))
    ensures end == off + |LengthPrefixed(old(value.Contents()))|
  {
    ghost var was, payload := dst[..], value.Contents();
    ghost var head := Varint(value.size % 0x1_0000_0000);
    assert LengthPrefixed(payload) == head + payload;
    var p := EncodeHeader(dst, off, value.size, value.data, value.off, head, payload);
    CopyBytes(dst, p, value.data, value.off, value.size, payload);
    SpliceTwice(was, off, head, payload);
    end := p + value.size;
  }

  method PutLengthPrefixedSlice(dst: ByteString, value: Slice)
    requires value.Valid()
    modifies dst
    ensures dst.data == old(dst.data) + LengthPrefixed(value.Contents())
  {
    PutVarint32(dst, value.size % 0x1_0000_0000);
    dst.Append(value.data[value.off..value.off + value.size]);
  }

  // ---------- decoders ----------

  lemma LowOfDoubledSum(r: nat, z: nat, low: nat, w: nat)
    requires w > 0 && Low(r / 2 + z, w - 1) == r / 2 + low
    ensures Low(r + 2 * z, w) == r + 2 * low
  {
    LowOfPair(r / 2 + z, r % 2, w);
  }

  lemma {:induction false} LowOfSum(r: nat, x: nat, k: nat, w: nat)
    requires r < Pow2(k) && k <= w
    ensures Low(r + x * Pow2(k), w) == r + Low(x, w - k) * Pow2(k)
  {
    if k == 0 {
      assert r + x * 1 == x;
    } else {
      var p := Pow2(k - 1);
      LowOfSum(r / 2, x, k - 1, w - 1);
      LowOfDoubledSum(r, x * p, Low(x, w - k) * p, w);
      DoubleProduct(x, p);
      DoubleProduct(Low(x, w - k), p);
    }
  }

  /** `result |= x << k` adds x * 2^k, in a word of w bits, to a result below 2^k. */
  lemma OrShiftAdds(result: nat, x: nat, k: nat, w: nat)
    requires result < Pow2(k) && k <= w
    ensures BitOr(result, Shl(x, k, w)) == Low(result + x * Pow2(k), w)
  {
    ShlDigits(x, k, w);
    OrDisjoint(result, Shl(x, k, w), k);
    LowOfSum(result, x, k, w);
  }

  lemma {:induction false} Pow128IsPow2(n: nat)
    ensures Pow128(n) == Pow2(7 * n)
  {
    if n > 0 {
      Pow128IsPow2(n - 1);
      var k := 7 * n - 7;
      assert Pow2(k + 2) == 4 * Pow2(k);
      assert Pow2(k + 4) == 16 * Pow2(k);
      assert Pow2(k + 6) == 64 * Pow2(k);
    }
  }

  /** One round of a decoder loop extends the number read so far by one byte. */
  lemma DecodeRound(bytes: Bytes, n: nat, x: nat, shift: nat, w: nat)
    requires n < |bytes| && x < 128 && (bytes[n] == x || bytes[n] == x + 128)
    requires shift == 7 * n && shift <= w
    ensures BitOr(Low(Base128(bytes[..n]), w), Shl(x, shift, w)) == Low(Base128(bytes[..n + 1]), w)
  {
    var read := bytes[..n];
    Base128Bounded(read);
    Pow128IsPow2(n);
    Pow2Monotone(shift, w);
    LowBounded(Base128(read), w);
    OrShiftAdds(Base128(read), x, shift, w);
    Base128Append(read, bytes[n]);
    DivModUnique(bytes[n], 128, if bytes[n] == x then 0 else 1, x);
    assert bytes[..n + 1] == read + [bytes[n]];
  }

  /**
    * The state of a decoder loop after n rounds: all n bytes announced that more
    * follow, and `result` is the number of their low seven bits in a word of w bits.
    */
  ghost predicate Reading(bytes: Bytes, n: nat, result: nat, w: nat) {
    && n <= |bytes|
    && (forall i :: 0 <= i < n ==> bytes[i] >= 128)
    && result == Low(Base128(bytes[..n]), w)
  }

  lemma StartReading(bytes: Bytes, w: nat)
    ensures Reading(bytes, 0, 0, w)
  {
    LowBounded(0, w);
  }

  /** A decoder of w-bit words accepts `value`, stored in the first n bytes. */
  ghost predicate Accepts(bytes: Bytes, n: nat, value: nat, w: nat) {
    && (w == 32 && n <= 5 ==> Parse32(bytes) == Parsed(value, n))
    && (w == 64 && n <= 10 ==> Parse64(bytes) == Parsed(value, n))
  }

  lemma WordBound(x: nat, w: nat)
    ensures w == 32 ==> Low(x, w) == x % 0x1_0000_0000
    ensures w == 64 ==> Low(x, w) == x % 0x1_0000_0000_0000_0000
  {
    Pow2Values();
    LowIsMod(x, w);
  }

  /** `result |= x << shift` in a word of w bits, where x is the low seven bits of byte n. */
  method OrShifted(result: nat, x: nat, shift: nat, w: nat, ghost bytes: Bytes, ghost n: nat) returns (r: nat)
    requires n < |bytes| && x < 128 && (bytes[n] == x || bytes[n] == x + 128)
    requires shift == 7 * n && shift <= w
    requires Reading(bytes, n, result, w)
    ensures bytes[n] >= 128 ==> Reading(bytes, n + 1, r, w)
    ensures bytes[n] < 128 ==> Accepts(bytes, n + 1, r, w)
    ensures w == 32 ==> r < 0x1_0000_0000
    ensures w == 64 ==> r < 0x1_0000_0000_0000_0000
  {
    DecodeRound(bytes, n, x, shift, w);
    FinishRound(bytes, n, w);
    r := BitOr(result, Shl(x, shift, w));
  }

  lemma FinishRound(bytes: Bytes, n: nat, w: nat)
    requires n < |bytes| && forall i :: 0 <= i < n ==> bytes[i] >= 128
    ensures var r := Low(Base128(bytes[..n + 1]), w);
      && (bytes[n] >= 128 ==> Reading(bytes, n + 1, r, w))
      && (bytes[n] < 128 ==> Accepts(bytes, n + 1, r, w))
      && (w == 32 ==> r < 0x1_0000_0000)
      && (w == 64 ==> r < 0x1_0000_0000_0000_0000)
  {
    WordBound(Base128(bytes[..n + 1]), w);
  }

  lemma NeverStops(bytes: Bytes, n: nat, result: nat, w: nat)
    requires Reading(bytes, n, result, w)
    requires n == |bytes| || 7 * n >= w
    ensures w == 32 ==> Parse32(bytes) == Failed
    ensures w == 64 ==> Parse64(bytes) == Failed
  {
  }

  lemma ByteAt(buf: array<u8>, p: nat, limit: nat, n: nat)
    requires p + n < limit <= buf.Length
    ensures buf[p..limit][n] == buf[p + n]
  {
  }

  /** What the pointer decoders answer, as a function of the bytes between p and limit. */
  ghost predicate Answers(q: Option<nat>, p: nat, result: nat, before: nat, parsed: Parsed) {
    match parsed
    case Failed => q == None && result == before
    case Parsed(v, used) => q == Some(p + used) && result == v
  }

  method GetVarint32PtrFallback(buf: array<u8>, p: nat, limit: nat, value: Cell<u32>) returns (q: Option<nat>)
    requires p <= limit <= buf.Length
    modifies value
    ensures Answers(q, p, value.val, old(value.val), old(Parse32(buf[p..limit])))
  {
    ghost var bytes := buf[p..limit];
    var result: u32 := 0;
    StartReading(bytes, 32);
    var shift := 0;
    var at := p;
    ghost var n := 0;
    while shift <= 28 && at < limit
      invariant at == p + n && at <= limit && shift == 7 * n
      invariant Reading(bytes, n, result, 32)
      invariant value.val == old(value.val)
      decreases limit - at
    {
      var byte := buf[at];
      ByteAt(buf, p, limit, n);
      at := at + 1;
      if HasMore(byte) {
        result := OrShifted(result, SevenBits(byte), shift, 32, bytes, n);
      } else {
        result := OrShifted(result, byte, shift, 32, bytes, n);
        value.val := result;
        return Some(at);
      }
      shift := shift + 7;
      n := n + 1;
    }
    NeverStops(bytes, n, result, 32);
    return None;
  }

  method GetVarint32Ptr(buf: array<u8>, p: nat, limit: nat, value: Cell<u32>) returns (q: Option<nat>)
    requires p <= limit <= buf.Length
    modifies value
    ensures Answers(q, p, value.val, old(value.val), old(Parse32(buf[p..limit])))
  {
    if p < limit {
      var result := buf[p];
      if !HasMore(result) {
        SingleByte(buf[p..limit]);
        value.val := result;
        return Some(p + 1);
      }
    }
    q := GetVarint32PtrFallback(buf, p, limit, value);
  }

  /** The fast path: a first byte below 128 is the value. */
  lemma SingleByte(bytes: Bytes)
    requires bytes != [] && bytes[0] < 128
    ensures Parse32(bytes) == Parsed(bytes[0], 1)
  {
    assert bytes[..1] == [bytes[0]];
    assert Base128([bytes[0]]) == bytes[0] % 128 + 128 * Base128([]);
  }

  method GetVarint64Ptr(buf: array<u8>, p: nat, limit: nat, value: Cell<u64>) returns (q: Option<nat>)
    requires p <= limit <= buf.Length
    modifies value
    ensures Answers(q, p, value.val, old(value.val), old(Parse64(buf[p..limit])))
  {
    ghost var bytes := buf[p..limit];
    var result: u64 := 0;
    StartReading(bytes, 64);
    var shift := 0;
    var at := p;
    ghost var n := 0;
    while shift <= 63 && at < limit
      invariant at == p + n && at <= limit && shift == 7 * n
      invariant Reading(bytes, n, result, 64)
      invariant value.val == old(value.val)
      decreases limit - at
    {
      var byte := buf[at];
      ByteAt(buf, p, limit, n);
      at := at + 1;
      if HasMore(byte) {
        result := OrShifted(result, SevenBits(byte), shift, 64, bytes, n);
      } else {
        result := OrShifted(result, byte, shift, 64, bytes, n);
        value.val := result;
        return Some(at);
      }
      shift := shift + 7;
      n := n + 1;
    }
    NeverStops(bytes, n, result, 64);
    return None;
  }

  /** What a `Get...` routine leaves in its input slice. */
  ghost predicate Advanced(after: Slice, data: array<u8>, off: nat, size: nat, used: nat)
    reads after
  {
    used <= size && after.data == data && after.off == off + used && after.size == size - used
  }

  method GetVarint32(input: Slice, value: Cell<u32>) returns (ok: bool)
    requires input.Valid()
    modifies input, value
    ensures input.Valid()
    ensures ok <==> old(Parse32(input.Contents())).Parsed?
    ensures value.val == if ok then old(Parse32(input.Contents())).value else old(value.val)
    ensures Advanced(input, old(input.data), old(input.off), old(input.size),
                     if ok then old(Parse32(input.Contents())).used else 0)
    ensures ok ==> input.Contents() == old(input.Contents())[old(Parse32(input.Contents())).used..]
    ensures !ok ==> input.Contents() == old(input.Contents())
  {
    var p := input.off;
    var limit := p + input.size;
    var q := GetVarint32Ptr(input.data, p, limit, value);
    if q == None {
      return false;
    } else {
      Window(input.data, p, input.size, q.value - p, limit - q.value);
      input.Assign(input.data, q.value, limit - q.value);
      return true;
    }
  }

  method GetVarint64(input: Slice, value: Cell<u64>) returns (ok: bool)
    requires input.Valid()
    modifies input, value
    ensures input.Valid()
    ensures ok <==> old(Parse64(input.Contents())).Parsed?
    ensures value.val == if ok then old(Parse64(input.Contents())).value else old(value.val)
    ensures Advanced(input, old(input.data), old(input.off), old(input.size),
                     if ok then old(Parse64(input.Contents())).used else 0)
    ensures ok ==> input.Contents() == old(input.Contents())[old(Parse64(input.Contents())).used..]
    ensures !ok ==> input.Contents() == old(input.Contents())
  {
    var p := input.off;
    var limit := p + input.size;
    var q := GetVarint64Ptr(input.data, p, limit, value);
    if q == None {
      return false;
    } else {
      Window(input.data, p, input.size, q.value - p, limit - q.value);
      input.Assign(input.data, q.value, limit - q.value);
      return true;
    }
  }

  /** A length-prefixed string: where its payload starts, and its length. */
  datatype Prefixed = BadVarint | TooShort(header: nat) | Payload(header: nat, length: nat) {
    /** How far the slice form moves its input. */
    function Consumed(): nat {
      match this
      case BadVarint => 0
      case TooShort(header) => header
      case Payload(header, length) => header + length
    }
  }

  function ParsePrefixed(bs: Bytes): (r: Prefixed)
    ensures r.TooShort? ==> r.header <= |bs|
    ensures r.Payload? ==> r.header + r.length <= |bs|
  {
    match Parse32(bs)
    case Failed => BadVarint
    case Parsed(len, used) => if used + len > |bs| then TooShort(used) else Payload(used, len)
  }

  /** The payload of an accepted length-prefixed string. */
  function PayloadOf(bs: Bytes): Bytes {
    match ParsePrefixed(bs)
    case BadVarint => []
    case TooShort(_) => []
    case Payload(header, length) => bs[header..header + length]
  }

  /** Payload and rest, taken one after the other from what follows the varint. */
  lemma PayloadParts(bs: Bytes)
    requires ParsePrefixed(bs).Payload?
    ensures var Payload(header, length) := ParsePrefixed(bs);
      bs[header..][..length] == PayloadOf(bs) && bs[header..][length..] == bs[header + length..]
  {
  }

  ghost predicate Views(s: Slice, data: array<u8>, off: nat, size: nat)
    reads s
  {
    s.Valid() && s.data == data && s.off == off && s.size == size
  }

  /** The pointer form: on failure the result slice is left as it was. */
  method GetLengthPrefixedSlicePtr(buf: array<u8>, p: nat, limit: nat, result: Slice) returns (q: Option<nat>)
    requires p <= limit <= buf.Length
    modifies result
    ensures q.Some? <==> ParsePrefixed(buf[p..limit]).Payload?
    ensures q == None ==> unchanged(result)
    ensures q.Some? ==>
      && var Payload(header, length) := ParsePrefixed(buf[p..limit]);
      && q.value == p + header + length
      && Views(result, buf, p + header, length)
  {
    var len := new Cell<u32>(0);
    var r := GetVarint32Ptr(buf, p, limit, len);
    if r == None {
      return None;
    }
    if r.value + len.val > limit {
      return None;
    }
    result.Assign(buf, r.value, len.val);
    return Some(r.value + len.val);
  }

  /**
    * The slice form.  On a bad varint the input stays; on a payload that is too
    * short the input has already been moved past the varint.
    */
  method GetLengthPrefixedSlice(input: Slice, result: Slice) returns (ok: bool)
    requires input.Valid()
    modifies input, result
    ensures input.Valid()
    ensures ok <==> old(ParsePrefixed(input.Contents())).Payload?
    ensures input != result || !ok ==>
      Advanced(input, old(input.data), old(input.off), old(input.size),
               old(ParsePrefixed(input.Contents())).Consumed())
    ensures input != result ==>
      if ok then
        Views(result, old(input.data), old(input.off) + old(ParsePrefixed(input.Contents())).header,
              old(ParsePrefixed(input.Contents())).length)
      else unchanged(result)
    ensures input != result && ok ==>
      && result.Contents() == old(PayloadOf(input.Contents()))
      && input.Contents() == old(input.Contents())[old(ParsePrefixed(input.Contents())).Consumed()..]
    ensures !ok ==> input.Contents() == old(input.Contents())[old(ParsePrefixed(input.Contents())).Consumed()..]
    // one object for both: the payload it was set to is then removed from it
    ensures input == result && ok ==>
      Views(input, old(input.data), old(input.off) + old(ParsePrefixed(input.Contents())).Consumed(), 0)
  {
    var len := new Cell<u32>(0);
    ghost var bytes := input.Contents();
    var parsed := GetVarint32(input, len);
    ghost var prefixed := ParsePrefixed(bytes);
    if parsed && input.size >= len.val {
      PayloadParts(bytes);
      assert prefixed == Payload(Parse32(bytes).used, len.val);
      TakePayload(input, result, len.val);
      return true;
    } else {
      assert prefixed == if parsed then TooShort(Parse32(bytes).used) else BadVarint;
      return false;
    }
  }

  /** The last two statements: set the result to the payload, then drop it from the input. */
  method TakePayload(input: Slice, result: Slice, len: nat)
    requires input.Valid() && len <= input.size
    modifies input, result
    ensures input.Valid() && input.data == old(input.data) && input.off == old(input.off) + len
    ensures input != result ==> input.size == old(input.size) - len
    ensures input != result ==> Views(result, old(input.data), old(input.off), len)
    ensures input != result ==> result.Contents() == old(input.Contents())[..len]
    ensures input != result ==> input.Contents() == old(input.Contents())[len..]
    ensures input == result ==> input.size == 0
  {
    Window(input.data, input.off, input.size, 0, len);
    result.Assign(input.data, input.off, len);
    input.RemovePrefix(len);
  }
}

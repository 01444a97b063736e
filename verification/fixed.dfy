/**
  * Fixed-width little-endian integers.  `littleEndian` stands for
  * `port::kLittleEndian`: a host for which it holds copies the value as its memory
  * stores it, any other host shifts and masks.
  */
module Fixed {
  import opened Words
  import opened Storage

  /** The n base-256 digits of v, least significant first: the memory image on a little-endian host. */
  function LittleEndian(v: nat, n: nat): (bs: seq<u8>)
    ensures |bs| == n
    decreases v, n
  {
    if n == 0 then [] else [v % 256] + LittleEndian(v / 256, n - 1)
  }

  function FromLittleEndian(bs: seq<u8>): nat {
    if bs == [] then 0 else bs[0] + 256 * FromLittleEndian(bs[1..])
  }

  function Pow256(n: nat): nat {
    if n == 0 then 1 else 256 * Pow256(n - 1)
  }

  lemma Pow256Values()
    ensures Pow256(2) == 0x1_0000 && Pow256(4) == 0x1_0000_0000 && Pow256(8) == 0x1_0000_0000_0000_0000
  {
  }

  /** Decoding the digits of a number that fits gives the number back. */
  lemma {:induction false} DecodeAfterEncode(v: nat, n: nat)
    requires v < Pow256(n)
    ensures FromLittleEndian(LittleEndian(v, n)) == v
  {
    if n > 0 {
      DecodeAfterEncode(v / 256, n - 1);
      assert LittleEndian(v, n)[1..] == LittleEndian(v / 256, n - 1);
    }
  }

  /** Encoding the number of any bytes gives the bytes back. */
  lemma {:induction false} EncodeAfterDecode(bs: seq<u8>)
    ensures FromLittleEndian(bs) < Pow256(|bs|)
    ensures LittleEndian(FromLittleEndian(bs), |bs|) == bs
  {
    if bs != [] {
      EncodeAfterDecode(bs[1..]);
      var v := FromLittleEndian(bs);
      assert v % 256 == bs[0] && v / 256 == FromLittleEndian(bs[1..]);
      assert bs == [bs[0]] + bs[1..];
    }
  }

  // ---------- shift and mask ----------

  /** `(value >> k) & 0xff`. */
  function ByteOf(value: nat, k: nat): (b: u8)
    ensures b == Shr(value, k) % 256
  {
    Pow2Values();
    AndMask(Shr(value, k), 8);
    LowIsMod(Shr(value, k), 8);
    BitAnd(Shr(value, k), 0xff)
  }

  lemma ShrByte(v: nat, k: nat)
    ensures Shr(v, k + 8) == Shr(v / 256, k)
  {
    ShrTwice(v, 8, k);
    ShrIsDiv(v, 8);
    Pow2Values();
  }

  lemma {:induction false} ShrTwice(v: nat, j: nat, k: nat)
    ensures Shr(v, j + k) == Shr(Shr(v, j), k)
  {
    if j > 0 && v > 0 {
      ShrTwice(v / 2, j - 1, k);
    }
  }

  /** Shifting and masking picks the digits a little-endian host stores. */
  lemma {:induction false} DigitAt(v: nat, n: nat, i: nat)
    requires i < n
    ensures LittleEndian(v, n)[i] == ByteOf(v, 8 * i)
  {
    if i > 0 {
      DigitAt(v / 256, n - 1, i - 1);
      ShrByte(v, 8 * i - 8);
      assert LittleEndian(v, n)[i] == LittleEndian(v / 256, n - 1)[i - 1];
      assert 8 * (i - 1) == 8 * i - 8;
    }
  }

  // ---------- encoders ----------

  method EncodeFixed16(buf: array<u8>, off: nat, value: u16, littleEndian: bool)
    requires off + 2 <= buf.Length
    modifies buf
    ensures buf[..] == Splice(old(buf[..]), off, LittleEndian(value, 2))
  {
    ghost var was, image := buf[..], LittleEndian(value, 2);
    if littleEndian {
      StoreImage(buf, off, LittleEndian(value, 2));
    } else {
      var p := StoreDigit(buf, off, value, 0, was, off, image);
      p := StoreDigit(buf, p, value, 8, was, off, image);
    }
  }

  method EncodeFixed32(buf: array<u8>, off: nat, value: u32, littleEndian: bool)
    requires off + 4 <= buf.Length
    modifies buf
    ensures buf[..] == Splice(old(buf[..]), off, LittleEndian(value, 4))
  {
    ghost var was, image := buf[..], LittleEndian(value, 4);
    if littleEndian {
      StoreImage(buf, off, LittleEndian(value, 4));
    } else {
      var p := StoreDigit(buf, off, value, 0, was, off, image);
      p := StoreDigit(buf, p, value, 8, was, off, image);
      p := StoreDigit(buf, p, value, 16, was, off, image);
      p := StoreDigit(buf, p, value, 24, was, off, image);
    }
  }

  method EncodeFixed64(buf: array<u8>, off: nat, value: u64, littleEndian: bool)
    requires off + 8 <= buf.Length
    modifies buf
    ensures buf[..] == Splice(old(buf[..]), off, LittleEndian(value, 8))
  {
    ghost var was, image := buf[..], LittleEndian(value, 8);
    if littleEndian {
      StoreImage(buf, off, LittleEndian(value, 8));
    } else {
      var p := StoreDigit(buf, off, value, 0, was, off, image);
      p := StoreDigit(buf, p, value, 8, was, off, image);
      p := StoreDigit(buf, p, value, 16, was, off, image);
      p := StoreDigit(buf, p, value, 24, was, off, image);
      p := StoreDigit(buf, p, value, 32, was, off, image);
      p := StoreDigit(buf, p, value, 40, was, off, image);
      p := StoreDigit(buf, p, value, 48, was, off, image);
      p := StoreDigit(buf, p, value, 56, was, off, image);
    }
  }

  /** `buf[i] = (value >> k) & 0xff`, with i = k / 8. */
  method StoreDigit(buf: array<u8>, p: nat, value: nat, k: nat,
                    ghost was: seq<u8>, ghost off: nat, ghost image: seq<u8>)
    returns (next: nat)
    requires off <= p < off + |image| <= buf.Length == |was|
    requires image == LittleEndian(value, |image|) && k == 8 * (p - off)
    requires buf[..] == Splice(was, off, image[..p - off])
    modifies buf
    ensures next == p + 1
    ensures buf[..] == Splice(was, off, image[..next - off])
    ensures next == off + |image| ==> buf[..] == Splice(was, off, image)
  {
    DigitAt(value, |image|, p - off);
    next := StoreByte(buf, p, ByteOf(value, k), was, off, image);
  }

  method PutFixed32(dst: ByteString, value: u32, littleEndian: bool)
    modifies dst
    ensures dst.data == old(dst.data) + LittleEndian(value, 4)
  {
    var buf := new u8[4];
    EncodeFixed32(buf, 0, value, littleEndian);
    dst.Append(buf[..]);
  }

  method PutFixed64(dst: ByteString, value: u64, littleEndian: bool)
    modifies dst
    ensures dst.data == old(dst.data) + LittleEndian(value, 8)
  {
    var buf := new u8[8];
    EncodeFixed64(buf, 0, value, littleEndian);
    dst.Append(buf[..]);
  }

  // ---------- decoders ----------

  /** `acc | (b << k)` for a byte above the k digits already collected, where p is 2^k. */
  lemma OrByte(acc: nat, b: u8, k: nat, p: nat, w: nat)
    requires p == Pow2(k) && acc < p && k + 8 <= w
    ensures BitOr(acc, Shl(b, k, w)) == acc + b * p
    ensures acc + b * p < 256 * p
  {
    Pow2Values();
    ShlDigits(b, k, w);
    Pow2Monotone(8, w - k);
    LowBounded(b, w - k);
    OrDisjoint(acc, Shl(b, k, w), k);
    TopByteBound(acc, b, p);
  }

  lemma TopByteBound(acc: nat, b: u8, p: nat)
    requires acc < p
    ensures acc + b * p < 256 * p
  {
    assert b * p <= 255 * p;
  }

  lemma Unfold2(bs: seq<u8>)
    requires |bs| == 2
    ensures FromLittleEndian(bs) == bs[0] as int + bs[1] as int * 0x100
  {
    assert bs[1..][1..] == [];
    assert FromLittleEndian(bs[1..]) == bs[1] as int + 256 * FromLittleEndian([]);
  }

  function DecodeFixed16(ptr: seq<u8>, littleEndian: bool): (r: nat)
    requires |ptr| >= 2
    ensures r == FromLittleEndian(ptr[..2])
  {
    if littleEndian then
      FromLittleEndian(ptr[..2])
    else
      Join16(ptr[..2]);
      BitOr(ptr[0], Shl(ptr[1], 8, 32))
  }

  lemma Join16(bs: seq<u8>)
    requires |bs| == 2
    ensures BitOr(bs[0], Shl(bs[1], 8, 32)) == FromLittleEndian(bs)
  {
    Pow2Values();
    OrByte(bs[0], bs[1], 8, 0x100, 32);
    Unfold2(bs);
  }

  function DecodeFixed32(ptr: seq<u8>, littleEndian: bool): (r: nat)
    requires |ptr| >= 4
    ensures r == FromLittleEndian(ptr[..4])
  {
    if littleEndian then
      FromLittleEndian(ptr[..4])
    else
      Join32(ptr[..4]);
      BitOr(BitOr(BitOr(ptr[0], Shl(ptr[1], 8, 32)), Shl(ptr[2], 16, 32)), Shl(ptr[3], 24, 32))
  }

  lemma Join32(bs: seq<u8>)
    requires |bs| == 4
    ensures BitOr(BitOr(BitOr(bs[0], Shl(bs[1], 8, 32)), Shl(bs[2], 16, 32)), Shl(bs[3], 24, 32))
         == FromLittleEndian(bs)
  {
    Join16(bs[..2]);
    Unfold2(bs[..2]);
    Unfold2(bs[2..]);
    SplitNumber(bs, 2);
    Pow256Values();
    AppendTopBytes(FromLittleEndian(bs[..2]), bs[2], bs[3]);
  }

  lemma AppendTopBytes(low: nat, b: u8, c: u8)
    requires low < 0x1_0000
    ensures BitOr(BitOr(low, Shl(b, 16, 32)), Shl(c, 24, 32)) == low + (b as int + c as int * 0x100) * 0x1_0000
  {
    Pow2Values();
    OrByte(low, b, 16, 0x1_0000, 32);
    OrByte(low + b as int * 0x1_0000, c, 24, 0x100_0000, 32);
  }

  function DecodeFixed64(ptr: seq<u8>, littleEndian: bool): (r: nat)
    requires |ptr| >= 8
    ensures r == FromLittleEndian(ptr[..8])
  {
    if littleEndian then
      FromLittleEndian(ptr[..8])
    else
      var lo := DecodeFixed32(ptr, littleEndian);
      var hi := DecodeFixed32(ptr[4..], littleEndian);
      JoinHalves(ptr[..8]);
      assert ptr[..8][..4] == ptr[..4] && ptr[..8][4..] == ptr[4..][..4];
      BitOr(Shl(hi, 32, 64), lo)
  }

  lemma JoinHalves(bs: seq<u8>)
    requires |bs| == 8
    ensures BitOr(Shl(FromLittleEndian(bs[4..]), 32, 64), FromLittleEndian(bs[..4])) == FromLittleEndian(bs)
  {
    EncodeAfterDecode(bs[..4]);
    EncodeAfterDecode(bs[4..]);
    Pow256Values();
    SplitNumber(bs, 4);
    OrHalves(FromLittleEndian(bs[..4]), FromLittleEndian(bs[4..]));
  }

  lemma OrHalves(lo: nat, hi: nat)
    requires lo < 0x1_0000_0000 && hi < 0x1_0000_0000
    ensures BitOr(Shl(hi, 32, 64), lo) == lo + hi * 0x1_0000_0000
  {
    Pow2Values();
    LowBounded(hi, 32);
    ShlDigits(hi, 32, 64);
    OrDisjoint(lo, Shl(hi, 32, 64), 32);
    BitOrCommutes(lo, Shl(hi, 32, 64));
  }

  lemma {:induction false} BitOrCommutes(a: nat, b: nat)
    ensures BitOr(a, b) == BitOr(b, a)
  {
    if a > 0 && b > 0 {
      BitOrCommutes(a / 2, b / 2);
    }
  }

  lemma {:induction false} SplitNumber(bs: seq<u8>, n: nat)
    requires n <= |bs|
    ensures FromLittleEndian(bs) == FromLittleEndian(bs[..n]) + FromLittleEndian(bs[n..]) * Pow256(n)
  {
    if n == 0 {
      assert bs[0..] == bs;
    } else {
      SplitNumber(bs[1..], n - 1);
      assert bs[..n][1..] == bs[1..][..n - 1] && bs[1..][n - 1..] == bs[n..];
      ShiftedSum(FromLittleEndian(bs[1..][..n - 1]), FromLittleEndian(bs[n..]), Pow256(n - 1));
    }
  }

  lemma ShiftedSum(low: nat, high: nat, p: nat)
    ensures 256 * (low + high * p) == 256 * low + high * (256 * p)
  {
  }

  // ---------- round trips ----------

  /** Decoding inverts encoding at each width, whichever host wrote and whichever reads. */
  lemma FixedRoundTrip(v: u64, more: seq<u8>, readerLE: bool)
    ensures v < 0x1_0000 ==> DecodeFixed16(LittleEndian(v, 2) + more, readerLE) == v
    ensures v < 0x1_0000_0000 ==> DecodeFixed32(LittleEndian(v, 4) + more, readerLE) == v
    ensures DecodeFixed64(LittleEndian(v, 8) + more, readerLE) == v
  {
    Pow256Values();
    assert (LittleEndian(v, 2) + more)[..2] == LittleEndian(v, 2);
    assert (LittleEndian(v, 4) + more)[..4] == LittleEndian(v, 4);
    assert (LittleEndian(v, 8) + more)[..8] == LittleEndian(v, 8);
    if v < 0x1_0000 { DecodeAfterEncode(v, 2); }
    if v < 0x1_0000_0000 { DecodeAfterEncode(v, 4); }
    DecodeAfterEncode(v, 8);
  }

  /** Encoding inverts decoding on every byte sequence. */
  lemma FixedReencode(bs: seq<u8>, readerLE: bool)
    ensures |bs| == 2 ==> LittleEndian(DecodeFixed16(bs, readerLE), 2) == bs
    ensures |bs| == 4 ==> LittleEndian(DecodeFixed32(bs, readerLE), 4) == bs
    ensures |bs| == 8 ==> LittleEndian(DecodeFixed64(bs, readerLE), 8) == bs
  {
    EncodeAfterDecode(bs);
    assert bs[..|bs|] == bs;
  }
}

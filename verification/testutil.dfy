/** The string generators built on `Random`. */
module TestStrings {
  import opened Words
  import opened Storage
  import opened Modular
  import opened RandomGenerator
  import opened RandomTheorems

  /** The bytes `RandomString` draws: printable characters from the successive seeds. */
  function Printable(s: Seed, n: nat): (r: seq<u8>)
    ensures |r| == n
  {
    seq(n, i requires 0 <= i < n => 0x20 + SeedAfter(s, i + 1) % 95)
  }

  method RandomString(rnd: Random, len: nat, dst: ByteString)
    requires rnd.Valid()
    modifies rnd, dst
    ensures rnd.Valid() && rnd.seed == SeedAfter(old(rnd.seed), len)
    ensures dst.data == Printable(old(rnd.seed), len)
  {
    ghost var start := rnd.seed;
    dst.Resize(len);
    for i := 0 to len
      invariant rnd.Valid() && rnd.seed == SeedAfter(start, i)
      invariant |dst.data| == len && dst.data[..i] == Printable(start, i)
    {
      var x := rnd.Uniform(95);
      SeedAfterAdd(start, i, 1);
      dst.data := dst.data[i := 0x20 + x];
    }
  }

  /** Byte i of a random string in closed form. */
  lemma PrintableByte(s: Seed, n: nat, i: nat)
    requires i < n
    ensures Printable(s, n)[i] == 0x20 + IntPow(A, i + 1) * s % M % 95
    ensures 0x20 <= Printable(s, n)[i] <= 0x7e
  {
    ClosedForm(s, i + 1);
  }

  const TEST_CHARS: seq<u8> := [0x00, 0x01, 0x61, 0x62, 0x63, 0x64, 0x65, 0xfd, 0xfe, 0xff]

  function KeyBytes(s: Seed, n: nat): (r: seq<u8>)
    ensures |r| == n
  {
    seq(n, i requires 0 <= i < n => TEST_CHARS[SeedAfter(s, i + 1) % 10])
  }

  method RandomKey(rnd: Random, len: nat) returns (result: seq<u8>)
    requires rnd.Valid()
    modifies rnd
    ensures rnd.Valid() && rnd.seed == SeedAfter(old(rnd.seed), len)
    ensures result == KeyBytes(old(rnd.seed), len)
  {
    ghost var start := rnd.seed;
    result := [];
    for i := 0 to len
      invariant rnd.Valid() && rnd.seed == SeedAfter(start, i)
      invariant result == KeyBytes(start, i)
    {
      var x := rnd.Uniform(10);
      SeedAfterAdd(start, i, 1);
      result := result + [TEST_CHARS[x]];
    }
  }

  /** Byte i of a random key in closed form, over the ten characters of the test alphabet. */
  lemma KeyByte(s: Seed, n: nat, i: nat)
    requires i < n
    ensures KeyBytes(s, n)[i] ==
            [0x00, 0x01, 0x61, 0x62, 0x63, 0x64, 0x65, 0xfd, 0xfe, 0xff][IntPow(A, i + 1) * s % M % 10]
  {
    ClosedForm(s, i + 1);
  }

  /** The effective raw length: at least one byte. */
  function RawLength(raw: int): (r: nat)
    ensures r >= 1
  {
    if raw < 1 then 1 else raw
  }

  /** `raw` copies repeated cyclically to `len` bytes. */
  ghost predicate Cyclic(s: seq<u8>, raw: seq<u8>, len: nat)
    requires raw != []
  {
    |s| == len && forall i :: 0 <= i < len ==> s[i] == raw[i % |raw|]
  }

  method CompressibleString(rnd: Random, raw: int, len: nat, dst: ByteString)
    requires rnd.Valid()
    modifies rnd, dst
    ensures rnd.Valid()
    ensures raw >= 1 ==> rnd.seed == SeedAfter(old(rnd.seed), raw)
    ensures raw < 1 ==> rnd.seed == SeedAfter(old(rnd.seed), 1)
    ensures Cyclic(dst.data, Printable(old(rnd.seed), RawLength(raw)), len)
  {
    var length := if raw < 1 then 1 else raw;
    var rawData := new ByteString();
    RandomString(rnd, length, rawData);
    ghost var seed, unit := rnd.seed, rawData.data;
    dst.data := [];
    ghost var copies := 0;
    while |dst.data| < len
      invariant rnd.seed == seed && rawData.data == unit
      invariant |dst.data| == copies * length && Cyclic(dst.data, unit, |dst.data|)
      decreases len - |dst.data|
    {
      AppendCycle(dst.data, unit, copies);
      dst.Append(rawData.data);
      copies := copies + 1;
    }
    dst.Resize(len);
  }

  lemma AppendCycle(s: seq<u8>, unit: seq<u8>, copies: nat)
    requires unit != [] && |s| == copies * |unit| && Cyclic(s, unit, |s|)
    ensures Cyclic(s + unit, unit, |s + unit|)
    ensures |s + unit| == (copies + 1) * |unit|
  {
    forall i | |s| <= i < |s + unit|
      ensures (s + unit)[i] == unit[i % |unit|]
    {
      DivModUnique(i, |unit|, copies, i - |s|);
    }
  }

  /** Byte i of a compressible string in closed form. */
  lemma CompressibleByte(s: Seed, raw: int, len: nat, out: seq<u8>, i: nat)
    requires Cyclic(out, Printable(s, RawLength(raw)), len) && i < len
    ensures |out| == len
    ensures raw >= 1 ==> out[i] == 0x20 + IntPow(A, i % raw + 1) * s % M % 95
    ensures raw < 1 ==> out[i] == 0x20 + A * s % M % 95
  {
    if raw >= 1 {
      ClosedForm(s, i % raw + 1);
    } else {
      FirstDraw(s);
    }
  }

  lemma FirstDraw(s: Seed)
    ensures SeedAfter(s, 1) == A * s % M
  {
    MulCommutes(s, A);
    assert SeedAfter(s, 1) == Step(SeedAfter(s, 0));
  }
}

/**
  * Streams of records: varint32, varint64 and length-prefixed values appended one
  * after another with `Put...` and read back with `Get...`.
  */
module Records {
  import opened Words
  import opened Storage
  import opened Slices
  import opened VarintSpec
  import opened Coding

  datatype Kind = Int32 | Int64 | Text

  datatype Record = R32(v: u32) | R64(w: u64) | RText(s: Bytes) {
    function KindOf(): Kind {
      match this
      case R32(_) => Int32
      case R64(_) => Int64
      case RText(_) => Text
    }

    /** What the matching `Put...` routine appends. */
    function Encode(): Bytes {
      match this
      case R32(v) => Varint(v)
      case R64(w) => Varint(w)
      case RText(s) => LengthPrefixed(s)
    }

    /** The domain of the length prefix: payloads below 2^32 bytes. */
    predicate WellSized() {
      RText? ==> |s| < 0x1_0000_0000
    }
  }

  datatype Fetched = Nothing | Fetched(record: Record, used: nat)

  /** What the matching `Get...` routine takes from the front of its input. */
  function Decode(kind: Kind, bs: Bytes): (f: Fetched)
    ensures f.Fetched? ==> 1 <= f.used <= |bs|
  {
    match kind
    case Int32 => (match Parse32(bs)
      case Failed => Nothing
      case Parsed(v, used) => Fetched(R32(v), used))
    case Int64 => (match Parse64(bs)
      case Failed => Nothing
      case Parsed(w, used) => Fetched(R64(w), used))
    case Text => (match ParsePrefixed(bs)
      case BadVarint => Nothing
      case TooShort(_) => Nothing
      case Payload(header, length) => Fetched(RText(bs[header..header + length]), header + length))
  }

  /** How far the `Get...` routine moves its input when it fails: past a good varint whose payload is cut short. */
  function Skipped(kind: Kind, bs: Bytes): (k: nat)
    ensures k <= |bs|
  {
    if kind == Text && ParsePrefixed(bs).TooShort? then ParsePrefixed(bs).header else 0
  }

  function EncodeAll(rs: seq<Record>): Bytes {
    if rs == [] then [] else rs[0].Encode() + EncodeAll(rs[1..])
  }

  // ---------- one record ----------

  /** The length prefix read back: the payload length modulo 2^32. */
  lemma ParseLengthPrefixed(s: Bytes, more: Bytes)
    ensures var len := |s| % 0x1_0000_0000;
      ParsePrefixed(LengthPrefixed(s) + more) == Payload(|Varint(len)|, len)
  {
    var len := |s| % 0x1_0000_0000;
    ParseVarint32(len, s + more);
    assert LengthPrefixed(s) + more == Varint(len) + (s + more);
  }

  lemma DecodeText(s: Bytes, more: Bytes)
    ensures var len := |s| % 0x1_0000_0000;
      Decode(Text, LengthPrefixed(s) + more) == Fetched(RText(s[..len]), |Varint(len)| + len)
  {
    var len := |s| % 0x1_0000_0000;
    ParseLengthPrefixed(s, more);
    assert (LengthPrefixed(s) + more)[|Varint(len)|..|Varint(len)| + len] == s[..len];
  }

  /** A length-prefixed payload survives the round trip exactly when it has fewer than 2^32 bytes. */
  lemma TextRoundTripIff(s: Bytes, more: Bytes)
    ensures Decode(Text, LengthPrefixed(s) + more) == Fetched(RText(s), |LengthPrefixed(s)|)
      <==> |s| < 0x1_0000_0000
  {
    DecodeText(s, more);
    var len := |s| % 0x1_0000_0000;
    assert len == |s| ==> s[..len] == s;
    assert |s[..len]| == len;
  }

  lemma DecodeEncode(r: Record, more: Bytes)
    requires r.WellSized()
    ensures Decode(r.KindOf(), r.Encode() + more) == Fetched(r, |r.Encode()|)
  {
    match r
    case R32(v) => ParseVarint32(v, more);
    case R64(w) => ParseVarint64(w, more);
    case RText(s) => TextRoundTripIff(s, more);
  }

  /** No proper prefix of an encoded record is accepted. */
  lemma DecodeRejectsProperPrefix(r: Record, n: nat)
    requires r.WellSized() && n < |r.Encode()|
    ensures Decode(r.KindOf(), r.Encode()[..n]) == Nothing
  {
    match r
    case R32(v) => ParseRejectsProperPrefix(v, n);
    case R64(w) => ParseRejectsProperPrefix(w, n);
    case RText(s) => TextPrefix(s, n);
  }

  lemma TakeAcross(head: Bytes, tail: Bytes, n: nat)
    requires n <= |head| + |tail|
    ensures (head + tail)[..n] == if n < |head| then head[..n] else head + tail[..n - |head|]
  {
  }

  lemma SmallPrefix(s: Bytes)
    requires |s| < 0x1_0000_0000
    ensures LengthPrefixed(s) == Varint(|s|) + s
  {
    DivModSmall(|s|, 0x1_0000_0000);
  }

  lemma CutInVarint(s: Bytes, n: nat, bs: Bytes)
    requires |s| < 0x1_0000_0000 && n < |Varint(|s|)| && bs == Varint(|s|)[..n]
    ensures ParsePrefixed(bs) == BadVarint
  {
    ParseRejectsProperPrefix(|s|, n);
  }

  lemma CutInPayload(s: Bytes, part: Bytes, bs: Bytes)
    requires |part| < |s| < 0x1_0000_0000 && bs == Varint(|s|) + part
    ensures ParsePrefixed(bs) == TooShort(|Varint(|s|)|)
  {
    ParseVarint32(|s|, part);
  }

  /** A cut in the varint is seen there, one in the payload when the payload is taken. */
  lemma TextPrefix(s: Bytes, n: nat)
    requires |s| < 0x1_0000_0000 && n < |LengthPrefixed(s)|
    ensures var header := |Varint(|s|)|;
      ParsePrefixed(LengthPrefixed(s)[..n]) == if n < header then BadVarint else TooShort(header)
  {
    SmallPrefix(s);
    var head, bs := Varint(|s|), LengthPrefixed(s)[..n];
    TakeAcross(head, s, n);
    if n < |head| {
      CutInVarint(s, n, bs);
    } else {
      CutInPayload(s, s[..n - |head|], bs);
    }
  }

  /** The bytes of a length prefix that lies wholly in the first n bytes of the record. */
  function HeaderWithin(r: Record, n: nat): (k: nat)
    ensures k <= n
  {
    if r.RText? && |Varint(|r.s| % 0x1_0000_0000)| <= n then |Varint(|r.s| % 0x1_0000_0000)| else 0
  }

  lemma PrefixSkipped(r: Record, n: nat)
    requires r.WellSized() && n < |r.Encode()|
    ensures Skipped(r.KindOf(), r.Encode()[..n]) == HeaderWithin(r, n)
  {
    if r.RText? {
      TextPrefix(r.s, n);
    }
  }

  // ---------- the routines behind a record ----------

  /** The `Put...` routine of a record; `text` holds the payload of a string. */
  method PutRecord(dst: ByteString, r: Record, text: Slice)
    requires text.Valid() && (r.RText? ==> text.Contents() == r.s)
    modifies dst
    ensures dst.data == old(dst.data) + r.Encode()
  {
    match r
    case R32(v) => PutVarint32(dst, v);
    case R64(w) => PutVarint64(dst, w);
    case RText(_) => PutLengthPrefixedSlice(dst, text);
  }

  /** What the `Get...` routine returns. */
  function Answer(kind: Kind, bs: Bytes): Option<Record> {
    match Decode(kind, bs)
    case Nothing => None
    case Fetched(r, _) => Some(r)
  }

  /** What it leaves in the input. */
  function After(kind: Kind, bs: Bytes): Bytes {
    match Decode(kind, bs)
    case Nothing => bs[Skipped(kind, bs)..]
    case Fetched(_, used) => bs[used..]
  }

  lemma Int32Cases(bs: Bytes)
    ensures Answer(Int32, bs) == (if Parse32(bs).Parsed? then Some(R32(Parse32(bs).value)) else None)
    ensures After(Int32, bs) == if Parse32(bs).Parsed? then bs[Parse32(bs).used..] else bs
  {
  }

  lemma Int64Cases(bs: Bytes)
    ensures Answer(Int64, bs) == (if Parse64(bs).Parsed? then Some(R64(Parse64(bs).value)) else None)
    ensures After(Int64, bs) == if Parse64(bs).Parsed? then bs[Parse64(bs).used..] else bs
  {
  }

  method GetInt32(input: Slice) returns (r: Option<Record>)
    requires input.Valid()
    modifies input
    ensures input.Valid() && input.data == old(input.data)
    ensures r == old(Answer(Int32, input.Contents()))
    ensures input.Contents() == old(After(Int32, input.Contents()))
  {
    ghost var bs := input.Contents();
    Int32Cases(bs);
    var value := new Cell<u32>(0);
    var ok := GetVarint32(input, value);
    r := if ok then Some(R32(value.val)) else None;
  }

  method GetInt64(input: Slice) returns (r: Option<Record>)
    requires input.Valid()
    modifies input
    ensures input.Valid() && input.data == old(input.data)
    ensures r == old(Answer(Int64, input.Contents()))
    ensures input.Contents() == old(After(Int64, input.Contents()))
  {
    ghost var bs := input.Contents();
    Int64Cases(bs);
    var value := new Cell<u64>(0);
    var ok := GetVarint64(input, value);
    r := if ok then Some(R64(value.val)) else None;
  }

  lemma TextCases(bs: Bytes)
    ensures var parsed := ParsePrefixed(bs);
      && Answer(Text, bs) == (if parsed.Payload? then Some(RText(PayloadOf(bs))) else None)
      && After(Text, bs) == bs[parsed.Consumed()..]
  {
  }

  method GetText(input: Slice) returns (r: Option<Record>)
    requires input.Valid()
    modifies input
    ensures input.Valid() && input.data == old(input.data)
    ensures r == old(Answer(Text, input.Contents()))
    ensures input.Contents() == old(After(Text, input.Contents()))
  {
    ghost var bs := input.Contents();
    TextCases(bs);
    var result := new Slice(input.data, input.off, 0);
    var ok := GetLengthPrefixedSlice(input, result);
    r := if ok then Some(RText(result.data[result.off..result.off + result.size])) else None;
  }

  /** The `Get...` routine of a kind: it answers and moves the input as `Decode` and `Skipped` say. */
  method GetRecord(input: Slice, kind: Kind) returns (r: Option<Record>)
    requires input.Valid()
    modifies input
    ensures input.Valid() && input.data == old(input.data)
    ensures r == old(Answer(kind, input.Contents()))
    ensures input.Contents() == old(After(kind, input.Contents()))
  {
    match kind
    case Int32 => r := GetInt32(input);
    case Int64 => r := GetInt64(input);
    case Text => r := GetText(input);
  }

  // ---------- streams ----------

  ghost predicate AllWellSized(rs: seq<Record>) {
    forall r :: r in rs ==> r.WellSized()
  }

  lemma EncodeNext(done: Bytes, rs: seq<Record>, i: nat)
    requires i < |rs|
    ensures done + EncodeAll(rs[i..]) == done + rs[i].Encode() + EncodeAll(rs[i + 1..])
  {
    assert rs[i..][0] == rs[i] && rs[i..][1..] == rs[i + 1..];
  }

  /** One `Put...` call for each record. */
  method PutAll(dst: ByteString, rs: seq<Record>)
    modifies dst
    ensures dst.data == old(dst.data) + EncodeAll(rs)
  {
    ghost var whole := dst.data + EncodeAll(rs);
    assert rs[0..] == rs;
    for i := 0 to |rs|
      invariant dst.data + EncodeAll(rs[i..]) == whole
    {
      EncodeNext(dst.data, rs, i);
      var text := SliceOf(if rs[i].RText? then rs[i].s else []);
      PutRecord(dst, rs[i], text);
    }
    assert dst.data + [] == dst.data;
  }

  datatype Outcome = Stuck | Read(records: seq<Record>, rest: Bytes)

  /** The `Get...` calls for the given kinds, one after another. */
  function GetAll(kinds: seq<Kind>, bs: Bytes): Outcome {
    if kinds == [] then Read([], bs)
    else
      match Decode(kinds[0], bs)
      case Nothing => Stuck
      case Fetched(r, used) =>
        match GetAll(kinds[1..], bs[used..])
        case Stuck => Stuck
        case Read(rs, rest) => Read([r] + rs, rest)
  }

  function Kinds(rs: seq<Record>): (ks: seq<Kind>)
    ensures |ks| == |rs|
  {
    if rs == [] then [] else [rs[0].KindOf()] + Kinds(rs[1..])
  }

  /** Mixed round trip: the matching calls return the records and leave exactly the suffix. */
  lemma {:induction false} MixedRoundTrip(rs: seq<Record>, suffix: Bytes)
    requires AllWellSized(rs)
    ensures GetAll(Kinds(rs), EncodeAll(rs) + suffix) == Read(rs, suffix)
  {
    if rs == [] {
      assert EncodeAll(rs) + suffix == suffix;
    } else {
      var r, rest := rs[0], rs[1..];
      var tail := EncodeAll(rest) + suffix;
      assert EncodeAll(rs) + suffix == r.Encode() + tail;
      DecodeEncode(r, tail);
      assert (r.Encode() + tail)[|r.Encode()|..] == tail;
      MixedRoundTrip(rest, suffix);
      assert Kinds(rs)[1..] == Kinds(rest) && [r] + rest == rs;
    }
  }

  /** Decode until failure, asking for kind `schedule(i)` at the i-th call. */
  function DecodeStream(schedule: nat -> Kind, i: nat, bs: Bytes): seq<Record>
    decreases |bs|
  {
    match Decode(schedule(i), bs)
    case Nothing => []
    case Fetched(r, used) => [r] + DecodeStream(schedule, i + 1, bs[used..])
  }

  /** What those calls leave in the input. */
  function StreamRest(schedule: nat -> Kind, i: nat, bs: Bytes): Bytes
    decreases |bs|
  {
    match Decode(schedule(i), bs)
    case Nothing => bs[Skipped(schedule(i), bs)..]
    case Fetched(_, used) => StreamRest(schedule, i + 1, bs[used..])
  }

  /** One call, after those that returned `done`. */
  lemma StreamStep(schedule: nat -> Kind, i: nat, bs: Bytes, done: seq<Record>)
    ensures var after := After(schedule(i), bs);
      match Answer(schedule(i), bs) {
        case None => done + DecodeStream(schedule, i, bs) == done && StreamRest(schedule, i, bs) == after
        case Some(r) =>
          && |after| < |bs|
          && done + DecodeStream(schedule, i, bs) == done + [r] + DecodeStream(schedule, i + 1, after)
          && StreamRest(schedule, i, bs) == StreamRest(schedule, i + 1, after)
      }
  {
  }

  /** One `Get...` call after another, until one fails. */
  method GetStream(input: Slice, schedule: nat -> Kind) returns (rs: seq<Record>)
    requires input.Valid()
    modifies input
    ensures rs == DecodeStream(schedule, 0, old(input.Contents()))
    ensures input.Valid() && input.Contents() == StreamRest(schedule, 0, old(input.Contents()))
  {
    ghost var bs := input.Contents();
    ghost var all, left := DecodeStream(schedule, 0, bs), StreamRest(schedule, 0, bs);
    rs := [];
    var i, going := 0, true;
    while going
      invariant input.Valid() && input.Contents() == bs
      invariant if going then rs + DecodeStream(schedule, i, bs) == all else rs == all
      invariant left == if going then StreamRest(schedule, i, bs) else bs
      decreases going, |bs|
    {
      StreamStep(schedule, i, bs, rs);
      var r := GetRecord(input, schedule(i));
      bs := input.Contents();
      match r
      case None => going := false;
      case Some(record) => rs, i := rs + [record], i + 1;
    }
  }

  ghost predicate Scheduled(schedule: nat -> Kind, i: nat, rs: seq<Record>) {
    forall j :: 0 <= j < |rs| ==> rs[j].KindOf() == schedule(i + j)
  }

  /** How many records lie wholly in the first `cut` bytes of the stream. */
  function WholeBefore(rs: seq<Record>, cut: nat): (n: nat)
    ensures n <= |rs|
  {
    if rs == [] || |rs[0].Encode()| > cut then 0
    else 1 + WholeBefore(rs[1..], cut - |rs[0].Encode()|)
  }

  /** The count is the greatest one whose encodings fit in the cut. */
  lemma {:induction false} WholeBeforeIsGreatest(rs: seq<Record>, cut: nat, n: nat)
    requires n <= |rs|
    ensures n <= WholeBefore(rs, cut) <==> |EncodeAll(rs[..n])| <= cut
  {
    if n > 0 {
      assert rs[..n][1..] == rs[1..][..n - 1];
      if |rs[0].Encode()| <= cut {
        WholeBeforeIsGreatest(rs[1..], cut - |rs[0].Encode()|, n - 1);
      }
    }
  }

  /**
    * Truncation: cut an encoded stream anywhere and decode until failure; the
    * results are exactly the records lying wholly before the cut.
    */
  lemma {:induction false} TruncatedStream(schedule: nat -> Kind, i: nat, rs: seq<Record>, cut: nat)
    requires AllWellSized(rs) && Scheduled(schedule, i, rs) && cut <= |EncodeAll(rs)|
    ensures DecodeStream(schedule, i, EncodeAll(rs)[..cut]) == rs[..WholeBefore(rs, cut)]
    decreases |rs|, 1
  {
    if rs == [] {
      assert Decode(schedule(i), []) == Nothing;
    } else {
      var head := rs[0].Encode();
      assert rs[0].KindOf() == schedule(i + 0);
      if cut < |head| {
        assert EncodeAll(rs)[..cut] == head[..cut];
        DecodeRejectsProperPrefix(rs[0], cut);
      } else {
        TruncateAfterFirst(schedule, i, rs, cut);
      }
    }
  }

  lemma ScheduledTail(schedule: nat -> Kind, i: nat, rs: seq<Record>)
    requires rs != [] && Scheduled(schedule, i, rs)
    ensures rs[0].KindOf() == schedule(i)
    ensures Scheduled(schedule, i + 1, rs[1..])
  {
    assert rs[0].KindOf() == schedule(i + 0);
    forall j | 0 <= j < |rs| - 1
      ensures rs[1..][j].KindOf() == schedule(i + 1 + j)
    {
      assert rs[j + 1].KindOf() == schedule(i + (j + 1));
    }
  }

  /** A whole record in front is decoded, and decoding goes on behind it. */
  lemma DecodeFirst(schedule: nat -> Kind, i: nat, r: Record, tail: Bytes)
    requires r.WellSized() && r.KindOf() == schedule(i)
    ensures DecodeStream(schedule, i, r.Encode() + tail) == [r] + DecodeStream(schedule, i + 1, tail)
    ensures StreamRest(schedule, i, r.Encode() + tail) == StreamRest(schedule, i + 1, tail)
  {
    DecodeEncode(r, tail);
    assert (r.Encode() + tail)[|r.Encode()|..] == tail;
  }

  lemma CutBehindFirst(rs: seq<Record>, cut: nat)
    requires rs != [] && |rs[0].Encode()| <= cut <= |EncodeAll(rs)|
    ensures cut - |rs[0].Encode()| <= |EncodeAll(rs[1..])|
    ensures EncodeAll(rs)[..cut] == rs[0].Encode() + EncodeAll(rs[1..])[..cut - |rs[0].Encode()|]
  {
  }

  lemma {:induction false} TruncateAfterFirst(schedule: nat -> Kind, i: nat, rs: seq<Record>, cut: nat)
    requires rs != [] && |rs[0].Encode()| <= cut
    requires AllWellSized(rs) && Scheduled(schedule, i, rs) && cut <= |EncodeAll(rs)|
    ensures DecodeStream(schedule, i, EncodeAll(rs)[..cut]) == rs[..WholeBefore(rs, cut)]
    decreases |rs|, 0
  {
    var rest, left := rs[1..], cut - |rs[0].Encode()|;
    CutBehindFirst(rs, cut);
    ScheduledTail(schedule, i, rs);
    TruncatedStream(schedule, i + 1, rest, left);
    calc {
      DecodeStream(schedule, i, EncodeAll(rs)[..cut]);
      DecodeStream(schedule, i, rs[0].Encode() + EncodeAll(rest)[..left]);
      { DecodeFirst(schedule, i, rs[0], EncodeAll(rest)[..left]); }
      [rs[0]] + DecodeStream(schedule, i + 1, EncodeAll(rest)[..left]);
      [rs[0]] + rest[..WholeBefore(rest, left)];
      { PrefixCons(rs, WholeBefore(rest, left)); }
      rs[..WholeBefore(rs, cut)];
    }
  }

  /** What the failing call leaves of the first n bytes of a record: not the length prefix, if that is whole. */
  function UnreadPart(r: Record, n: nat): Bytes
    requires n <= |r.Encode()|
  {
    r.Encode()[HeaderWithin(r, n)..n]
  }

  /** What is left of a cut stream: the unread part of the record that was cut, if any. */
  function Unread(rs: seq<Record>, cut: nat): Bytes {
    if rs == [] then []
    else if cut < |rs[0].Encode()| then UnreadPart(rs[0], cut)
    else Unread(rs[1..], cut - |rs[0].Encode()|)
  }

  lemma SizeBehindFirst(rs: seq<Record>, n: nat)
    requires n < |rs|
    ensures |EncodeAll(rs[..n + 1])| == |rs[0].Encode()| + |EncodeAll(rs[1..][..n])|
  {
    assert rs[..n + 1][1..] == rs[1..][..n];
  }

  /** The record that was cut is the one behind those that lie wholly before the cut. */
  lemma {:induction false} UnreadIsCutRecord(rs: seq<Record>, cut: nat, whole: nat, start: nat)
    requires whole == WholeBefore(rs, cut) && start == |EncodeAll(rs[..whole])|
    ensures whole == |rs| ==> Unread(rs, cut) == []
    ensures whole < |rs| ==> start <= cut < start + |rs[whole].Encode()|
    ensures whole < |rs| ==> Unread(rs, cut) == UnreadPart(rs[whole], cut - start)
  {
    if whole > 0 {
      var size := |rs[0].Encode()|;
      SizeBehindFirst(rs, whole - 1);
      UnreadIsCutRecord(rs[1..], cut - size, whole - 1, start - size);
      assert whole < |rs| ==> rs[whole] == rs[1..][whole - 1];
    } else {
      assert start == |EncodeAll([])| == 0;
    }
  }

  lemma RestInFirst(schedule: nat -> Kind, i: nat, rs: seq<Record>, cut: nat)
    requires rs != [] && rs[0].WellSized() && rs[0].KindOf() == schedule(i) && cut < |rs[0].Encode()|
    ensures StreamRest(schedule, i, EncodeAll(rs)[..cut]) == UnreadPart(rs[0], cut)
  {
    var head := rs[0].Encode();
    assert EncodeAll(rs)[..cut] == head[..cut];
    DecodeRejectsProperPrefix(rs[0], cut);
    PrefixSkipped(rs[0], cut);
    assert head[..cut][HeaderWithin(rs[0], cut)..] == head[HeaderWithin(rs[0], cut)..cut];
  }

  /** The position after reading a cut stream. */
  lemma {:induction false} TruncatedRest(schedule: nat -> Kind, i: nat, rs: seq<Record>, cut: nat)
    requires AllWellSized(rs) && Scheduled(schedule, i, rs) && cut <= |EncodeAll(rs)|
    ensures StreamRest(schedule, i, EncodeAll(rs)[..cut]) == Unread(rs, cut)
    decreases |rs|, 1
  {
    if rs == [] {
      assert Decode(schedule(i), []) == Nothing;
    } else {
      ScheduledTail(schedule, i, rs);
      if cut < |rs[0].Encode()| {
        RestInFirst(schedule, i, rs, cut);
      } else {
        RestBehindFirst(schedule, i, rs, cut);
      }
    }
  }

  lemma {:induction false} RestBehindFirst(schedule: nat -> Kind, i: nat, rs: seq<Record>, cut: nat)
    requires rs != [] && |rs[0].Encode()| <= cut
    requires AllWellSized(rs) && Scheduled(schedule, i, rs) && cut <= |EncodeAll(rs)|
    ensures StreamRest(schedule, i, EncodeAll(rs)[..cut]) == Unread(rs, cut)
    decreases |rs|, 0
  {
    var rest, left := rs[1..], cut - |rs[0].Encode()|;
    CutBehindFirst(rs, cut);
    ScheduledTail(schedule, i, rs);
    TruncatedRest(schedule, i + 1, rest, left);
    calc {
      StreamRest(schedule, i, EncodeAll(rs)[..cut]);
      StreamRest(schedule, i, rs[0].Encode() + EncodeAll(rest)[..left]);
      { DecodeFirst(schedule, i, rs[0], EncodeAll(rest)[..left]); }
      StreamRest(schedule, i + 1, EncodeAll(rest)[..left]);
      Unread(rest, left);
      Unread(rs, cut);
    }
  }

  /** Written by the `Put...` routines, cut anywhere, read by the `Get...` routines until one fails. */
  method WriteCutRead(rs: seq<Record>, cut: nat, schedule: nat -> Kind) returns (back: seq<Record>, rest: Bytes)
    requires AllWellSized(rs) && Scheduled(schedule, 0, rs) && cut <= |EncodeAll(rs)|
    ensures back == rs[..WholeBefore(rs, cut)]
    ensures rest == Unread(rs, cut)
  {
    var dst := new ByteString();
    PutAll(dst, rs);
    var input := SliceOf(dst.data[..cut]);
    assert dst.data == EncodeAll(rs);
    assert input.Contents() == EncodeAll(rs)[..cut];
    TruncatedStream(schedule, 0, rs, cut);
    TruncatedRest(schedule, 0, rs, cut);
    back := GetStream(input, schedule);
    rest := input.Contents();
  }

  lemma PrefixCons<T>(s: seq<T>, n: nat)
    requires n < |s|
    ensures [s[0]] + s[1..][..n] == s[..1 + n]
  {
  }
}

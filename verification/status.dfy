/**
  * `Status`: success is a null pointer, an error owns a heap block holding the
  * message length (4 bytes), the code (1 byte) and the message.  `Allocator` makes
  * `new[]` and `delete[]` explicit, so that leaks and double frees can be stated.
  */
module StatusModel {
  import opened Words
  import opened Storage
  import opened Slices
  import opened Fixed

  /** The blocks handed out by `new char[n]` and not yet given to `delete[]`. */
  class Allocator {
    ghost var live: set<array<u8>>

    constructor ()
      ensures live == {}
    {
      live := {};
    }

    method New(n: nat) returns (block: array<u8>)
      modifies this
      ensures fresh(block) && block.Length == n && live == old(live) + {block}
    {
      block := new u8[n];
      live := live + {block};
    }

    /** `delete[]`: null is allowed, a block that is not live is not. */
    method Delete(block: array?<u8>)
      requires block != null ==> block in live
      modifies this
      ensures live == if block == null then old(live) else old(live) - {block}
    {
      if block != null {
        live := live - {block};
      }
    }
  }

  // ---------- values ----------

  /** What a status means: success, or an error code in 1..8 with a message. */
  datatype Value = Success | Error(code: u8, message: seq<u8>)

  const SEPARATOR: seq<u8> := [0x3a, 0x20]   // ": "

  const MAX_CODE: u8 := 8

  /** The message of an error: the second part, if there is one, follows a separator. */
  function Message(msg1: seq<u8>, msg2: seq<u8>): seq<u8> {
    if msg2 == [] then msg1 else msg1 + SEPARATOR + msg2
  }

  // ---------- the 32-bit lengths of the packing constructor ----------

  const WORD: nat := 0x1_0000_0000

  /** The bytes of a message that its length, narrowed to 32 bits, still covers. */
  function Narrowed(msg: seq<u8>): seq<u8> {
    msg[..|msg| % WORD]
  }

  /** `len1 + (len2 ? 2 + len2 : 0)`, before it is stored in 32 bits. */
  function JoinedLength(len1: nat, len2: nat): nat {
    len1 + if len2 != 0 then 2 + len2 else 0
  }

  /** `size`, for messages of n1 and n2 bytes. */
  function StoredSize(n1: nat, n2: nat): nat {
    JoinedLength(n1 % WORD, n2 % WORD) % WORD
  }

  /** `size + 5`, the number of bytes allocated. */
  function BlockSize(n1: nat, n2: nat): nat {
    (StoredSize(n1, n2) + 5) % WORD
  }

  /** Header and messages are written inside the block: what C demands of the constructor. */
  predicate WritesFit(n1: nat, n2: nat) {
    5 + JoinedLength(n1 % WORD, n2 % WORD) <= BlockSize(n1, n2)
  }

  /** The message that ends up in the block. */
  function StoredMessage(msg1: seq<u8>, msg2: seq<u8>): seq<u8> {
    Message(Narrowed(msg1), Narrowed(msg2))
  }

  /** When the writes fit, nothing has wrapped around. */
  lemma FittingWrites(n1: nat, n2: nat)
    ensures WritesFit(n1, n2) <==> JoinedLength(n1 % 0x1_0000_0000, n2 % 0x1_0000_0000) + 5 < 0x1_0000_0000
    ensures WritesFit(n1, n2) ==> StoredSize(n1, n2) == JoinedLength(n1 % 0x1_0000_0000, n2 % 0x1_0000_0000)
    ensures WritesFit(n1, n2) ==> BlockSize(n1, n2) == StoredSize(n1, n2) + 5
  {
  }

  lemma LengthOfMessage(msg1: seq<u8>, msg2: seq<u8>)
    ensures |Message(msg1, msg2)| == JoinedLength(|msg1|, |msg2|)
    ensures |StoredMessage(msg1, msg2)| == JoinedLength(|msg1| % 0x1_0000_0000, |msg2| % 0x1_0000_0000)
  {
  }

  /**
    * The packing constructor does what it says, writing inside its block and storing
    * the length of the joined message, exactly when that length with the five header
    * bytes fits in 32 bits.
    */
  lemma PackingIsExactIff(msg1: seq<u8>, msg2: seq<u8>)
    ensures WritesFit(|msg1|, |msg2|) && StoredSize(|msg1|, |msg2|) == |Message(msg1, msg2)|
      <==> |Message(msg1, msg2)| + 5 < 0x1_0000_0000
    ensures |Message(msg1, msg2)| + 5 < 0x1_0000_0000 ==> StoredMessage(msg1, msg2) == Message(msg1, msg2)
  {
    FittingWrites(|msg1|, |msg2|);
    LengthOfMessage(msg1, msg2);
    if |Message(msg1, msg2)| + 5 < 0x1_0000_0000 {
      assert Narrowed(msg1) == msg1 && Narrowed(msg2) == msg2;
    }
  }

  /** The two ways to miss: a block too small for its message, and a message cut short. */
  lemma PackingExamples()
    ensures !WritesFit(0xffff_fffb, 0) && BlockSize(0xffff_fffb, 0) == 0
    ensures WritesFit(0x1_0000_0000, 0) && StoredSize(0x1_0000_0000, 0) == 0
  {
  }

  /** The block of an error. */
  function Pack(code: u8, message: seq<u8>): seq<u8> {
    LittleEndian(|message|, 4) + [code] + message
  }

  ghost predicate IsPacked(bytes: seq<u8>) {
    && 5 <= |bytes| < WORD
    && bytes[..4] == LittleEndian(|bytes| - 5, 4)
    && 1 <= bytes[4] <= MAX_CODE
  }

  lemma PackedLength(bytes: seq<u8>)
    requires IsPacked(bytes)
    ensures FromLittleEndian(bytes[..4]) + 5 == |bytes|
  {
    Pow256Values();
    DecodeAfterEncode(|bytes| - 5, 4);
  }

  lemma PackIsPacked(code: u8, message: seq<u8>)
    requires 1 <= code <= MAX_CODE && |message| + 5 < WORD
    ensures IsPacked(Pack(code, message))
    ensures Pack(code, message)[4] == code && Pack(code, message)[5..] == message
  {
  }

  function Ascii(s: string): seq<u8> {
    seq(|s|, i requires 0 <= i < |s| => s[i] as int % 256)
  }

  const CODE_STRINGS: seq<string> := [
    "OK", "Not found", "Already exists", "Corruption", "Not implemented", "Invalid argument",
    "IO error", "Assertion failed", "Permission denied"
  ]

  /** The code, if any, has a name. */
  predicate Printable(v: Value) {
    v.Error? ==> v.code <= MAX_CODE
  }

  /** The printed form of a status. */
  function Describe(v: Value): seq<u8>
    requires Printable(v)
  {
    match v
    case Success => Ascii("OK")
    case Error(code, message) =>
      Ascii(CODE_STRINGS[code]) + if message == [] then [] else SEPARATOR + message
  }

  /** A text of ASCII characters is printed character by character. */
  lemma AsciiByte(s: string, i: nat)
    requires i < |s| && s[i] < 128 as char
    ensures |Ascii(s)| == |s| && Ascii(s)[i] == s[i] as int
  {
  }

  lemma OkText()
    ensures Describe(Success) == [0x4f, 0x4b]
  {
  }

  lemma NotFoundText()
    ensures Describe(Error(1, [])) == [0x4e, 0x6f, 0x74, 0x20, 0x66, 0x6f, 0x75, 0x6e, 0x64]
  {
  }

  /** The text of each code. */
  lemma PrintedTexts()
    ensures Describe(Success) == Ascii("OK") == Describe(Error(0, []))
    ensures Describe(Error(1, [])) == Ascii("Not found")
    ensures Describe(Error(2, [])) == Ascii("Already exists")
    ensures Describe(Error(3, [])) == Ascii("Corruption")
    ensures Describe(Error(4, [])) == Ascii("Not implemented")
    ensures Describe(Error(5, [])) == Ascii("Invalid argument")
    ensures Describe(Error(6, [])) == Ascii("IO error")
    ensures Describe(Error(7, [])) == Ascii("Assertion failed")
    ensures Describe(Error(8, [])) == Ascii("Permission denied")
  {
  }

  /** A message follows the name of the code behind a colon and a space. */
  lemma PrintedMessage(code: u8, message: seq<u8>)
    requires 1 <= code <= 8 && message != []
    ensures Describe(Error(code, message)) == Describe(Error(code, [])) + [0x3a, 0x20] + message
  {
  }

  /** What a state pointer means: null is success, a block is its code and message. */
  ghost function ValueOf(block: array?<u8>): Value
    reads block
  {
    if block == null || block.Length < 5 then Success else Error(block[4], block[5..])
  }

  ghost function Without(live: set<array<u8>>, block: array?<u8>): set<array<u8>> {
    if block == null then live else live - {block}
  }

  ghost function With(live: set<array<u8>>, block: array?<u8>): set<array<u8>> {
    if block == null then live else live + {block}
  }

  lemma SameView(a: array<u8>, b: array<u8>)
    requires a[..] == b[..]
    ensures ValueOf(a) == ValueOf(b)
  {
    assert a.Length == |a[..]| == |b[..]| == b.Length;
    if a.Length >= 5 {
      assert a[4] == a[..][4] && a[5..] == a[..][5..];
      assert b[4] == b[..][4] && b[5..] == b[..][5..];
    }
  }

  lemma Assemble(code: u8, header: seq<u8>, c1: seq<u8>, c2: seq<u8>)
    requires header == LittleEndian(JoinedLength(|c1|, |c2|), 4) + [code]
    ensures Pack(code, Message(c1, c2)) == if c2 == [] then header + c1 else header + c1 + SEPARATOR + c2
  {
  }

  lemma NarrowedWindow(msg: Slice)
    requires msg.Valid()
    ensures |Narrowed(msg.Contents())| == msg.size % WORD <= msg.size
    ensures Narrowed(msg.Contents()) == msg.data[msg.off..msg.off + msg.size % WORD]
  {
    Window(msg.data, msg.off, msg.size, 0, msg.size % WORD);
  }

  lemma PackedView(block: array<u8>, code: u8, message: seq<u8>)
    requires 1 <= code <= MAX_CODE && |message| + 5 < WORD && block[..] == Pack(code, message)
    ensures IsPacked(block[..]) && ValueOf(block) == Error(code, message)
  {
    PackIsPacked(code, message);
    assert block[4] == block[..][4] && block[5..] == block[..][5..];
  }

  // ---------- the class ----------

  class Status {
    var state: array?<u8>

    /** Owns a live, well-formed block, or none. */
    ghost predicate Owns(heap: Allocator)
      reads this, heap, state
    {
      state != null ==> state in heap.live && IsPacked(state[..])
    }

    ghost function View(): Value
      reads this, state
    {
      ValueOf(state)
    }

    constructor Ok()
      ensures state == null
    {
      state := null;
    }

    /** The length and the code of a block. */
    static method FillHeader(block: array<u8>, size: u32, code: u8)
      requires 5 <= block.Length
      modifies block
      ensures block[..5] == LittleEndian(size, 4) + [code]
    {
      StoreImage(block, 0, LittleEndian(size, 4));
      assert block[..4] == block[..][..4] == LittleEndian(size, 4);
      block[4] := code;
    }

    /** The separator and the second message, behind the p bytes `done`. */
    static method FillSecond(block: array<u8>, p: nat, msg2: Slice, len2: nat,
                             ghost done: seq<u8>, ghost content: seq<u8>)
      requires msg2.Valid() && msg2.data != block && len2 <= msg2.size
      requires content == msg2.data[msg2.off..msg2.off + len2]
      requires block.Length == p + 2 + len2 && block[..p] == done
      modifies block
      ensures block[..] == done + SEPARATOR + content
    {
      block[p] := 0x3a;
      block[p + 1] := 0x20;
      assert block[..p + 2] == done + SEPARATOR;
      AppendBytes(block, p + 2, msg2.data, msg2.off, len2, done + SEPARATOR, content);
      assert block[..] == block[..p + 2 + len2];
    }

    /** Length and code, then the first message, the separator and the second message. */
    static method Fill(block: array<u8>, code: u8, msg1: Slice, msg2: Slice, len1: nat, len2: nat,
                       ghost c1: seq<u8>, ghost c2: seq<u8>)
      requires msg1.Valid() && msg2.Valid() && msg1.data != block && msg2.data != block
      requires len1 <= msg1.size && len2 <= msg2.size
      requires c1 == msg1.data[msg1.off..msg1.off + len1] && c2 == msg2.data[msg2.off..msg2.off + len2]
      requires block.Length == JoinedLength(len1, len2) + 5 < WORD
      modifies block
      ensures block[..] == Pack(code, Message(c1, c2))
    {
      FillHeader(block, block.Length - 5, code);
      ghost var header := block[..5];
      ghost var start := header + c1;
      AppendBytes(block, 5, msg1.data, msg1.off, len1, header, c1);
      Assemble(code, header, c1, c2);
      if len2 != 0 {
        FillSecond(block, 5 + len1, msg2, len2, start, c2);
      } else {
        assert block[..] == block[..5 + len1] == start;
      }
    }

    constructor Make(heap: Allocator, code: u8, msg1: Slice, msg2: Slice)
      requires 1 <= code <= MAX_CODE && msg1.Valid() && msg2.Valid()
      requires WritesFit(msg1.size, msg2.size)
      modifies heap
      ensures state != null && fresh(state) && heap.live == With(old(heap.live), state)
      ensures IsPacked(state[..])
      ensures View() == Error(code, old(StoredMessage(msg1.Contents(), msg2.Contents())))
    {
      ghost var c1, c2 := Narrowed(msg1.Contents()), Narrowed(msg2.Contents());
      var len1, len2 := msg1.size % WORD, msg2.size % WORD;
      var size := (len1 + (if len2 != 0 then 2 + len2 else 0)) % WORD;
      FittingWrites(msg1.size, msg2.size);
      NarrowedWindow(msg1);
      NarrowedWindow(msg2);
      var result := heap.New((size + 5) % WORD);
      Fill(result, code, msg1, msg2, len1, len2, c1, c2);
      PackedView(result, code, Message(c1, c2));
      state := result;
    }

    /** `CopyState`: a fresh block with the same bytes. */
    static method CopyState(heap: Allocator, s: array<u8>) returns (result: array<u8>)
      requires s in heap.live && IsPacked(s[..])
      modifies heap
      ensures fresh(result) && heap.live == old(heap.live) + {result}
      ensures result[..] == s[..]
    {
      PackedLength(s[..]);
      assert s[..][..4] == s[..4];
      var size := FromLittleEndian(s[..4]);
      result := heap.New(size + 5);
      ghost var content := s[..];
      assert s[0..size + 5] == content;
      CopyBytes(result, 0, s, 0, size + 5, content);
    }

    constructor Copy(heap: Allocator, s: Status)
      requires s.Owns(heap)
      modifies heap
      ensures state != null ==> fresh(state) && IsPacked(state[..])
      ensures heap.live == With(old(heap.live), state)
      ensures View() == s.View()
    {
      if s.state == null {
        state := null;
      } else {
        var copy := CopyState(heap, s.state);
        SameView(copy, s.state);
        state := copy;
      }
    }

    /** `operator=`: nothing happens on self-assignment or between two successes. */
    method Assign(heap: Allocator, s: Status)
      requires Owns(heap) && s.Owns(heap)
      requires s != this && state != null ==> s.state != state
      modifies this, heap
      ensures this == s ==> state == old(state) && heap.live == old(heap.live)
      ensures this != s ==>
        && (state != null ==> fresh(state) && IsPacked(state[..]))
        && heap.live == With(Without(old(heap.live), old(state)), state)
      ensures View() == old(s.View())
    {
      if state != s.state {
        heap.Delete(state);
        if s.state != null {
          var copy := CopyState(heap, s.state);
          SameView(copy, s.state);
          state := copy;
        } else {
          state := null;
        }
      }
    }

    /** The destructor. */
    method Destroy(heap: Allocator)
      requires Owns(heap)
      modifies heap
      ensures heap.live == Without(old(heap.live), state)
    {
      heap.Delete(state);
    }

    function ErrCode(): (c: nat)
      reads this, state
      requires state != null ==> state.Length >= 5
      ensures c == if View().Success? then 0 else View().code
    {
      if state == null then 0 else state[4]
    }

    method ToString(heap: Allocator) returns (r: seq<u8>)
      requires Owns(heap)
      ensures Printable(View()) && r == Describe(View())
    {
      if state == null {
        return Ascii("OK");
      }
      var kind := Ascii(CODE_STRINGS[ErrCode()]);
      PackedLength(state[..]);
      assert state[..][..4] == state[..4];
      var length := FromLittleEndian(state[..4]);
      if length == 0 {
        return kind;
      }
      return kind + SEPARATOR + state[5..5 + length];
    }
  }

}

/** The memory the library works on: out-parameters, owned strings and raw buffers. */
module Storage {
  import opened Words

  datatype Option<+T> = None | Some(value: T)

  /** The target of an out-parameter such as `uint32_t* value`. */
  class Cell<T> {
    var val: T

    constructor (initial: T)
      ensures val == initial
    {
      val := initial;
    }
  }

  /** `std::string`: a resizable, owned sequence of bytes. */
  class ByteString {
    var data: seq<u8>

    constructor ()
      ensures data == []
    {
      data := [];
    }

    method Append(bytes: seq<u8>)
      modifies this
      ensures data == old(data) + bytes
    {
      data := data + bytes;
    }

    /** Truncates, or pads with zero bytes. */
    method Resize(n: nat)
      modifies this
      ensures data == if n <= |old(data)| then old(data)[..n] else old(data) + seq(n - |old(data)|, _ => 0)
    {
      data := if n <= |data| then data[..n] else data + Zeros(n - |data|);
    }
  }

  function Zeros(n: nat): seq<u8> {
    seq(n, _ => 0)
  }

  /** `memory` with `bytes` stored at `off` and everything else as it was. */
  function Splice(memory: seq<u8>, off: nat, bytes: seq<u8>): seq<u8>
    requires off + |bytes| <= |memory|
  {
    memory[..off] + bytes + memory[off + |bytes|..]
  }

  /** Reading memory back: the stored bytes at their place, every other byte as it was. */
  lemma SpliceAt(memory: seq<u8>, off: nat, bytes: seq<u8>, i: nat)
    requires off + |bytes| <= |memory| && i < |memory|
    ensures |Splice(memory, off, bytes)| == |memory|
    ensures off <= i < off + |bytes| ==> Splice(memory, off, bytes)[i] == bytes[i - off]
    ensures i < off || off + |bytes| <= i ==> Splice(memory, off, bytes)[i] == memory[i]
  {
  }

  /** One more byte written right after the bytes already spliced in. */
  lemma SpliceExtend(memory: seq<u8>, off: nat, bytes: seq<u8>, b: u8)
    requires off + |bytes| < |memory|
    ensures Splice(memory, off, bytes)[off + |bytes| := b] == Splice(memory, off, bytes + [b])
  {
  }

  /**
    * `*(ptr++) = value`, with the conversion to `unsigned char`.  The bytes of
    * `target` before p have been stored from `off` on; this stores the next one.
    */
  method StoreByte(dst: array<u8>, p: nat, value: nat, ghost was: seq<u8>, ghost off: nat, ghost target: seq<u8>)
    returns (next: nat)
    requires off <= p < off + |target| <= dst.Length == |was|
    requires value % 256 == target[p - off]
    requires dst[..] == Splice(was, off, target[..p - off])
    modifies dst
    ensures next == p + 1
    ensures dst[..] == Splice(was, off, target[..next - off])
    ensures next == off + |target| ==> dst[..] == Splice(was, off, target)
  {
    SpliceExtend(was, off, target[..p - off], target[p - off]);
    assert target[..p - off] + [target[p - off]] == target[..p + 1 - off];
    assert p + 1 == off + |target| ==> target[..p + 1 - off] == target;
    dst[p] := value % 256;
    next := p + 1;
  }

  /** `memcpy` of `content` between regions that do not overlap. */
  method CopyBytes(dst: array<u8>, p: nat, src: array<u8>, off: nat, n: nat, ghost content: seq<u8>)
    requires p + n <= dst.Length && off + n <= src.Length && src[off..off + n] == content
    requires src == dst ==> p + n <= off || off + n <= p
    modifies dst
    ensures dst[..] == Splice(old(dst[..]), p, content)
  {
    forall i | 0 <= i < n {
      dst[p + i] := src[off + i];
    }
  }

  /** `memcpy` of `content` right behind the first p bytes, `done`. */
  method AppendBytes(dst: array<u8>, p: nat, src: array<u8>, off: nat, n: nat,
                     ghost done: seq<u8>, ghost content: seq<u8>)
    requires p + n <= dst.Length && off + n <= src.Length && src != dst
    requires src[off..off + n] == content && dst[..p] == done
    modifies dst
    ensures dst[..p + n] == done + content
  {
    CopyBytes(dst, p, src, off, n, content);
    assert dst[..p + n] == dst[..][..p + n];
  }

  lemma SpliceTwice(memory: seq<u8>, off: nat, a: seq<u8>, b: seq<u8>)
    requires off + |a| + |b| <= |memory|
    ensures Splice(Splice(memory, off, a), off + |a|, b) == Splice(memory, off, a + b)
  {
  }

  /** `memcpy` of the object representation of a value. */
  method StoreImage(dst: array<u8>, p: nat, image: seq<u8>)
    requires p + |image| <= dst.Length
    modifies dst
    ensures dst[..] == Splice(old(dst[..]), p, image)
  {
    forall i | 0 <= i < |image| {
      dst[p + i] := image[i];
    }
  }
}

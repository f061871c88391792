/** Block copies between byte arrays. */
module Memory {
  import opened Bits

  function Splice(buf: seq<byte>, at: nat, data: seq<byte>): (r: seq<byte>)
    requires at + |data| <= |buf|
    ensures |r| == |buf|
  {
    buf[..at] + data + buf[at + |data|..]
  }

  /** `memmove`; the two ranges may overlap. */
  method MemMove(dst: array<byte>, at: nat, src: array<byte>, from: nat, len: nat)
    requires at + len <= dst.Length && from + len <= src.Length
    modifies dst
    ensures dst[..] == Splice(old(dst[..]), at, old(src[from..from + len]))
  {
    forall i | 0 <= i < len {
      dst[at + i] := src[from + i];
    }
  }

  /** `memmove` from a caller's constant data. */
  method MemStore(dst: array<byte>, at: nat, data: seq<byte>)
    requires at + |data| <= dst.Length
    modifies dst
    ensures dst[..] == Splice(old(dst[..]), at, data)
  {
    forall i | 0 <= i < |data| {
      dst[at + i] := data[i];
    }
  }
}

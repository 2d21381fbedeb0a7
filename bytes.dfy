/** Octets and the fixed-size byte buffers that `main` reads into. */
module Bytes {

  /** An unsigned 8-bit value (Rust `u8`). */
  newtype byte = b: int | 0 <= b < 0x100

  /** `n` zero bytes: the initial content of `[0; n]`. */
  function Zeros(n: nat): (r: seq<byte>)
    ensures |r| == n
    ensures forall i :: 0 <= i < n ==> r[i] == 0
  {
    seq(n, _ => 0)
  }

  /** What a buffer holds after a call that filled its first `|data|` bytes with `data`
      and left the rest alone. */
  function Overlay(buf: seq<byte>, data: seq<byte>): (r: seq<byte>)
    requires |data| <= |buf|
    ensures |r| == |buf|
    ensures r[..|data|] == data && r[|data|..] == buf[|data|..]
  {
    data + buf[|data|..]
  }

  /** The effect of `recv_from(&mut buf)` or `read(&mut buf)` that returned `|data|`:
      the first `|data|` slots of `buf` are overwritten, the others keep their bytes. */
  method FillPrefix(buf: array<byte>, data: seq<byte>) returns (n: nat)
    requires |data| <= buf.Length
    modifies buf
    ensures n == |data|
    ensures buf[..] == Overlay(old(buf[..]), data)
  {
    n := |data|;
    for i := 0 to n
      invariant buf[..i] == data[..i]
      invariant buf[i..] == old(buf[..])[i..]
    {
      buf[i] := data[i];
    }
  }
}

/** Raw memory as sequences of bytes, with little-endian integers stored in it.
    Every structure in this project that the program lays over memory (allocator
    headers, inodes) is decoded from bytes through this module. */
module Bytes {

  type byte = x: int | 0 <= x < 256

  /** `m` with the run `bs` written over it at offset `a`. */
  function Splice<T>(m: seq<T>, a: nat, bs: seq<T>): (r: seq<T>)
    requires a + |bs| <= |m|
    ensures |r| == |m|
    ensures forall i :: 0 <= i < |m| ==> r[i] == if a <= i < a + |bs| then bs[i - a] else m[i]
  {
    m[..a] + bs + m[a + |bs|..]
  }

  function Pow256(k: nat): (p: nat)
    ensures p > 0
  {
    if k == 0 then 1 else 256 * Pow256(k - 1)
  }

  function Encode(v: nat, k: nat): (bs: seq<byte>)
    ensures |bs| == k
  {
    if k == 0 then [] else [v % 256] + Encode(v / 256, k - 1)
  }

  function Decode(bs: seq<byte>): (v: nat)
    ensures v < Pow256(|bs|)
  {
    if bs == [] then 0 else bs[0] + 256 * Decode(bs[1..])
  }

  /** The lowest byte comes first. */
  lemma LittleEndian(v: nat)
    requires v < 0x1_0000_0000
    ensures Encode(v, 2) == [v % 256, v / 256 % 256]
    ensures Encode(v, 4) == [v % 256, v / 256 % 256, v / 65536 % 256, v / 16777216]
  {
    Quarters(v);
    hide Encode;
    EncodeStep(v, 4);
    EncodeStep(v / 256, 3);
    EncodeStep(v / 65536, 2);
    EncodeStep(v / 16777216, 1);
    EncodeStep(v, 2);
    EncodeStep(v / 256, 1);
  }

  lemma EncodeStep(v: nat, k: nat)
    requires k > 0
    ensures Encode(v, k) == [v % 256] + if k == 1 then [] else Encode(v / 256, k - 1)
  {
  }

  lemma Quarters(v: nat)
    requires v < 0x1_0000_0000
    ensures v / 256 / 256 == v / 65536 && v / 65536 / 256 == v / 16777216 && v / 16777216 % 256 == v / 16777216
  {
  }

  lemma {:induction false} DecodeEncode(v: nat, k: nat)
    requires v < Pow256(k)
    ensures Decode(Encode(v, k)) == v
  {
    if k == 0 {
    } else {
      DecodeEncode(v / 256, k - 1);
      assert Encode(v, k)[1..] == Encode(v / 256, k - 1);
    }
  }

  /** The `k`-byte little-endian integer at offset `a`. */
  function Load(m: seq<byte>, a: nat, k: nat): (v: nat)
    requires a + k <= |m|
    ensures v < Pow256(k)
  {
    Decode(m[a..a + k])
  }

  function Store(m: seq<byte>, a: nat, k: nat, v: nat): (r: seq<byte>)
    requires a + k <= |m|
    ensures |r| == |m|
  {
    Splice(m, a, Encode(v, k))
  }

  lemma LoadStored(m: seq<byte>, a: nat, k: nat, v: nat)
    requires a + k <= |m| && v < Pow256(k)
    ensures Load(Store(m, a, k, v), a, k) == v
  {
    assert Store(m, a, k, v)[a..a + k] == Encode(v, k);
    DecodeEncode(v, k);
  }

  lemma Pow256Small()
    ensures Pow256(1) == 0x100 && Pow256(2) == 0x1_0000 && Pow256(4) == 0x1_0000_0000
    ensures Pow256(8) == 0x1_0000_0000_0000_0000
  {
  }

  /** Write a run of bytes into a buffer. */
  method Write(buf: array<byte>, a: nat, bs: seq<byte>)
    requires a + |bs| <= buf.Length
    modifies buf
    ensures buf[..] == Splice(old(buf[..]), a, bs)
  {
    forall i | 0 <= i < |bs| {
      buf[a + i] := bs[i];
    }
  }
}

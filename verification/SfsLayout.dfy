/** How assignment3/src/sfs.c lays its file system out on the disk: 16384-byte blocks, an inode
    bitmap behind the magic number in block 0, a block bitmap in block 1, three inodes to a block
    from block 3 on, and the data blocks from block 50 on. */
module SfsLayout {
  import opened Bytes
  import opened Bits

  const BLOCK_SIZE: nat := 16384
  const INODES: nat := 128
  const BLOCKS: nat := 4096
  const D_BLOCK_START: nat := 50
  const DISK: nat := 4146
  const SLOTS: nat := 1024
  const INODE_SIZE: nat := 4368
  const PER_BLOCK: nat := 3
  const PATH: nat := 256

  type Block = b: seq<byte> | |b| == BLOCK_SIZE witness seq(BLOCK_SIZE, _ => 0)

  // ---- Bits of a byte -----------------------------------------------------------------------

  function Bit(x: nat, j: nat): nat {
    if j == 0 then x % 2 else Bit(x / 2, j - 1)
  }

  lemma {:induction false} BitIsShift(x: nat, j: nat)
    ensures And(Shr(x, j), 1) == Bit(x, j) < 2
  {
    if j == 0 {
      AndOne(x);
    } else {
      BitIsShift(x / 2, j - 1);
      ShrHalf(x, j);
    }
  }

  lemma AndOne(x: nat)
    ensures And(x, 1) == x % 2
  {
  }

  lemma ShrHalf(x: nat, j: nat)
    requires j > 0
    ensures Shr(x, j) == Shr(x / 2, j - 1)
  {
    var p := Pow2(j - 1);
    var q, r := x / 2 / p, x / 2 % p;
    assert x == 2 * (p * q + r) + x % 2;
    assert x == (2 * p) * q + (2 * r + x % 2);
    DivModUnique(x, 2 * p, q, 2 * r + x % 2);
  }

  lemma {:induction false} OrBits(a: nat, b: nat, j: nat)
    ensures Bit(Or(a, b), j) == if Bit(a, j) == 1 || Bit(b, j) == 1 then 1 else 0
  {
    OrStep(a, b);
    if j == 0 {
    } else {
      OrBits(a / 2, b / 2, j - 1);
    }
  }

  lemma {:induction false} AndBits(a: nat, b: nat, j: nat)
    ensures Bit(And(a, b), j) == if Bit(a, j) == 1 && Bit(b, j) == 1 then 1 else 0
  {
    AndStep(a, b);
    if j == 0 {
    } else {
      AndBits(a / 2, b / 2, j - 1);
    }
  }

  lemma {:induction false} PowBits(k: nat, j: nat)
    ensures Bit(Pow2(k), j) == if j == k then 1 else 0
  {
    if k > 0 && j > 0 {
      PowBits(k - 1, j - 1);
    } else if k == 0 && j > 0 {
      ZeroBits(j - 1);
    }
  }

  lemma {:induction false} ZeroBits(j: nat)
    ensures Bit(0, j) == 0
  {
    if j == 0 {
    } else {
      ZeroBits(j - 1);
    }
  }

  /** Bits of the complement within the low `w` bits. */
  lemma {:induction false} ComplementBits(x: nat, w: nat, j: nat)
    requires x < Pow2(w) && j < w
    ensures Bit(Pow2(w) - 1 - x, j) == 1 - Bit(x, j)
  {
    if j == 0 {
    } else {
      ComplementBits(x / 2, w - 1, j - 1);
      assert (Pow2(w) - 1 - x) / 2 == Pow2(w - 1) - 1 - x / 2;
    }
  }

  lemma {:induction false} OrBound(a: nat, b: nat, w: nat)
    requires a < Pow2(w) && b < Pow2(w)
    ensures Or(a, b) < Pow2(w)
  {
    OrStep(a, b);
    if w == 0 {
    } else {
      OrBound(a / 2, b / 2, w - 1);
    }
  }

  lemma {:induction false} AndBound(a: nat, b: nat)
    ensures And(a, b) <= a
    decreases a
  {
    if a == 0 || b == 0 {
    } else {
      AndBound(a / 2, b / 2);
    }
  }

  lemma {:induction false} PowMono(k: nat, w: nat)
    requires k < w
    ensures Pow2(k) < Pow2(w)
  {
    if k + 1 == w {
    } else {
      PowMono(k, w - 1);
    }
  }

  /** `b` with bit `k` set or cleared, as the bitmap setters compute it. */
  function WithBit(b: byte, k: nat, on: bool): (r: byte)
    requires k < 8
  {
    Pow2s();
    PowMono(k, 8);
    OrBound(b, Pow2(k), 8);
    AndBound(b, 0xFF - Pow2(k));
    if on then Or(b, Pow2(k)) else And(b, 0xFF - Pow2(k))
  }

  /** Setting a bit changes that bit and no other. */
  lemma WithBitIs(b: byte, k: nat, on: bool, j: nat)
    requires k < 8 && j < 8
    ensures Bit(WithBit(b, k, on), j) == if j == k then (if on then 1 else 0) else Bit(b, j)
  {
    hide Or, And, Bit;
    Pow2s();
    PowMono(k, 8);
    PowBits(k, j);
    BitIsShift(b, j);
    OrBits(b, Pow2(k), j);
    AndBits(b, 0xFF - Pow2(k), j);
    ComplementBits(Pow2(k), 8, j);
  }

  // ---- Bitmaps --------------------------------------------------------------------------------

  /** The `count` marks stored from byte `base` of a block on; true is free. */
  ghost function Bitmap(b: Block, base: nat, count: nat): (r: seq<bool>)
    requires base + count / 8 + 1 <= BLOCK_SIZE
    ensures |r| == count
  {
    seq(count, n requires 0 <= n < count => Bit(b[base + n / 8], n % 8) == 1)
  }

  function SetMark(b: Block, base: nat, n: nat, on: bool): Block
    requires base + n / 8 < BLOCK_SIZE
  {
    b[base + n / 8 := WithBit(b[base + n / 8], n % 8, on)]
  }

  /** Setting a mark changes exactly that mark. */
  lemma SetMarkIs(b: Block, base: nat, count: nat, n: nat, on: bool)
    requires base + count / 8 + 1 <= BLOCK_SIZE && n < count
    ensures Bitmap(SetMark(b, base, n, on), base, count) == Bitmap(b, base, count)[n := on]
  {
    hide Bit, WithBit;
    var b' := SetMark(b, base, n, on);
    forall k | 0 <= k < count ensures (Bit(b'[base + k / 8], k % 8) == 1) == if k == n then on
      else Bit(b[base + k / 8], k % 8) == 1 {
      if k / 8 == n / 8 {
        WithBitIs(b[base + n / 8], n % 8, on, k % 8);
      }
    }
  }

  /** A bit behind the marks is none of them. */
  lemma SetMarkPast(b: Block, base: nat, count: nat, n: nat, on: bool)
    requires base + count / 8 + 1 <= BLOCK_SIZE && count % 8 == 0 && count <= n && base + n / 8 < BLOCK_SIZE
    ensures Bitmap(SetMark(b, base, n, on), base, count) == Bitmap(b, base, count)
  {
    hide Bit, WithBit;
  }

  // ---- Inodes ---------------------------------------------------------------------------------

  /** `struct inode_`, with the two padding bytes behind the path kept. */
  datatype Inode = Inode(id: int, path: seq<byte>, pad: seq<byte>, mode: nat, size: int, data: seq<int>, hardlinks: int)

  predicate InodeOk(nd: Inode) {
    && -0x8000 <= nd.id < 0x8000 && |nd.path| == PATH && |nd.pad| == 2 && nd.mode < 0x1_0000_0000
    && Int32(nd.size) && Int32(nd.hardlinks) && |nd.data| == SLOTS
    && forall i :: 0 <= i < SLOTS ==> Int32(nd.data[i])
  }

  predicate Int32(v: int) {
    -0x8000_0000 <= v < 0x8000_0000
  }

  /** Two's complement. */
  function Unsigned(v: int, m: nat): int {
    if v < 0 then v + m else v
  }

  function Signed(v: nat, m: nat): int {
    if v >= m / 2 then v - m else v
  }

  function EncodeInt(v: int): (bs: seq<byte>)
    requires Int32(v)
    ensures |bs| == 4
  {
    Encode(Unsigned(v, 0x1_0000_0000), 4)
  }

  function DecodeInt(bs: seq<byte>): (v: int)
    requires |bs| == 4
    ensures Int32(v)
  {
    Pow256Small();
    Signed(Decode(bs), 0x1_0000_0000)
  }

  /** Two's complement, lowest byte first. */
  lemma IntBytes(v: int)
    requires Int32(v)
    ensures var u := if v < 0 then v + 4294967296 else v;
      EncodeInt(v) == [u % 256, u / 256 % 256, u / 65536 % 256, u / 16777216]
  {
    LittleEndian(Unsigned(v, 0x1_0000_0000));
  }

  lemma IntRoundTrip(v: int)
    requires Int32(v)
    ensures DecodeInt(EncodeInt(v)) == v
  {
    Pow256Small();
    DecodeEncode(Unsigned(v, 0x1_0000_0000), 4);
  }

  function EncodeInts(s: seq<int>): (bs: seq<byte>)
    requires forall i :: 0 <= i < |s| ==> Int32(s[i])
    ensures |bs| == 4 * |s|
  {
    if s == [] then [] else EncodeInt(s[0]) + EncodeInts(s[1..])
  }

  function DecodeInts(bs: seq<byte>): (s: seq<int>)
    requires |bs| % 4 == 0
    ensures |s| == |bs| / 4 && forall i :: 0 <= i < |s| ==> Int32(s[i])
  {
    if bs == [] then [] else [DecodeInt(bs[..4])] + DecodeInts(bs[4..])
  }

  lemma {:induction false} IntsRoundTrip(s: seq<int>)
    requires forall i :: 0 <= i < |s| ==> Int32(s[i])
    ensures DecodeInts(EncodeInts(s)) == s
  {
    hide DecodeInt, EncodeInt;
    if s == [] {
    } else {
      IntRoundTrip(s[0]);
      IntsRoundTrip(s[1..]);
      assert EncodeInts(s)[..4] == EncodeInt(s[0]) && EncodeInts(s)[4..] == EncodeInts(s[1..]);
    }
  }

  /** The bytes of an inode: id at 0, path at 2, mode at 260, size at 264, data at 268, links at 4364. */
  function EncodeInode(nd: Inode): (bs: seq<byte>)
    requires InodeOk(nd)
    ensures |bs| == INODE_SIZE
  {
    Encode(Unsigned(nd.id, 0x1_0000), 2) + nd.path + nd.pad + Encode(nd.mode, 4) + EncodeInt(nd.size)
      + EncodeInts(nd.data) + EncodeInt(nd.hardlinks)
  }

  function DecodeInode(bs: seq<byte>): (nd: Inode)
    requires |bs| == INODE_SIZE
    ensures InodeOk(nd)
  {
    Pow256Small();
    Inode(Signed(Decode(bs[0..2]), 0x1_0000), bs[2..258], bs[258..260], Decode(bs[260..264]), DecodeInt(bs[264..268]),
          DecodeInts(bs[268..4364]), DecodeInt(bs[4364..4368]))
  }

  /** Where the fields of an inode are, in numbers. */
  lemma InodeBytes(nd: Inode)
    requires InodeOk(nd)
    ensures var bs := EncodeInode(nd);
      && |bs| == 4368 && bs[..2] == Encode(Unsigned(nd.id, 0x1_0000), 2) && bs[2..258] == nd.path
      && bs[258..260] == nd.pad && bs[260..264] == Encode(nd.mode, 4) && bs[264..268] == EncodeInt(nd.size)
      && bs[268..4364] == EncodeInts(nd.data) && bs[4364..] == EncodeInt(nd.hardlinks)
  {
    hide EncodeInt, EncodeInts, Encode;
  }

  lemma InodeRoundTrip(nd: Inode)
    requires InodeOk(nd)
    ensures DecodeInode(EncodeInode(nd)) == nd
  {
    hide EncodeInt, DecodeInt, EncodeInts, DecodeInts, Decode, Encode;
    var bs := EncodeInode(nd);
    Pow256Small();
    DecodeEncode(Unsigned(nd.id, 0x1_0000), 2);
    DecodeEncode(nd.mode, 4);
    IntRoundTrip(nd.size);
    IntRoundTrip(nd.hardlinks);
    IntsRoundTrip(nd.data);
    assert bs[0..2] == Encode(Unsigned(nd.id, 0x1_0000), 2) && bs[2..258] == nd.path && bs[258..260] == nd.pad;
    assert bs[260..264] == Encode(nd.mode, 4) && bs[264..268] == EncodeInt(nd.size);
    assert bs[268..4364] == EncodeInts(nd.data) && bs[4364..4368] == EncodeInt(nd.hardlinks);
  }

  /** Three inodes to a block. */
  function InodeIn(b: Block, k: nat): Inode
    requires k < PER_BLOCK
  {
    DecodeInode(b[k * INODE_SIZE..k * INODE_SIZE + INODE_SIZE])
  }

  function PutInode(b: Block, k: nat, nd: Inode): Block
    requires k < PER_BLOCK && InodeOk(nd)
  {
    Splice(b, k * INODE_SIZE, EncodeInode(nd))
  }

  /** Writing one of the inodes of a block stores exactly it and leaves the other two. */
  lemma PutInodeIs(b: Block, k: nat, nd: Inode, j: nat)
    requires k < PER_BLOCK && j < PER_BLOCK && InodeOk(nd)
    ensures InodeIn(PutInode(b, k, nd), j) == if j == k then nd else InodeIn(b, j)
  {
    hide EncodeInode, DecodeInode;
    InodeRoundTrip(nd);
    var r, lo := PutInode(b, k, nd), j * INODE_SIZE;
    if j == k {
      assert r[lo..lo + INODE_SIZE] == EncodeInode(nd);
    } else {
      assert r[lo..lo + INODE_SIZE] == b[lo..lo + INODE_SIZE];
    }
  }
}

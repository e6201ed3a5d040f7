/** Bitwise operations on unsigned integers, and the packed words of my_pthread.c: the block
    header word (24-bit size, 4-bit isNext, 4-bit isFree) and the page-table word
    (16-bit page number, 8-bit thread id, 8-bit isFree). */
module Bits {

  const WORD: nat := 0x1_0000_0000

  function Pow2(k: nat): (p: nat)
    ensures p > 0
  {
    if k == 0 then 1 else 2 * Pow2(k - 1)
  }

  function AndBit(a: nat, b: nat): nat {
    if a % 2 == 1 && b % 2 == 1 then 1 else 0
  }

  function And(a: nat, b: nat): nat
  {
    if a == 0 || b == 0 then 0 else AndBit(a, b) + 2 * And(a / 2, b / 2)
  }

  function OrBit(a: nat, b: nat): nat {
    if a % 2 == 1 || b % 2 == 1 then 1 else 0
  }

  function Or(a: nat, b: nat): nat
    decreases a + b
  {
    if a == 0 then b else if b == 0 then a
    else OrBit(a, b) + 2 * Or(a / 2, b / 2)
  }

  function Shl(a: nat, k: nat): nat {
    (a * Pow2(k)) % WORD
  }

  function Quotient(a: nat, p: nat): nat
    requires p > 0
  {
    a / p
  }

  function Shr(a: nat, k: nat): nat {
    Quotient(a, Pow2(k))
  }

  lemma {:induction false} AndLow(w: nat, k: nat)
    ensures And(w, Pow2(k) - 1) == w % Pow2(k)
  {
    hide And;
    AndStep(w, Pow2(k) - 1);
    if k == 0 {
      AndZero(w);
    } else {
      AndLow(w / 2, k - 1);
      assert (Pow2(k) - 1) / 2 == Pow2(k - 1) - 1;
      ModHalves(w, Pow2(k - 1));
    }
  }

  lemma ModHalves(w: nat, p: nat)
    requires p > 0
    ensures w % (2 * p) == w % 2 + 2 * ((w / 2) % p)
  {
    var q, r := (w / 2) / p, (w / 2) % p;
    assert w == 2 * (q * p + r) + w % 2;
    assert w == (2 * p) * q + (2 * r + w % 2);
    DivModUnique(w, 2 * p, q, 2 * r + w % 2);
  }

  lemma MulAtLeast(p: nat, d: nat)
    requires d >= 1
    ensures p * d >= p
  {
  }

  lemma DivModUnique(w: nat, p: nat, q: nat, r: nat)
    requires p > 0 && r < p && w == p * q + r
    ensures w / p == q && w % p == r
  {
    DivModOnly(p, w / p, w % p, q, r);
  }

  lemma DivModOnly(p: nat, q: nat, r: nat, q': nat, r': nat)
    requires r < p && r' < p && p * q + r == p * q' + r'
    ensures q == q' && r == r'
  {
    if q > q' {
      MulAtLeast(p, q - q');
    } else if q < q' {
      MulAtLeast(p, q' - q);
    }
  }

  /** And works digit by digit: the low `k` bits and the rest separate. */
  lemma {:induction false} AndSplit(a: nat, b: nat, c: nat, d: nat, k: nat)
    requires b < Pow2(k) && d < Pow2(k)
    ensures And(a * Pow2(k) + b, c * Pow2(k) + d) == And(a, c) * Pow2(k) + And(b, d)
  {
    hide And;
    if k == 0 {
      assert And(b, d) == 0 by { AndZero(0); }
    } else {
      var p := Pow2(k - 1);
      AndSplit(a, b / 2, c, d / 2, k - 1);
      Halve(a, b, p);
      Halve(c, d, p);
      AndStep(a * (2 * p) + b, c * (2 * p) + d);
      AndStep(b, d);
      Twice(And(a, c), p);
    }
  }

  lemma AndZero(x: nat)
    ensures And(x, 0) == 0
  {
  }

  lemma Twice(x: nat, p: nat)
    ensures x * (2 * p) == 2 * (x * p)
  {
  }

  lemma Halve(a: nat, b: nat, p: nat)
    ensures (a * (2 * p) + b) / 2 == a * p + b / 2 && (a * (2 * p) + b) % 2 == b % 2
  {
  }

  lemma AndStep(a: nat, b: nat)
    ensures And(a, b) == AndBit(a, b) + 2 * And(a / 2, b / 2)
  {
  }

  /** Or works digit by digit too. */
  lemma {:induction false} OrSplit(a: nat, b: nat, c: nat, d: nat, k: nat)
    requires b < Pow2(k) && d < Pow2(k)
    ensures Or(a * Pow2(k) + b, c * Pow2(k) + d) == Or(a, c) * Pow2(k) + Or(b, d)
  {
    hide Or;
    if k == 0 {
      OrZero(0);
    } else {
      var p := Pow2(k - 1);
      OrSplit(a, b / 2, c, d / 2, k - 1);
      Halve(a, b, p);
      Halve(c, d, p);
      OrStep(a * (2 * p) + b, c * (2 * p) + d);
      OrStep(b, d);
      Twice(Or(a, c), p);
    }
  }

  lemma OrStep(a: nat, b: nat)
    ensures Or(a, b) == OrBit(a, b) + 2 * Or(a / 2, b / 2)
  {
  }

  lemma OrZero(x: nat)
    ensures Or(x, 0) == x == Or(0, x)
  {
  }

  lemma Pow2s()
    ensures Pow2(4) == 0x10 && Pow2(8) == 0x100 && Pow2(16) == 0x1_0000
    ensures Pow2(24) == 0x100_0000 && Pow2(28) == 0x1000_0000
  {
  }

  /** The digits of a number written in base 256, 256 and base `p` on top are unique. */
  lemma Digits(a: nat, b: nat, c: nat, p: nat, q: nat)
    requires b < p && c < q && q > 0
    ensures (a * p + b) * q + c >= 0
    ensures ((a * p + b) * q + c) / q == a * p + b && ((a * p + b) * q + c) % q == c
    ensures p > 0 && (a * p + b) / p == a && (a * p + b) % p == b
  {
    assert (a * p + b) * q == q * (a * p + b) && a * p == p * a;
    DivModUnique((a * p + b) * q + c, q, a * p + b, c);
    DivModUnique(a * p + b, p, a, b);
  }

  // ---- Block header words ---------------------------------------------------------------

  function SetBlockSize(block: nat, size: nat): nat { Or(Shl(size, 8), And(block, 0xFF)) }
  function GetBlockSize(block: nat): nat { And(Shr(block, 8), 0xFFFFFF) }
  function SetBlockIsNext(block: nat, isNext: nat): nat { Or(Shl(isNext, 4), And(block, 0xFFFFFF0F)) }
  function GetBlockIsNext(block: nat): nat { And(Shr(block, 4), 0xF) }
  function SetBlockIsF(block: nat, isF: nat): nat { Or(And(block, 0xFFFFFFF0), isF) }
  function GetBlockIsF(block: nat): nat { And(block, 0xF) }

  /** The word with the given three fields. */
  function Pack(size: nat, isNext: nat, isF: nat): nat {
    (size * 0x10 + isNext) * 0x10 + isF
  }

  predicate BlockFields(size: nat, isNext: nat, isF: nat) {
    size < 0x100_0000 && isNext < 0x10 && isF < 0x10
  }

  lemma PackFields(size: nat, isNext: nat, isF: nat)
    requires BlockFields(size, isNext, isF)
    ensures var w := Pack(size, isNext, isF);
      w < WORD && GetBlockSize(w) == size && GetBlockIsNext(w) == isNext && GetBlockIsF(w) == isF
  {
    hide And, Pow2;
    var w := Pack(size, isNext, isF);
    Pow2s();
    Digits(size, isNext, isF, 0x10, 0x10);
    assert w == size * 0x100 + (isNext * 0x10 + isF);
    DivModUnique(w, 0x100, size, isNext * 0x10 + isF);
    AndLow(size, 24);
    AndLow(size * 0x10 + isNext, 4);
    AndLow(w, 4);
  }

  lemma Unpack(w: nat) returns (size: nat, isNext: nat, isF: nat)
    requires w < WORD
    ensures BlockFields(size, isNext, isF) && w == Pack(size, isNext, isF)
  {
    size, isNext, isF := w / 0x10 / 0x10, w / 0x10 % 0x10, w % 0x10;
  }

  lemma SetBlockSizeIs(size: nat, isNext: nat, isF: nat, v: nat)
    requires BlockFields(size, isNext, isF) && v < 0x100_0000
    ensures SetBlockSize(Pack(size, isNext, isF), v) == Pack(v, isNext, isF)
  {
    hide And, Or, Pow2;
    var w, lo := Pack(size, isNext, isF), isNext * 0x10 + isF;
    Pow2s();
    AndLow(w, 8);
    DivModUnique(w, 0x100, size, lo);
    OrSplit(v, 0, 0, lo, 8);
    OrZero(v);
    OrZero(lo);
  }

  lemma SetBlockIsNextIs(size: nat, isNext: nat, isF: nat, v: nat)
    requires BlockFields(size, isNext, isF) && v < 0x10
    ensures SetBlockIsNext(Pack(size, isNext, isF), v) == Pack(size, v, isF)
  {
    hide And, Or, Pow2;
    var lo := isNext * 0x10 + isF;
    Pow2s();
    AndSplit(size, lo, 0xFFFFFF, 0xF, 8);
    AndLow(size, 24);
    AndLow(lo, 4);
    DivModUnique(lo, 0x10, isNext, isF);
    OrSplit(0, v * 0x10, size, isF, 8);
    OrSplit(v, 0, 0, isF, 4);
    OrZero(size);
    OrZero(v);
    OrZero(isF);
  }

  lemma SetBlockIsFIs(size: nat, isNext: nat, isF: nat, v: nat)
    requires BlockFields(size, isNext, isF) && v < 0x10
    ensures SetBlockIsF(Pack(size, isNext, isF), v) == Pack(size, isNext, v)
  {
    hide And, Or, Pow2;
    var hi := size * 0x10 + isNext;
    Pow2s();
    AndSplit(hi, isF, 0xFFFFFFF, 0, 4);
    AndLow(hi, 28);
    AndZero(isF);
    OrSplit(hi, 0, 0, v, 4);
    OrZero(hi);
    OrZero(v);
  }

  /** Setting all three fields over any garbage word leaves exactly those fields. */
  lemma BlockWordRoundTrip(garbage: nat, size: nat, isNext: nat, isF: nat)
    requires garbage < WORD && BlockFields(size, isNext, isF)
    ensures var w := SetBlockIsNext(SetBlockSize(SetBlockIsF(garbage, isF), size), isNext);
      && w == Pack(size, isNext, isF) == size * 256 + isNext * 16 + isF < 0x1_0000_0000
      && GetBlockSize(w) == size && GetBlockIsNext(w) == isNext && GetBlockIsF(w) == isF
  {
    assert Pack(size, isNext, isF) == size * 256 + isNext * 16 + isF;
    hide SetBlockIsF, SetBlockSize, SetBlockIsNext, GetBlockSize, GetBlockIsNext, GetBlockIsF, Pack;
    var s, n, f := Unpack(garbage);
    SetBlockIsFIs(s, n, f, isF);
    SetBlockSizeIs(s, n, isF, size);
    SetBlockIsNextIs(size, n, isF, isNext);
    PackFields(size, isNext, isF);
  }

  // ---- Page-table words -----------------------------------------------------------------

  function SetPagePgID(pg: nat, id: nat): nat { Or(Shl(id, 16), And(pg, 0xFFFF)) }
  function GetPagePgID(pg: nat): nat { And(Shr(pg, 16), 0xFFFF) }
  function SetPageThID(pg: nat, id: nat): nat { Or(Shl(id, 8), And(pg, 0xFFFF00FF)) }
  function GetPageThID(pg: nat): nat { And(Shr(pg, 8), 0xFF) }
  function SetPageIsF(pg: nat, free: nat): nat { Or(And(pg, 0xFFFFFF00), free) }
  function GetPageIsF(pg: nat): nat { And(pg, 0xFF) }

  /** The entry for page `pg` of thread `th` with free mark `free`. */
  function Entry(pg: nat, th: nat, free: nat): nat {
    (pg * 0x100 + th) * 0x100 + free
  }

  predicate EntryFields(pg: nat, th: nat, free: nat) {
    pg < 0x1_0000 && th < 0x100 && free < 0x100
  }

  lemma GetEntry(pg: nat, th: nat, free: nat)
    requires EntryFields(pg, th, free)
    ensures var w := Entry(pg, th, free);
      w < WORD && GetPagePgID(w) == pg && GetPageThID(w) == th && GetPageIsF(w) == free
  {
    hide And, Pow2;
    var w := Entry(pg, th, free);
    Pow2s();
    Digits(pg, th, free, 0x100, 0x100);
    assert w == pg * 0x1_0000 + (th * 0x100 + free);
    DivModUnique(w, 0x1_0000, pg, th * 0x100 + free);
    AndLow(pg, 16);
    AndLow(pg * 0x100 + th, 8);
    AndLow(w, 8);
  }

  lemma EntryOf(w: nat) returns (pg: nat, th: nat, free: nat)
    requires w < WORD
    ensures EntryFields(pg, th, free) && w == Entry(pg, th, free)
  {
    pg, th, free := w / 0x100 / 0x100, w / 0x100 % 0x100, w % 0x100;
  }

  lemma SetPageIsFIs(pg: nat, th: nat, free: nat, v: nat)
    requires EntryFields(pg, th, free) && v < 0x100
    ensures SetPageIsF(Entry(pg, th, free), v) == Entry(pg, th, v)
  {
    hide And, Or, Pow2;
    var hi := pg * 0x100 + th;
    Pow2s();
    AndSplit(hi, free, 0xFFFFFF, 0, 8);
    AndLow(hi, 24);
    AndZero(free);
    OrSplit(hi, 0, 0, v, 8);
    OrZero(hi);
    OrZero(v);
  }

  lemma SetPagePgIDIs(pg: nat, th: nat, free: nat, v: nat)
    requires EntryFields(pg, th, free) && v < 0x1_0000
    ensures SetPagePgID(Entry(pg, th, free), v) == Entry(v, th, free)
  {
    hide And, Or, Pow2;
    var w, lo := Entry(pg, th, free), th * 0x100 + free;
    Pow2s();
    AndLow(w, 16);
    DivModUnique(w, 0x1_0000, pg, lo);
    OrSplit(v, 0, 0, lo, 16);
    OrZero(v);
    OrZero(lo);
  }

  /** The thread id `hi * 256 + lo` is shifted in unmasked: `hi` lands in the page number. */
  lemma SetPageThIDIs(pg: nat, th: nat, free: nat, hi: nat, lo: nat)
    requires EntryFields(pg, th, free) && hi < 0x1_0000 && lo < 0x100
    ensures SetPageThID(Entry(pg, th, free), hi * 0x100 + lo) == Entry(Or(hi, pg), lo, free)
  {
    hide And, Or, Pow2;
    Pow2s();
    assert And(Entry(pg, th, free), 0xFFFF00FF) == pg * 0x1_0000 + free by {
      var w := th * 0x100 + free;
      AndSplit(pg, w, 0xFFFF, 0xFF, 16);
      AndLow(pg, 16);
      AndLow(w, 8);
      DivModUnique(w, 0x100, th, free);
    }
    assert Shl(hi * 0x100 + lo, 8) == hi * 0x1_0000 + lo * 0x100;
    assert Or(lo * 0x100, free) == lo * 0x100 + free by {
      OrSplit(lo, 0, 0, free, 8);
      OrZero(lo);
      OrZero(free);
    }
    OrSplit(hi, lo * 0x100, pg, free, 16);
    assert (Or(hi, pg) * 0x100 + lo) * 0x100 == Or(hi, pg) * 0x1_0000 + lo * 0x100;
  }

  /** Marking an entry free or used touches nothing else. */
  lemma SetPageIsFFields(w: nat, v: nat)
    requires w < WORD && v < 0x100
    ensures var r := SetPageIsF(w, v);
      && r < WORD && GetPageIsF(r) == v
      && GetPagePgID(r) == GetPagePgID(w) && GetPageThID(r) == GetPageThID(w)
  {
    hide SetPageIsF, GetPagePgID, GetPageThID, GetPageIsF, Entry;
    var pg, th, f := EntryOf(w);
    SetPageIsFIs(pg, th, f, v);
    GetEntry(pg, th, f);
    GetEntry(pg, th, v);
  }

  /** An entry set up for page `pg` of thread `th` reads back as such exactly when the
      thread id fits in eight bits; bits shifted out at the top are masked off in the last step. */
  lemma PageWordRoundTrip(garbage: nat, pg: nat, th: nat, v: nat)
    requires garbage < WORD && pg < 0x1_0000 && v < 0x100
    ensures var w := SetPageIsF(SetPageThID(SetPagePgID(garbage, pg), th), v);
      && (th < 0x100 ==> w == Entry(pg, th, v) == pg * 65536 + th * 256 + v && EntryFields(pg, th, v))
      && (w < WORD && GetPagePgID(w) == pg && GetPageThID(w) == th && GetPageIsF(w) == v <==> th < 0x100)
  {
    assert th < 0x100 ==> Entry(pg, th, v) == pg * 65536 + th * 256 + v;
    hide SetPageIsF, SetPageThID, SetPagePgID, GetPagePgID, GetPageThID, GetPageIsF, Or, Entry;
    var p, t, f := EntryOf(garbage);
    SetPagePgIDIs(p, t, f, pg);
    if th < 0x100 {
      SetPageThIDIs(pg, t, f, 0, th);
      OrZero(pg);
      SetPageIsFIs(pg, th, f, v);
      GetEntry(pg, th, v);
    } else {
      ThIDBound(SetPageIsF(SetPageThID(SetPagePgID(garbage, pg), th), v));
    }
  }

  lemma ThIDBound(w: nat)
    ensures GetPageThID(w) < 0x100
  {
    Pow2s();
    AndLow(Shr(w, 8), 8);
  }
}

/** The long and short fixed point formats of NTP, section 6 of RFC 5905. */
module FixedPoint {
  import opened Bytes

  const W: int := 0x1_0000_0000
  const W2: int := 0x1_0000_0000_0000_0000
  const W3: int := 0x1_0000_0000_0000_0000_0000_0000
  const SIGN: int := 0x8000_0000

  type Int32 = x: int | -0x8000_0000 <= x < 0x8000_0000

  /** The `uint32_t` a result is stored as; a carry makes no more than one turn of the circle. */
  function U32(x: int): (r: Word)
    ensures r == x % W
    ensures 0 <= x < W ==> r == x
    ensures W <= x < 2 * W ==> r == x - W
    ensures -W <= x < 0 ==> r == x + W
  {
    x % 0x1_0000_0000
  }

  /** The same for two words. */
  function U64(x: int): (r: int)
    ensures r == x % W2 && 0 <= r < W2
    ensures 0 <= x < W2 ==> r == x
    ensures W2 <= x < 2 * W2 ==> r == x - W2
    ensures -W2 <= x < 0 ==> r == x + W2
  {
    x % 0x1_0000_0000_0000_0000
  }

  /** The same for three. */
  function U96(x: int): (r: int)
    ensures r == x % W3 && 0 <= r < W3
    ensures 0 <= x < W3 ==> r == x
    ensures W3 <= x < 2 * W3 ==> r == x - W3
  {
    x % 0x1_0000_0000_0000_0000_0000_0000
  }

  /** The `int32` a word is read as. */
  function S32(x: Word): (r: Int32)
    ensures U32(r) == x
  {
    if x >= SIGN then x - W else x
  }

  function Not(x: Word): Word {
    W - 1 - x
  }

  function Bit(b: bool): int {
    if b then 1 else 0
  }

  /** `x ^ 0x80000000`. */
  function Flip(x: Word): Word {
    if x >= SIGN then x - SIGN else x + SIGN
  }

  /** The number of two words, in units of the last fraction bit. */
  function Pair(i: Word, f: Word): (r: int)
    ensures 0 <= r < W2
  {
    i * 0x1_0000_0000 + f
  }

  /** The same bits in two's complement. */
  function SignedPair(i: Word, f: Word): (r: int)
    ensures -(W2 / 2) <= r < W2 / 2
  {
    if i >= SIGN then Pair(i, f) - W2 else Pair(i, f)
  }

  /** A two-word number: 32 integral bits, signed or not, and 32 bits of fraction. */
  class LFp {
    var ui: Word
    var uf: Word

    constructor (ui: Word, uf: Word)
      ensures this.ui == ui && this.uf == uf
    {
      this.ui, this.uf := ui, uf;
    }

    function Value(): int
      reads this
    {
      Pair(ui, uf)
    }

    function Signed(): int
      reads this
    {
      SignedPair(ui, uf)
    }

    method Neg()
      modifies this
      ensures Value() == U64(-old(Value()))
    {
      hide U32, U64;
      uf := U32(Not(uf) + 1);
      ui := U32(Not(ui) + Bit(uf == 0));
    }

    /** `a` may be the same object. */
    method Add(a: LFp)
      modifies this
      ensures Value() == U64(old(Value()) + old(a.Value()))
    {
      hide U32, U64;
      var t := uf;
      uf := U32(uf + a.uf);
      ui := U32(ui + a.ui + Bit(uf < t));
    }

    method Sub(a: LFp)
      modifies this
      ensures Value() == U64(old(Value()) - old(a.Value()))
    {
      hide U32, U64;
      var t := uf;
      uf := U32(uf - a.uf);
      ui := U32(ui - (a.ui + Bit(uf > t)));
    }

    /** `L_ADDUF` */
    method AddUf(f: Word)
      modifies this
      ensures Value() == U64(old(Value()) + f)
    {
      var fraction := new LFp(0, f);
      Add(fraction);
    }

    /** `L_SUBUF` */
    method SubUf(f: Word)
      modifies this
      ensures Value() == U64(old(Value()) - f)
    {
      var fraction := new LFp(0, f);
      Sub(fraction);
    }

    /** `L_ADDF`: a signed fraction. */
    method AddF(f: Int32)
      modifies this
      ensures Value() == U64(old(Value()) + f)
    {
      if f >= 0 {
        AddUf(U32(f));
      } else {
        var magnitude: int := f;
        SubUf(U32(-magnitude));
      }
    }

    /** `L_RSHIFTU` */
    method RShiftU()
      modifies this
      ensures Value() == old(Value()) / 2
    {
      uf := uf / 2 + ui % 2 * SIGN;
      ui := ui / 2;
    }

    /** `L_RSHIFT` keeps the sign bit: halving, rounded towards minus infinity. */
    method RShift()
      modifies this
      ensures old(Signed()) - 1 <= 2 * Signed() <= old(Signed())
    {
      uf := uf / 2 + ui % 2 * SIGN;
      ui := ui / 2 + (if ui >= SIGN then SIGN else 0);
    }

    /** `L_LSHIFT` */
    method LShift()
      modifies this
      ensures Value() == U64(2 * old(Value()))
    {
      hide U32, U64;
      ui := U32(2 * ui) + Bit(uf >= SIGN);
      uf := U32(2 * uf);
    }
  }

  // ----- comparisons -----

  function IsNeg(a: LFp): (r: bool)
    reads a
    ensures r <==> a.Signed() < 0
  {
    a.ui >= SIGN
  }

  function IsGt(a: LFp, b: LFp): (r: bool)
    reads a, b
    ensures r <==> a.Signed() > b.Signed()
  {
    Flip(a.ui) > Flip(b.ui) || (a.ui == b.ui && a.uf > b.uf)
  }

  function IsGeq(a: LFp, b: LFp): (r: bool)
    reads a, b
    ensures r <==> a.Signed() >= b.Signed()
  {
    Flip(a.ui) > Flip(b.ui) || (a.ui == b.ui && a.uf >= b.uf)
  }

  function IsGtU(a: LFp, b: LFp): (r: bool)
    reads a, b
    ensures r <==> a.Value() > b.Value()
  {
    a.ui > b.ui || (a.ui == b.ui && a.uf > b.uf)
  }

  /** `L_ISHIS` */
  function IsHis(a: LFp, b: LFp): (r: bool)
    reads a, b
    ensures r <==> a.Value() >= b.Value()
  {
    a.ui > b.ui || (a.ui == b.ui && a.uf >= b.uf)
  }

  function IsEqu(a: LFp, b: LFp): (r: bool)
    reads a, b
    ensures r <==> a.Value() == b.Value()
  {
    a.ui == b.ui && a.uf == b.uf
  }

  // ----- three words -----

  function Triple(o: Word, i: Word, f: Word): (r: int)
    ensures 0 <= r < W3
  {
    o * 0x1_0000_0000_0000_0000 + Pair(i, f)
  }

  lemma TripleInjective(o: Word, i: Word, f: Word, ro: Word, ri: Word, rf: Word)
    ensures Triple(o, i, f) == Triple(ro, ri, rf) <==> o == ro && i == ri && f == rf
  {
  }

  /** What the three words of a sum are, and that they are the only ones. */
  lemma ThreeWordSum(o: Word, i: Word, f: Word, ao: Word, ai: Word, af: Word, ro: Word, ri: Word, rf: Word)
    ensures var low := Bit(f + af >= W);
            Triple(ro, ri, rf) == U96(Triple(o, i, f) + Triple(ao, ai, af))
            <==> && rf == U32(f + af)
                 && ri == U32(i + ai + low)
                 && ro == U32(o + ao + Bit(i + ai + low >= W))
  {
    hide U32;
    var low := Bit(f + af >= W);
    var middle := Bit(i + ai + low >= W);
    var sf, si, so := U32(f + af), U32(i + ai + low), U32(o + ao + middle);
    assert sf + low * W == f + af && si + middle * W == i + ai + low;
    assert Triple(so, si, sf) == U96(Triple(o, i, f) + Triple(ao, ai, af));
    TripleInjective(ro, ri, rf, so, si, sf);
  }

  class ThreeWords {
    var o: Word
    var i: Word
    var f: Word

    constructor (o: Word, i: Word, f: Word)
      ensures this.o == o && this.i == i && this.f == f
    {
      this.o, this.i, this.f := o, i, f;
    }

    function Value(): (r: int)
      reads this
      ensures 0 <= r < W3
    {
      Triple(o, i, f)
    }

    /**
     * `M_ADD3`: the middle word can carry at two points, but only at one of them in one addition.
     * Adding a number to itself counts the carry into the middle word twice.
     */
    method Add(a: ThreeWords)
      modifies this
      ensures Value() == U96(old(Value()) + old(a.Value())) <==> a != this || old(f) < SIGN
    {
      hide U32, U96, Triple;
      var t := f;
      f := U32(f + a.f);
      var c := Bit(f < t);
      i := U32(i + c);
      c := Bit(i < c);
      t := i;
      i := U32(i + a.i);
      c := if i < t then 1 else c;
      o := U32(o + a.o + c);
      ThreeWordSum(old(o), old(i), old(f), old(a.o), old(a.i), old(a.f), o, i, f);
    }

    /** `M_LSHIFT3` */
    method LShift()
      modifies this
      ensures Value() == U96(2 * old(Value()))
    {
      hide U32, U96;
      o := U32(2 * o) + Bit(i >= SIGN);
      i := U32(2 * i) + Bit(f >= SIGN);
      f := U32(2 * f);
    }
  }

  // ----- the short format: 16 integral bits and 16 of fraction -----

  /** `FPTOLFP` */
  function FpToLfp(x: Int32): (r: (Word, Word))
  {
    var u := U32(x);
    var ui := u / 0x1_0000;
    (if x < 0 then U32(ui - 0x1_0000) else ui, U32(x * 0x1_0000))
  }

  /** `LFPTOFP`, on the signed integral part. */
  function LfpToFp(ui: Word, uf: Word): (r: Int32)
  {
    var i := S32(ui);
    if i >= 0x1_0000 then 0x7fff_ffff
    else if i <= -0x1_0000 then -0x8000_0000
    else S32(U32(i * 0x1_0000 + uf / 0x1_0000))
  }

  lemma {:induction false} FpToLfpKeepsValue(x: Int32)
    ensures var v := FpToLfp(x); SignedPair(v.0, v.1) == x * 0x1_0000
  {
  }

  lemma {:induction false} LfpToFpInverts(x: Int32)
    ensures var v := FpToLfp(x); LfpToFp(v.0, v.1) == x
  {
    var y: int := x;
    var v := FpToLfp(x);
    var i := S32(v.0);
    FpToLfpKeepsValue(x);
    assert -0x8000 <= i < 0x8000;
    assert i * 0x1_0000 + v.1 / 0x1_0000 == y;
  }

  /** The nearest short number not above, held to the short format's range. */
  function Clamped(v: int): Int32 {
    var q := v / 0x1_0000;
    if q > 0x7fff_ffff then 0x7fff_ffff else if q < -0x8000_0000 then -0x8000_0000 else q
  }

  /**
   * The conversion saturates, but only from 65536 seconds on: between 32768 and 65536 it wraps.
   */
  lemma {:induction false} LfpToFpSaturates(ui: Word, uf: Word)
    ensures LfpToFp(ui, uf) == Clamped(SignedPair(ui, uf))
            <==> (-0x8000 <= S32(ui) < 0x8000 || S32(ui) >= 0x1_0000 || S32(ui) <= -0x1_0000)
  {
  }

  /** 32768 seconds become the most negative short number. */
  lemma LfpToFpWraps()
    ensures LfpToFp(0x8000, 0) == -0x8000_0000 && Clamped(SignedPair(0x8000, 0)) == 0x7fff_ffff
  {
  }
}

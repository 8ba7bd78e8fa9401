/** What the bit-vector operations compute, said without the functions that define them:
    quotients and remainders by the division equation, gates and shifts bit by bit, signs by
    the range of the signed reading. */
module BitVectorLaws {
  import opened Bits
  import opened Exprs

  /** Unsigned division; by zero, the values of the SMT-LIB theory of bit-vectors. */
  lemma UnsignedDivision(a: nat, b: nat, w: nat)
    requires a < Pow2(w) && b < Pow2(w)
    ensures var q, r := EvalBinary(UDiv, a, b, w), EvalBinary(URem, a, b, w);
      if b == 0 then q == Pow2(w) - 1 && r == a else a == q * b + r && r < b
  {
    hide Pow2;
    if b == 0 {
      DivModUnique(-1, Pow2(w), -1, Pow2(w) - 1);
      LowSmall(a, w);
    } else {
      ModBounds(a, b);
      QuotientBelow(a, b);
      LowSmall(a / b, w);
      LowSmall(a % b, w);
    }
  }

  lemma QuotientBelow(a: nat, b: nat)
    requires b > 0
    ensures a / b <= a
  {
    ModBounds(a, b);
    if a / b > 0 {
      MulMono(1, b, a / b);
    }
  }

  /** Division toward zero: the division equation, a remainder smaller than the divisor, and
      of the sign of the dividend. */
  lemma TruncatedDivision(a: int, b: int)
    requires b != 0
    ensures a == TruncDiv(a, b) * b + TruncRem(a, b)
    ensures 0 - Magnitude(b) < TruncRem(a, b) < Magnitude(b)
    ensures (a >= 0 ==> TruncRem(a, b) >= 0) && (a <= 0 ==> TruncRem(a, b) <= 0)
  {
    var m: int, n: int := Magnitude(a), Magnitude(b);
    ModBounds(m, n);
    var q: int, p: int := m / n, m / n * n;
    assert TruncDiv(a, b) == if (a >= 0) == (b > 0) then q else -q;
    assert q * -n == -p && -q * n == -p && -q * -n == p;
  }

  function Magnitude(x: int): nat {
    if x < 0 then -x else x
  }

  /** Signed division of bit vectors is truncated division of their signed readings. */
  lemma SignedDivision(a: nat, b: nat, w: nat)
    requires w > 0 && a < Pow2(w) && 0 < b < Pow2(w)
    ensures Signed(b, w) != 0
    ensures EvalBinary(SDiv, a, b, w) == Low(TruncDiv(Signed(a, w), Signed(b, w)), w)
    ensures Signed(EvalBinary(SRem, a, b, w), w) == TruncRem(Signed(a, w), Signed(b, w))
  {
    hide Low, TruncDiv, TruncRem;
    SignedRange(a, w);
    SignedRange(b, w);
    TruncatedDivision(Signed(a, w), Signed(b, w));
    SignedOfLow(TruncRem(Signed(a, w), Signed(b, w)), w);
  }

  /** The signed reading is the value of that range with the same low bits. */
  lemma SignedRange(v: nat, w: nat)
    requires w > 0 && v < Pow2(w)
    ensures 0 - Pow2(w - 1) <= Signed(v, w) < Pow2(w - 1) && Low(Signed(v, w), w) == v
    ensures Signed(v, w) == 0 <==> v == 0
  {
    SignedLow(v, w);
  }

  lemma SignedOfLow(x: int, w: nat)
    requires w > 0 && 0 - Pow2(w - 1) <= x < Pow2(w - 1)
    ensures Signed(Low(x, w), w) == x
  {
    if x >= 0 {
      LowSmall(x, w);
    } else {
      DivModUnique(x, Pow2(w), -1, x + Pow2(w));
    }
  }

  /** Sign extension keeps the signed reading. */
  lemma SignExtendKeeps(x: nat, w: nat, v: nat)
    requires 0 < w <= v && x < Pow2(w)
    ensures Signed(SignExtend(x, w, v), v) == Signed(x, w)
  {
    hide Low;
    SignedRange(x, w);
    Pow2Mono(w - 1, v - 1);
    SignedOfLow(Signed(x, w), v);
  }

  /** Bit k of a value. */
  function Bit(v: nat, k: nat): (b: nat)
    ensures b < 2
  {
    Shr(v, k) % 2
  }

  lemma BitStep(v: nat, k: nat)
    ensures Bit(v, k + 1) == Bit(v / 2, k)
  {
    hide Pow2;
    Pow2One();
    ShrShr(v, 1, k);
  }

  lemma FirstBit(v: nat)
    ensures Bit(v, 0) == v % 2
  {
    ShrZero(v);
  }

  lemma BitwiseParts(g: Gate, a: nat, b: nat, w: nat)
    requires w > 0
    ensures Bitwise(g, a, b, w) % 2 == GateBit(g, a % 2, b % 2)
    ensures Bitwise(g, a, b, w) / 2 == Bitwise(g, a / 2, b / 2, w - 1)
  {
  }

  /** Each bit of a bitwise operation is the gate of the two bits. */
  lemma {:induction false} BitwiseBits(g: Gate, a: nat, b: nat, w: nat, k: nat)
    requires k < w
    ensures g.AndGate? ==> Bit(Bitwise(g, a, b, w), k) == Bit(a, k) * Bit(b, k)
    ensures g.OrGate? ==> Bit(Bitwise(g, a, b, w), k) == if Bit(a, k) + Bit(b, k) > 0 then 1 else 0
    ensures g.XorGate? ==> Bit(Bitwise(g, a, b, w), k) == (Bit(a, k) + Bit(b, k)) % 2
    decreases w
  {
    hide Bit, Bitwise;
    var r := Bitwise(g, a, b, w);
    BitwiseParts(g, a, b, w);
    if k == 0 {
      FirstBit(a);
      FirstBit(b);
      FirstBit(r);
    } else {
      BitStep(a, k - 1);
      BitStep(b, k - 1);
      BitStep(r, k - 1);
      BitwiseBits(g, a / 2, b / 2, w - 1, k - 1);
    }
  }

  /** Logical shifts move every bit by the amount and fill with zeroes. */
  lemma LogicalShifts(a: nat, b: nat, w: nat, k: nat)
    requires a < Pow2(w) && k < w
    ensures Bit(EvalBinary(Shl, a, b, w), k) == if k < b then 0 else Bit(a, k - b)
    ensures Bit(EvalBinary(LShr, a, b, w), k) == if k + b < w then Bit(a, k + b) else 0
  {
    hide Low, Pow2, Shr;
    ZeroBit(k);
    if b < w {
      ShrBound(a, w, b);
      Pow2Mono(w - b, w);
      LowSmall(Shr(a, b), w);
      ShrShr(a, b, k);
      if k + b >= w {
        Pow2Mono(w, k + b);
        ShrSmall(a, k + b);
      }
      LeftBit(a, b, w, k);
    } else {
      Pow2Mono(w, k + b);
      ShrSmall(a, k + b);
    }
  }

  lemma ZeroBit(k: nat)
    ensures Bit(0, k) == 0
  {
    ModSmall(0, Pow2(k));
  }

  lemma ShrSmall(a: nat, k: nat)
    requires a < Pow2(k)
    ensures Shr(a, k) == 0
  {
    ModSmall(a, Pow2(k));
  }

  lemma LeftBit(a: nat, b: nat, w: nat, k: nat)
    requires b < w && k < w
    ensures Bit(Low(a * Pow2(b), w), k) == if k < b then 0 else Bit(a, k - b)
  {
    hide Pow2, Low, Shr;
    var v := a * Pow2(b);
    assert v == Join(a, 0, b);
    LowBit(v, w, k);
    if k < b {
      JoinShift(a, 0, b, k);
      ShrSmall(0, k);
      EvenJoin(a, b - k);
    } else {
      JoinShr(a, 0, b);
      ShrShr(v, b, k - b);
    }
  }

  lemma EvenJoin(a: nat, n: nat)
    requires n > 0
    ensures Join(a, 0, n) % 2 == 0
  {
    Pow2Add(n - 1, 1);
    Pow2One();
    MulAssoc(a, Pow2(n - 1), 2);
    ModAddMultiple(0, a * Pow2(n - 1), 2);
  }

  lemma LowBit(v: nat, w: nat, k: nat)
    requires k < w
    ensures Bit(Low(v, w), k) == Bit(v, k)
  {
    hide Pow2, Low, Shr;
    JoinParts(v, w);
    JoinShift(Shr(v, w), Low(v, w), w, k);
    Pow2Add(w - k - 1, 1);
    Pow2One();
    MulAssoc(Shr(v, w), Pow2(w - k - 1), 2);
    ModAddMultiple(Shr(Low(v, w), k), Shr(v, w) * Pow2(w - k - 1), 2);
  }

  /** Within the width an arithmetic shift divides the signed reading, rounding down; beyond
      it the result is zero. */
  lemma ArithmeticShift(a: nat, b: nat, w: nat)
    requires w > 0 && a < Pow2(w)
    ensures b >= w ==> EvalBinary(AShr, a, b, w) == 0
    ensures b < w ==> var q := Signed(EvalBinary(AShr, a, b, w), w);
      q * Pow2(b) <= Signed(a, w) < (q + 1) * Pow2(b)
  {
    hide Low, Pow2;
    if b < w {
      SignedRange(a, w);
      var s, n := Signed(a, w), Pow2(b);
      ModBounds(s, n);
      FloorBounds(s, n, Pow2(w - 1));
      SignedOfLow(s / n, w);
      MulDist(s / n, 1, n);
    }
  }

  lemma FloorBounds(s: int, n: nat, m: nat)
    requires n > 0 && 0 - m <= s < m
    ensures 0 - m <= s / n < m
  {
    ModBounds(s, n);
    var q := s / n;
    assert (-q - 1) * n == -((q + 1) * n);
    if q >= m {
      MulMono(1, n, q);
    } else if q < 0 - m {
      MulMono(1, n, -q - 1);
      MulDist(q, 1, n);
    }
  }

  /** A shift that fills with the sign, as the theory of bit-vectors and the folding of
      constants have it, gives the same except beyond the width for a negative operand. */
  lemma SignFilledShift(a: nat, b: nat, w: nat)
    requires w > 0 && a < Pow2(w)
    ensures Low(Signed(a, w) / Pow2(b), w) == EvalBinary(AShr, a, b, w) <==> b < w || Signed(a, w) >= 0
  {
    hide Pow2, Low;
    if b >= w {
      SignedRange(a, w);
      var s := Signed(a, w);
      Pow2Mono(w, b);
      Pow2Mono(w - 1, w);
      if s >= 0 {
        ModSmall(s, Pow2(b));
        LowSmall(0, w);
      } else {
        DivModUnique(s, Pow2(b), -1, s + Pow2(b));
        MinusOne(w);
      }
    }
  }

  lemma MinusOne(w: nat)
    requires w > 0
    ensures Low(-1, w) == Pow2(w) - 1 > 0
  {
    DivModUnique(-1, Pow2(w), -1, Pow2(w) - 1);
  }
}

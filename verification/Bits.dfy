/** Fixed-width unsigned arithmetic on naturals: powers of two, Euclidean
    division facts, bit fields, and bitwise gates defined bit by bit. */
module Bits {

  function Pow2(n: nat): (p: nat)
    ensures p >= 1
  {
    if n == 0 then 1 else 2 * Pow2(n - 1)
  }

  lemma {:induction false} Pow2Add(a: nat, b: nat)
    ensures Pow2(a + b) == Pow2(a) * Pow2(b)
  {
    if a == 0 {
    } else {
      Pow2Add(a - 1, b);
      MulAssoc(2, Pow2(a - 1), Pow2(b));
    }
  }

  lemma {:induction false} Pow2Mono(a: nat, b: nat)
    requires a <= b
    ensures Pow2(a) <= Pow2(b)
    ensures a < b ==> 2 * Pow2(a) <= Pow2(b)
  {
    if a < b {
      Pow2Mono(a, b - 1);
    }
  }

  lemma {:induction false} Pow2Exceeds(n: nat)
    ensures n < Pow2(n)
  {
    if n > 0 {
      Pow2Exceeds(n - 1);
    }
  }

  lemma Pow2One()
    ensures Pow2(1) == 2
  {
  }

  lemma Pow2Byte()
    ensures Pow2(8) == 256
  {
  }

  lemma Pow2Values()
    ensures Pow2(8) == 256 && Pow2(16) == 65536
    ensures Pow2(32) == 0x1_0000_0000
    ensures Pow2(64) == 0x1_0000_0000_0000_0000
  {
    assert Pow2(4) == 16;
    Pow2Add(4, 4);
    Pow2Add(8, 8);
    Pow2Add(16, 16);
    Pow2Add(32, 32);
  }

  // ------------------------------------------- integer products and division

  lemma MulAssoc(a: int, b: int, c: int)
    ensures (a * b) * c == a * (b * c)
  {
  }

  lemma MulDist(a: int, b: int, c: int)
    ensures (a + b) * c == a * c + b * c
    ensures (a - b) * c == a * c - b * c
  {
  }

  lemma MulMono(a: int, b: int, c: int)
    requires a <= b && 0 <= c
    ensures a * c <= b * c
  {
    MulDist(b, a, c);
  }

  /** Quotient and remainder are determined by the division equation. */
  lemma DivModUnique(x: int, m: int, q: int, r: int)
    requires m > 0 && 0 <= r < m && x == q * m + r
    ensures x / m == q && x % m == r
  {
    var q' := x / m;
    var p, p' := q * m, q' * m;
    assert x == p' + x % m;
    if q' < q {
      MulMono(q' + 1, q, m);
      MulDist(q', 1, m);
    } else if q < q' {
      MulMono(q + 1, q', m);
      MulDist(q, 1, m);
    }
  }

  lemma ModAddMultiple(x: int, k: int, m: int)
    requires m > 0
    ensures (x + k * m) % m == x % m
    ensures (x + k * m) / m == x / m + k
  {
    MulDist(x / m, k, m);
    DivModUnique(x + k * m, m, x / m + k, x % m);
  }

  lemma ModSmall(x: int, m: int)
    requires 0 <= x < m
    ensures x % m == x && x / m == 0
  {
  }

  lemma ModBounds(x: int, m: int)
    requires m > 0
    ensures 0 <= x % m < m
    ensures x == (x / m) * m + x % m
    ensures x >= 0 ==> x / m >= 0
  {
  }

  /** Congruence modulo m is preserved by sums and differences. */
  lemma ModCongruent(a: int, a': int, b: int, b': int, m: int)
    requires m > 0 && a % m == a' % m && b % m == b' % m
    ensures (a + b) % m == (a' + b') % m
    ensures (a - b) % m == (a' - b') % m
  {
    var p, q := a / m - a' / m, b / m - b' / m;
    ModBounds(a, m);
    ModBounds(a', m);
    ModBounds(b, m);
    ModBounds(b', m);
    MulDist(a / m, a' / m, m);
    MulDist(b / m, b' / m, m);
    MulDist(p, q, m);
    ModAddMultiple(a' + b', p + q, m);
    ModAddMultiple(a' - b', p - q, m);
  }

  lemma ModIdempotent(a: int, m: int)
    requires m > 0
    ensures (a % m) % m == a % m
  {
  }

  lemma MulPositive(a: int, b: int)
    requires a > 0 && b > 0
    ensures a * b > 0
  {
    MulMono(1, a, b);
  }

  lemma DivDiv(x: nat, a: nat, b: nat)
    requires a > 0 && b > 0
    ensures b * a > 0
    ensures (x / a) / b == x / (b * a)
  {
    MulPositive(b, a);
    var q, r := x / a, x % a;
    ModBounds(x, a);
    var q', r' := q / b, q % b;
    ModBounds(q, b);
    MulDist(q' * b, r', a);
    MulAssoc(q', b, a);
    MulMono(r', b - 1, a);
    MulDist(b, 1, a);
    MulMono(0, r', a);
    DivModUnique(x, b * a, q', r' * a + r);
  }

  lemma DivBelow(x: nat, a: nat, b: nat)
    requires b > 0 && x < a * b
    ensures x / b < a
  {
    ModBounds(x, b);
    if a <= x / b {
      MulMono(a, x / b, b);
      assert false;
    }
  }

  /** Dividing a sum whose first part is a multiple of p * k. */
  lemma DivOfMultiple(l: nat, r: nat, k: nat, p: nat)
    requires p > 0
    ensures (l * (k * p) + r) / p == l * k + r / p
  {
    MulAssoc(l, k, p);
    ModAddMultiple(r, l * k, p);
  }

  lemma JoinBelow(l: nat, r: nat, a: nat, b: nat)
    requires l < a && r < b
    ensures l * b + r < a * b
  {
    MulMono(l + 1, a, b);
    MulDist(l, 1, b);
  }

  // ------------------------------------------------------------------ fields

  /** A value without its low k bits. */
  function Shr(v: nat, k: nat): nat {
    ModBounds(v, Pow2(k));
    v / Pow2(k)
  }

  /** The residue of an integer modulo 2 to the w: its low w bits. */
  function Low(v: int, w: nat): (r: nat)
    ensures r < Pow2(w)
  {
    ModBounds(v, Pow2(w));
    v % Pow2(w)
  }

  /** Bits off .. off + w of a value. */
  function Field(v: nat, off: nat, w: nat): (r: nat)
    ensures r < Pow2(w)
  {
    Low(Shr(v, off), w)
  }

  lemma ShrZero(v: nat)
    ensures Shr(v, 0) == v
  {
  }

  lemma LowSmall(v: nat, w: nat)
    requires v < Pow2(w)
    ensures Low(v, w) == v
  {
    ModSmall(v, Pow2(w));
  }

  /** The value whose low rw bits are r and whose remaining bits are l. */
  function Join(l: nat, r: nat, rw: nat): nat {
    l * Pow2(rw) + r
  }

  lemma FieldWhole(v: nat, w: nat)
    requires v < Pow2(w)
    ensures Field(v, 0, w) == v
  {
    ShrZero(v);
    LowSmall(v, w);
  }

  lemma JoinBound(l: nat, r: nat, lw: nat, rw: nat)
    requires l < Pow2(lw) && r < Pow2(rw)
    ensures Join(l, r, rw) < Pow2(lw + rw)
  {
    Pow2Add(lw, rw);
    JoinBelow(l, r, Pow2(lw), Pow2(rw));
  }

  lemma JoinParts(v: nat, k: nat)
    ensures v == Join(Shr(v, k), Low(v, k), k)
  {
  }

  lemma ShrShr(v: nat, a: nat, b: nat)
    ensures Shr(Shr(v, a), b) == Shr(v, a + b)
  {
    Pow2Add(b, a);
    DivDiv(v, Pow2(a), Pow2(b));
  }

  lemma JoinShr(l: nat, r: nat, rw: nat)
    requires r < Pow2(rw)
    ensures Shr(Join(l, r, rw), rw) == l && Low(Join(l, r, rw), rw) == r
  {
    DivModUnique(Join(l, r, rw), Pow2(rw), l, r);
  }

  lemma JoinShift(l: nat, r: nat, rw: nat, off: nat)
    requires off <= rw
    ensures Shr(Join(l, r, rw), off) == Join(l, Shr(r, off), rw - off)
  {
    Pow2Add(rw - off, off);
    DivOfMultiple(l, r, Pow2(rw - off), Pow2(off));
  }

  /** Truncating a join below its seam drops the high part. */
  lemma LowOfJoin(l: nat, r: nat, rw: nat, w: nat)
    requires w <= rw
    ensures Low(Join(l, r, rw), w) == Low(r, w)
  {
    Pow2Add(rw - w, w);
    MulAssoc(l, Pow2(rw - w), Pow2(w));
    ModAddMultiple(r, l * Pow2(rw - w), Pow2(w));
  }

  /** Truncating a join above its seam truncates the high part. */
  lemma LowOfWideJoin(l: nat, s: nat, h: nat, k: nat)
    requires s < Pow2(k)
    ensures Low(Join(l, s, k), h + k) == Join(Low(l, h), s, k)
  {
    var q, t := Shr(l, h), Low(l, h);
    JoinParts(l, h);
    MulDist(q * Pow2(h), t, Pow2(k));
    MulAssoc(q, Pow2(h), Pow2(k));
    Pow2Add(h, k);
    JoinBound(t, s, h, k);
    DivModUnique(Join(l, s, k), Pow2(h + k), q, Join(t, s, k));
  }

  lemma ShrBound(r: nat, rw: nat, off: nat)
    requires off <= rw && r < Pow2(rw)
    ensures Shr(r, off) < Pow2(rw - off)
  {
    Pow2Add(rw - off, off);
    DivBelow(r, Pow2(rw - off), Pow2(off));
  }

  /** A field lying in the high part of a concatenation. */
  lemma FieldOfJoinHigh(l: nat, r: nat, rw: nat, off: nat, w: nat)
    requires r < Pow2(rw) && off >= rw
    ensures Field(Join(l, r, rw), off, w) == Field(l, off - rw, w)
  {
    JoinShr(l, r, rw);
    ShrShr(Join(l, r, rw), rw, off - rw);
  }

  /** A field lying in the low part of a concatenation. */
  lemma FieldOfJoinLow(l: nat, r: nat, rw: nat, off: nat, w: nat)
    requires off + w <= rw
    ensures Field(Join(l, r, rw), off, w) == Field(r, off, w)
  {
    JoinShift(l, r, rw, off);
    LowOfJoin(l, Shr(r, off), rw - off, w);
  }

  /** A field across the seam is the concatenation of the two part fields. */
  lemma FieldOfJoinAcross(l: nat, r: nat, rw: nat, off: nat, w: nat)
    requires r < Pow2(rw) && off < rw < off + w
    ensures Field(Join(l, r, rw), off, w)
         == Join(Field(l, 0, w - rw + off), Field(r, off, rw - off), rw - off)
  {
    JoinShift(l, r, rw, off);
    ShrBound(r, rw, off);
    LowSmall(Shr(r, off), rw - off);
    ShrZero(l);
    LowOfWideJoin(l, Shr(r, off), w - rw + off, rw - off);
  }

  /** Two adjacent fields of one value join to the wider field. */
  lemma JoinOfFields(v: nat, off: nat, lw: nat, hw: nat)
    ensures Join(Field(v, off + lw, hw), Field(v, off, lw), lw) == Field(v, off, lw + hw)
  {
    var x := Shr(v, off);
    ShrShr(v, off, lw);
    JoinParts(x, lw);
    LowOfWideJoin(Shr(x, lw), Low(x, lw), hw, lw);
  }

  // ------------------------------------------------------------------- gates

  datatype Gate = AndGate | OrGate | XorGate

  function GateBit(g: Gate, x: nat, y: nat): (b: nat)
    requires x < 2 && y < 2
    ensures b < 2
  {
    match g
    case AndGate => if x == 1 && y == 1 then 1 else 0
    case OrGate => if x == 1 || y == 1 then 1 else 0
    case XorGate => if x != y then 1 else 0
  }

  /** The low w bits of a bitwise combination. */
  function Bitwise(g: Gate, a: nat, b: nat, w: nat): (r: nat)
    ensures r < Pow2(w)
    decreases w
  {
    if w == 0 then 0
    else GateBit(g, a % 2, b % 2) + 2 * Bitwise(g, a / 2, b / 2, w - 1)
  }

  lemma {:induction false} BitwiseComm(g: Gate, a: nat, b: nat, w: nat)
    ensures Bitwise(g, a, b, w) == Bitwise(g, b, a, w)
    decreases w
  {
    if w > 0 {
      BitwiseComm(g, a / 2, b / 2, w - 1);
    }
  }

  lemma {:induction false} BitwiseZero(a: nat, w: nat)
    requires a < Pow2(w)
    ensures Bitwise(AndGate, a, 0, w) == 0
    ensures Bitwise(OrGate, a, 0, w) == a
    ensures Bitwise(XorGate, a, 0, w) == a
    decreases w
  {
    if w > 0 {
      BitwiseZero(a / 2, w - 1);
    }
  }

  lemma {:induction false} BitwiseOnes(a: nat, w: nat)
    requires a < Pow2(w)
    ensures Bitwise(AndGate, a, Pow2(w) - 1, w) == a
    ensures Bitwise(OrGate, a, Pow2(w) - 1, w) == Pow2(w) - 1
    decreases w
  {
    if w > 0 {
      BitwiseOnes(a / 2, w - 1);
      assert (Pow2(w) - 1) / 2 == Pow2(w - 1) - 1;
    }
  }

  /** One-bit gates are the Boolean connectives. */
  lemma BitwiseBool(g: Gate, a: nat, b: nat)
    requires a < 2 && b < 2
    ensures Bitwise(g, a, b, 1) == GateBit(g, a, b)
  {
    ModSmall(a, 2);
    ModSmall(b, 2);
    assert Bitwise(g, a / 2, b / 2, 0) == 0;
  }

  // ------------------------------------------------------------------- signs

  /** Two's complement reading of a w-bit value. */
  function Signed(v: nat, w: nat): int {
    if w > 0 && v >= Pow2(w - 1) then v - Pow2(w) else v
  }

  lemma SignedLow(v: nat, w: nat)
    requires v < Pow2(w)
    ensures Low(Signed(v, w), w) == v
  {
    ModSmall(v, Pow2(w));
    ModAddMultiple(v, -1, Pow2(w));
  }

  /** Division rounding toward zero, as in C and LLVM. */
  function TruncDiv(a: int, b: int): int
    requires b != 0
  {
    if a >= 0 then (if b > 0 then a / b else -(a / -b))
    else (if b > 0 then -(-a / b) else -a / -b)
  }

  function TruncRem(a: int, b: int): int
    requires b != 0
  {
    a - b * TruncDiv(a, b)
  }

  /** Sign extension of a w-bit value to v bits. */
  function SignExtend(x: nat, w: nat, v: nat): (r: nat)
    ensures r < Pow2(v)
  {
    Low(Signed(x, w), v)
  }

  lemma LowOfLow(s: int, w: nat, v: nat)
    requires w <= v
    ensures Low(Low(s, v), w) == Low(s, w)
  {
    ModBounds(s, Pow2(v));
    Pow2Add(v - w, w);
    MulAssoc(s / Pow2(v), Pow2(v - w), Pow2(w));
    ModAddMultiple(s % Pow2(v), s / Pow2(v) * Pow2(v - w), Pow2(w));
  }

  /** Truncating a sign extension gives the original value back. */
  lemma SignExtendInverse(x: nat, w: nat, v: nat)
    requires w <= v && x < Pow2(w)
    ensures Low(SignExtend(x, w, v), w) == x
  {
    LowOfLow(Signed(x, w), w, v);
    SignedLow(x, w);
  }

  /** Residues may be taken at any point of a sum or difference. */
  lemma LowSum(a: int, b: int, w: nat)
    ensures Low(Low(a, w) + b, w) == Low(a + b, w) == Low(a + Low(b, w), w)
    ensures Low(Low(a, w) - b, w) == Low(a - b, w) == Low(a - Low(b, w), w)
  {
    ModIdempotent(a, Pow2(w));
    ModIdempotent(b, Pow2(w));
    ModCongruent(Low(a, w), a, b, b, Pow2(w));
    ModCongruent(a, a, Low(b, w), b, Pow2(w));
  }

  /** Solving c == x + b and c == x - b for b modulo a power of two. */
  lemma LowSolve(c: nat, x: nat, b: nat, w: nat)
    requires c < Pow2(w) && b < Pow2(w)
    ensures c == Low(x + b, w) <==> Low(c - x, w) == b
    ensures c == Low(x - b, w) <==> Low(x - c, w) == b
  {
    hide Low, Pow2;
    LowSmall(c, w);
    LowSmall(b, w);
    LowSum(x + b, x, w);
    LowSum(x, c - x, w);
    LowSum(x, x - b, w);
    LowSum(x, x - c, w);
    assert x + b - x == b && x + (c - x) == c;
    assert x - (x - b) == b && x - (x - c) == c;
  }
}

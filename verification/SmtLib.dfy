/** The SMT-LIB 2 terms printed for expressions. SMT-LIB tells booleans from one-bit
    vectors; an expression of width one may be either, and the printer casts where the
    surrounding operator asks for the other. */
module SmtLib {
  import opened Bits
  import opened Exprs

  // ------------------------------------------------------------- terms and sorts

  datatype Sort = BoolSort | BitVecSort(width: nat) | IllSorted

  datatype Term =
    | TrueOrFalse(b: bool)
    | BitsLiteral(v: nat, w: nat)
    | Name(id: nat)
    | Ite(c: Term, t: Term, f: Term)
    | BoolNot(t: Term)
    | BoolGate(gate: Gate, l: Term, r: Term)
    | BvNot(t: Term)
    | Bv(op: BinaryOp, l: Term, r: Term)
    | BvCompare(cmp: CompareOp, l: Term, r: Term)
    | Equal(l: Term, r: Term)
    | Distinct(l: Term, r: Term)
    | BvConcat(l: Term, r: Term)
    | BvExtract(hi: nat, lo: nat, t: Term)
    | ZeroExtend(extra: nat, t: Term)
    | SignExtendBy(extra: nat, t: Term)
    | SelectFrom(a: ArrayTerm, index: Term)

  datatype ArrayTerm = ArrayName(root: Array) | Store(base: ArrayTerm, index: Term, value: Term)

  function RootOf(a: ArrayTerm): Array {
    match a
    case ArrayName(root) => root
    case Store(base, _, _) => RootOf(base)
  }

  /** The sort of a term where `names` are bound. */
  function SortOf(t: Term, names: map<nat, Sort>): Sort
    decreases t
  {
    match t
    case TrueOrFalse(_) => BoolSort
    case BitsLiteral(v, w) => if w > 0 && v < Pow2(w) then BitVecSort(w) else IllSorted
    case Name(id) => if id in names then names[id] else IllSorted
    case Ite(c, x, y) => if SortOf(c, names) == BoolSort && SortOf(x, names) == SortOf(y, names) then SortOf(x, names)
      else IllSorted
    case BoolNot(x) => if SortOf(x, names) == BoolSort then BoolSort else IllSorted
    case BoolGate(_, l, r) => if SortOf(l, names) == BoolSort == SortOf(r, names) then BoolSort else IllSorted
    case BvNot(x) => if SortOf(x, names).BitVecSort? then SortOf(x, names) else IllSorted
    case Bv(_, l, r) => if SortOf(l, names).BitVecSort? && SortOf(l, names) == SortOf(r, names) then SortOf(l, names)
      else IllSorted
    case BvCompare(cmp, l, r) =>
      if !cmp.Eq? && !cmp.Ne? && SortOf(l, names).BitVecSort? && SortOf(l, names) == SortOf(r, names) then BoolSort
        else IllSorted
    case Equal(l, r) => if SortOf(l, names) == SortOf(r, names) != IllSorted then BoolSort else IllSorted
    case Distinct(l, r) => if SortOf(l, names) == SortOf(r, names) != IllSorted then BoolSort else IllSorted
    case BvConcat(l, r) =>
      if SortOf(l, names).BitVecSort? && SortOf(r, names).BitVecSort?
      then BitVecSort(SortOf(l, names).width + SortOf(r, names).width) else IllSorted
    case BvExtract(hi, lo, x) =>
      if SortOf(x, names).BitVecSort? && lo <= hi < SortOf(x, names).width then BitVecSort(hi - lo + 1) else IllSorted
    case ZeroExtend(k, x) => if SortOf(x, names).BitVecSort? then BitVecSort(SortOf(x, names).width + k) else IllSorted
    case SignExtendBy(k, x) => if SortOf(x, names).BitVecSort? then BitVecSort(SortOf(x, names).width + k)
      else IllSorted
    case SelectFrom(a, i) =>
      if ArraySorted(a, names) && SortOf(i, names) == BitVecSort(RootOf(a).domain) then BitVecSort(RootOf(a).range)
        else IllSorted
  }

  predicate ArraySorted(a: ArrayTerm, names: map<nat, Sort>)
    decreases a
  {
    match a
    case ArrayName(root) => true
    case Store(base, i, v) =>
      && ArraySorted(base, names)
      && SortOf(i, names) == BitVecSort(RootOf(base).domain) && SortOf(v, names) == BitVecSort(RootOf(base).range)
  }

  // ---------------------------------------------------------------------- meaning

  datatype Value = Truth(b: bool) | Bits(v: nat, w: nat)

  function AsBool(x: Value): bool {
    x.Truth? && x.b
  }

  function AsBits(x: Value): nat {
    if x.Bits? then x.v else 0
  }

  function BitsWidth(x: Value): nat {
    if x.Bits? then x.w else 0
  }

  /** The theory of fixed-size bit vectors. It shifts arithmetically by any amount. */
  function TheoryBinary(op: BinaryOp, a: nat, b: nat, w: nat): nat {
    if op.AShr? then Low(Signed(a, w) / Pow2(b), w) else EvalBinary(op, a, b, w)
  }

  function TermValue(t: Term, env: Env, names: map<nat, Value>): Value
    decreases t
  {
    match t
    case TrueOrFalse(b) => Truth(b)
    case BitsLiteral(v, w) => Bits(v, w)
    case Name(id) => if id in names then names[id] else Truth(false)
    case Ite(c, x, y) => if AsBool(TermValue(c, env, names)) then TermValue(x, env, names) else TermValue(y, env, names)
    case BoolNot(x) => Truth(!AsBool(TermValue(x, env, names)))
    case BoolGate(g, l, r) =>
      Truth(GateBit(g, BoolValue(AsBool(TermValue(l, env, names))), BoolValue(AsBool(TermValue(r, env, names)))) == 1)
    case BvNot(x) => var a := TermValue(x, env, names); Bits(Low(-1 - AsBits(a), BitsWidth(a)), BitsWidth(a))
    case Bv(op, l, r) =>
      var a, b := TermValue(l, env, names), TermValue(r, env, names);
      Bits(TheoryBinary(op, AsBits(a), AsBits(b), BitsWidth(a)), BitsWidth(a))
    case BvCompare(cmp, l, r) =>
      var a, b := TermValue(l, env, names), TermValue(r, env, names);
      Truth(Relates(cmp, AsBits(a), AsBits(b), BitsWidth(a)))
    case Equal(l, r) => Truth(TermValue(l, env, names) == TermValue(r, env, names))
    case Distinct(l, r) => Truth(TermValue(l, env, names) != TermValue(r, env, names))
    case BvConcat(l, r) =>
      var a, b := TermValue(l, env, names), TermValue(r, env, names);
      Bits(Join(AsBits(a), AsBits(b), BitsWidth(b)), BitsWidth(a) + BitsWidth(b))
    case BvExtract(hi, lo, x) =>
      var n: nat := if lo <= hi then hi - lo + 1 else 0;
      Bits(Field(AsBits(TermValue(x, env, names)), lo, n), n)
    case ZeroExtend(k, x) => var a := TermValue(x, env, names); Bits(AsBits(a), BitsWidth(a) + k)
    case SignExtendBy(k, x) =>
      var a := TermValue(x, env, names);
      Bits(SignExtend(AsBits(a), BitsWidth(a), BitsWidth(a) + k), BitsWidth(a) + k)
    case SelectFrom(a, i) => Bits(ArrayValue(a, AsBits(TermValue(i, env, names)), env, names), RootOf(a).range)
  }

  function ArrayValue(a: ArrayTerm, i: nat, env: Env, names: map<nat, Value>): nat
    decreases a
  {
    match a
    case ArrayName(root) => Cell(root, i, env)
    case Store(base, index, value) =>
      if AsBits(TermValue(index, env, names)) == i then AsBits(TermValue(value, env, names))
        else ArrayValue(base, i, env, names)
  }

  // --------------------------------------------------------------------- printing

  datatype Kind = BoolKind | BitVecKind

  /** `getSort` */
  function GetSort(e: Expr): Kind {
    match e
    case NotOptimized(x) => GetSort(x)
    case Compare(_, _, _) => BoolKind
    case Constant(_, w) => if w == Bool then BoolKind else BitVecKind
    case Not(x) => if Width(x) == Bool then BoolKind else BitVecKind
    case Binary(op, l, _) => if (op.And? || op.Or? || op.Xor?) && Width(l) == Bool then BoolKind else BitVecKind
    case _ => BitVecKind
  }

  function GateOf(op: BinaryOp): Gate {
    if op.And? then AndGate else if op.Or? then OrGate else XorGate
  }

  /** `printExpression` at an expected sort, with abbreviations for the bound expressions. */
  function Print(e: Expr, kind: Kind, bindings: map<Expr, nat>): Term
    decreases e, if GetSort(e) == kind then 1 else 2
  {
    if GetSort(e) != kind then
      if kind.BitVecKind? then Ite(Print(e, BoolKind, bindings), BitsLiteral(1, 1), BitsLiteral(0, 1))
      else BvCompare(Ugt, Print(e, BitVecKind, bindings), BitsLiteral(0, Width(e)))
    else if e in bindings then Name(bindings[e])
    else PrintFull(e, kind, bindings)
  }

  /** `printFullExpression` */
  function PrintFull(e: Expr, kind: Kind, bindings: map<Expr, nat>): Term
    decreases e, 0
  {
    match e
    case Constant(v, w) => if w == Bool then TrueOrFalse(v == 1) else BitsLiteral(v, w)
    case NotOptimized(x) => Print(x, kind, bindings)
    case Read(a, u, i) => SelectFrom(PrintArray(a, u, bindings), Print(i, BitVecKind, bindings))
    case Extract(x, off, w) => BvExtract(if off + w > 0 then off + w - 1 else 0, off, Print(x, BitVecKind, bindings))
    case ZExt(x, w) => ZeroExtend(if w >= Width(x) then w - Width(x) else 0, Print(x, BitVecKind, bindings))
    case SExt(x, w) => SignExtendBy(if w >= Width(x) then w - Width(x) else 0, Print(x, BitVecKind, bindings))
    case Select(c, t, f) => Ite(Print(c, BoolKind, bindings), Print(t, kind, bindings), Print(f, kind, bindings))
    case Concat(l, r) => BvConcat(Print(l, BitVecKind, bindings), Print(r, BitVecKind, bindings))
    case Not(x) => if kind.BitVecKind? then BvNot(Print(x, kind, bindings)) else BoolNot(Print(x, kind, bindings))
    case Binary(op, l, r) =>
      if op.And? || op.Or? || op.Xor? then
        if kind.BitVecKind? then Bv(op, Print(l, kind, bindings), Print(r, kind, bindings))
        else BoolGate(GateOf(op), Print(l, kind, bindings), Print(r, kind, bindings))
      else if op.AShr? then
        Ite(BvCompare(Uge, Print(r, BitVecKind, bindings), BitsLiteral(Width(l), Width(l))), BitsLiteral(0, Width(l)),
            Bv(AShr, Print(l, BitVecKind, bindings), Print(r, BitVecKind, bindings)))
      else Bv(op, Print(l, BitVecKind, bindings), Print(r, BitVecKind, bindings))
    case Compare(cmp, l, r) =>
      if cmp.Eq? then Equal(Print(l, GetSort(l), bindings), Print(r, GetSort(l), bindings))
      else if cmp.Ne? then Distinct(Print(l, GetSort(l), bindings), Print(r, GetSort(l), bindings))
      else BvCompare(cmp, Print(l, BitVecKind, bindings), Print(r, BitVecKind, bindings))
  }

  /** `printUpdatesAndArray` */
  function PrintArray(a: Array, u: Updates, bindings: map<Expr, nat>): (t: ArrayTerm)
    ensures RootOf(t) == a
    decreases u, 0
  {
    match u
    case Empty => ArrayName(a)
    case Update(i, v, next) =>
      Store(PrintArray(a, next, bindings), Print(i, BitVecKind, bindings), Print(v, BitVecKind, bindings))
  }

  // ---------------------------------------------------------------- well-sortedness

  function SortFor(e: Expr, kind: Kind): Sort {
    if kind.BoolKind? then BoolSort else BitVecSort(Width(e))
  }

  /** A boolean is expected only of an expression of width one. */
  predicate Expectable(e: Expr, kind: Kind) {
    kind.BoolKind? ==> Width(e) == Bool
  }

  lemma {:induction false} SortWidth(e: Expr)
    ensures GetSort(e).BoolKind? ==> Width(e) == Bool
  {
    if e.NotOptimized? {
      SortWidth(e.src);
    }
  }

  ghost predicate SortsAgree(bindings: map<Expr, nat>, names: map<nat, Sort>) {
    forall e :: e in bindings ==> bindings[e] in names && names[bindings[e]] == SortFor(e, GetSort(e))
  }

  lemma {:induction false} PrintSorted(e: Expr, kind: Kind, bindings: map<Expr, nat>, names: map<nat, Sort>)
    requires WF(e) && Expectable(e, kind) && SortsAgree(bindings, names)
    ensures SortOf(Print(e, kind, bindings), names) == SortFor(e, kind)
    decreases e, if GetSort(e) == kind then 1 else 2
  {
    hide Pow2;
    SortWidth(e);
    if GetSort(e) != kind {
      Pow2One();
      WidthPositive(e);
      if kind.BitVecKind? {
        PrintSorted(e, BoolKind, bindings, names);
      } else {
        PrintSorted(e, BitVecKind, bindings, names);
      }
    } else if e !in bindings {
      FullSorted(e, bindings, names);
    }
  }

  lemma {:induction false} FullSorted(e: Expr, bindings: map<Expr, nat>, names: map<nat, Sort>)
    requires WF(e) && SortsAgree(bindings, names)
    ensures SortOf(PrintFull(e, GetSort(e), bindings), names) == SortFor(e, GetSort(e))
    decreases e, 0
  {
    hide Pow2, Print, PrintFull, SortOf;
    match e
    case Constant(v, w) => SimpleSorted(e, bindings, names);
    case NotOptimized(x) =>
      SortWidth(x);
      PrintSorted(x, GetSort(x), bindings, names);
      SimpleSorted(e, bindings, names);
    case Read(a, u, i) =>
      PrintSorted(i, BitVecKind, bindings, names);
      ArrayIsSorted(a, u, bindings, names);
      SimpleSorted(e, bindings, names);
    case Select(c, t, f) =>
      PrintSorted(c, BoolKind, bindings, names);
      PrintSorted(t, BitVecKind, bindings, names);
      PrintSorted(f, BitVecKind, bindings, names);
      SimpleSorted(e, bindings, names);
    case Concat(l, r) =>
      PrintSorted(l, BitVecKind, bindings, names);
      PrintSorted(r, BitVecKind, bindings, names);
      SimpleSorted(e, bindings, names);
    case Extract(x, off, w) =>
      PrintSorted(x, BitVecKind, bindings, names);
      SimpleSorted(e, bindings, names);
    case ZExt(x, w) =>
      PrintSorted(x, BitVecKind, bindings, names);
      SimpleSorted(e, bindings, names);
    case SExt(x, w) =>
      PrintSorted(x, BitVecKind, bindings, names);
      SimpleSorted(e, bindings, names);
    case Not(x) =>
      PrintSorted(x, GetSort(e), bindings, names);
      SimpleSorted(e, bindings, names);
    case Binary(op, l, r) =>
      PrintSorted(l, GetSort(e), bindings, names);
      PrintSorted(r, GetSort(e), bindings, names);
      BinarySorted(op, l, r, bindings, names);
    case Compare(cmp, l, r) =>
      SortWidth(l);
      var kind := if cmp.Eq? || cmp.Ne? then GetSort(l) else BitVecKind;
      PrintSorted(l, kind, bindings, names);
      PrintSorted(r, kind, bindings, names);
      CompareSorted(cmp, l, r, bindings, names);
  }

  /** Nodes other than binary operators and comparisons, given their kids' sorts. */
  lemma SimpleSorted(e: Expr, bindings: map<Expr, nat>, names: map<nat, Sort>)
    requires WF(e) && !e.Binary? && !e.Compare?
    requires e.NotOptimized? ==> SortOf(Print(e.src, GetSort(e), bindings), names) == SortFor(e.src, GetSort(e))
    requires e.Extract? ==> SortOf(Print(e.expr, BitVecKind, bindings), names) == BitVecSort(Width(e.expr))
    requires e.ZExt? || e.SExt? ==> SortOf(Print(e.narrow, BitVecKind, bindings), names) == BitVecSort(Width(e.narrow))
    requires e.Not? ==> SortOf(Print(e.expr, GetSort(e), bindings), names) == SortFor(e.expr, GetSort(e))
    requires e.Concat? ==> SortOf(Print(e.high, BitVecKind, bindings), names) == BitVecSort(Width(e.high))
    requires e.Concat? ==> SortOf(Print(e.low, BitVecKind, bindings), names) == BitVecSort(Width(e.low))
    requires e.Select? ==> SortOf(Print(e.cond, BoolKind, bindings), names) == BoolSort
    requires e.Select? ==> SortOf(Print(e.trueExpr, BitVecKind, bindings), names) == BitVecSort(Width(e.trueExpr))
    requires e.Select? ==> SortOf(Print(e.falseExpr, BitVecKind, bindings), names) == BitVecSort(Width(e.falseExpr))
    requires e.Read? ==> SortOf(Print(e.index, BitVecKind, bindings), names) == BitVecSort(Width(e.index))
    requires e.Read? ==> ArraySorted(PrintArray(e.root, e.updates, bindings), names)
    ensures SortOf(PrintFull(e, GetSort(e), bindings), names) == SortFor(e, GetSort(e))
  {
    hide Pow2, Print, PrintArray, ArraySorted;
  }

  lemma BinarySorted(op: BinaryOp, l: Expr, r: Expr, bindings: map<Expr, nat>, names: map<nat, Sort>)
    requires var e := Binary(op, l, r);
             && WF(e)
             && SortOf(Print(l, GetSort(e), bindings), names) == SortFor(l, GetSort(e))
             && SortOf(Print(r, GetSort(e), bindings), names) == SortFor(r, GetSort(e))
    ensures var e := Binary(op, l, r);
            SortOf(PrintFull(e, GetSort(e), bindings), names) == SortFor(e, GetSort(e))
  {
    hide Pow2, Print;
    WidthPositive(l);
    Pow2Exceeds(Width(l));
    assert SortOf(BitsLiteral(Width(l), Width(l)), names) == BitVecSort(Width(l))
      == SortOf(BitsLiteral(0, Width(l)), names);
  }

  lemma CompareSorted(cmp: CompareOp, l: Expr, r: Expr, bindings: map<Expr, nat>, names: map<nat, Sort>)
    requires WF(l) && WF(r) && Width(l) == Width(r)
    requires var kind := if cmp.Eq? || cmp.Ne? then GetSort(l) else BitVecKind;
             && SortOf(Print(l, kind, bindings), names) == SortFor(l, kind)
             && SortOf(Print(r, kind, bindings), names) == SortFor(r, kind)
    ensures SortOf(PrintFull(Compare(cmp, l, r), BoolKind, bindings), names) == BoolSort
  {
    hide Pow2, Print;
  }

  lemma {:induction false} ArrayIsSorted(a: Array, u: Updates, bindings: map<Expr, nat>, names: map<nat, Sort>)
    requires a.Valid() && WFUpdates(u, a) && SortsAgree(bindings, names)
    ensures ArraySorted(PrintArray(a, u, bindings), names)
    decreases u, 0
  {
    hide Pow2;
    if u.Update? {
      PrintSorted(u.index, BitVecKind, bindings, names);
      PrintSorted(u.value, BitVecKind, bindings, names);
      ArrayIsSorted(a, u.next, bindings, names);
    }
  }

  // ------------------------------------------------------------ meaning is preserved

  function ValueFor(e: Expr, kind: Kind, env: Env): Value {
    if kind.BoolKind? then Truth(Eval(e, env) == 1) else Bits(Eval(e, env), Width(e))
  }

  ghost predicate ValuesAgree(bindings: map<Expr, nat>, names: map<nat, Value>, env: Env) {
    forall e :: e in bindings ==> bindings[e] in names && names[bindings[e]] == ValueFor(e, GetSort(e), env)
  }

  /** The term printed for an expression has the value of the expression. */
  lemma {:induction false} PrintMeaning(e: Expr, kind: Kind, bindings: map<Expr, nat>, names: map<nat, Value>, env: Env)
    requires WF(e) && Expectable(e, kind) && ValuesAgree(bindings, names, env)
    ensures TermValue(Print(e, kind, bindings), env, names) == ValueFor(e, kind, env)
    decreases e, if GetSort(e) == kind then 1 else 2
  {
    hide Eval, WF, Pow2, PrintFull;
    SortWidth(e);
    if GetSort(e) != kind {
      ConditionValue(e, env);
      if kind.BitVecKind? {
        PrintMeaning(e, BoolKind, bindings, names, env);
      } else {
        PrintMeaning(e, BitVecKind, bindings, names, env);
      }
    } else if e !in bindings {
      FullMeaning(e, bindings, names, env);
    }
  }

  lemma {:induction false} FullMeaning(e: Expr, bindings: map<Expr, nat>, names: map<nat, Value>, env: Env)
    requires WF(e) && ValuesAgree(bindings, names, env)
    ensures TermValue(PrintFull(e, GetSort(e), bindings), env, names) == ValueFor(e, GetSort(e), env)
    decreases e, 0
  {
    hide Pow2, TermValue, PrintFull, Print, Eval;
    match e
    case Constant(v, w) => LeafMeaning(e, bindings, names, env);
    case NotOptimized(x) =>
      SortWidth(x);
      PrintMeaning(x, GetSort(x), bindings, names, env);
      UnaryMeaning(e, x, bindings, names, env);
    case Read(a, u, i) =>
      PrintMeaning(i, BitVecKind, bindings, names, env);
      ArrayMeaning(a, u, Eval(i, env), bindings, names, env);
      ReadTermMeaning(e, bindings, names, env);
    case Select(c, t, f) =>
      PrintMeaning(c, BoolKind, bindings, names, env);
      PrintMeaning(t, BitVecKind, bindings, names, env);
      PrintMeaning(f, BitVecKind, bindings, names, env);
      SelectTermMeaning(e, bindings, names, env);
    case Concat(l, r) =>
      PrintMeaning(l, BitVecKind, bindings, names, env);
      PrintMeaning(r, BitVecKind, bindings, names, env);
      ConcatTermMeaning(e, bindings, names, env);
    case Extract(x, off, w) =>
      PrintMeaning(x, BitVecKind, bindings, names, env);
      UnaryMeaning(e, x, bindings, names, env);
    case ZExt(x, w) =>
      PrintMeaning(x, BitVecKind, bindings, names, env);
      UnaryMeaning(e, x, bindings, names, env);
    case SExt(x, w) =>
      PrintMeaning(x, BitVecKind, bindings, names, env);
      UnaryMeaning(e, x, bindings, names, env);
    case Not(x) =>
      PrintMeaning(x, GetSort(e), bindings, names, env);
      UnaryMeaning(e, x, bindings, names, env);
    case Binary(op, l, r) =>
      PrintMeaning(l, GetSort(e), bindings, names, env);
      PrintMeaning(r, GetSort(e), bindings, names, env);
      BinaryMeaning(op, l, r, bindings, names, env);
    case Compare(cmp, l, r) =>
      SortWidth(l);
      var kind := if cmp.Eq? || cmp.Ne? then GetSort(l) else BitVecKind;
      PrintMeaning(l, kind, bindings, names, env);
      PrintMeaning(r, kind, bindings, names, env);
      ComparisonMeaning(cmp, l, r, bindings, names, env);
  }

  lemma LeafMeaning(e: Expr, bindings: map<Expr, nat>, names: map<nat, Value>, env: Env)
    requires WF(e) && e.Constant?
    ensures TermValue(PrintFull(e, GetSort(e), bindings), env, names) == ValueFor(e, GetSort(e), env)
  {
    Pow2One();
  }

  lemma UnaryMeaning(e: Expr, x: Expr, bindings: map<Expr, nat>, names: map<nat, Value>, env: Env)
    requires WF(e)
    requires (e.NotOptimized? && x == e.src) || (e.Extract? && x == e.expr) || (e.ZExt? && x == e.narrow)
      || (e.SExt? && x == e.narrow)
             || (e.Not? && x == e.expr)
    requires TermValue(Print(x, GetSort(e), bindings), env, names) == ValueFor(x, GetSort(e), env)
    ensures TermValue(PrintFull(e, GetSort(e), bindings), env, names) == ValueFor(e, GetSort(e), env)
  {
    hide Pow2, Low, Field, SignExtend, Print;
    if e.Not? && Width(x) == Bool {
      NotBit(x, env);
    }
  }

  lemma ReadTermMeaning(e: Expr, bindings: map<Expr, nat>, names: map<nat, Value>, env: Env)
    requires WF(e) && e.Read?
    requires TermValue(Print(e.index, BitVecKind, bindings), env, names) == ValueFor(e.index, BitVecKind, env)
    requires ArrayValue(PrintArray(e.root, e.updates, bindings), Eval(e.index, env), env, names)
             == EvalRead(e.root, e.updates, Eval(e.index, env), env)
    ensures TermValue(PrintFull(e, GetSort(e), bindings), env, names) == ValueFor(e, GetSort(e), env)
  {
    hide Pow2, Print, ArrayValue, EvalRead, PrintArray;
  }

  lemma SelectTermMeaning(e: Expr, bindings: map<Expr, nat>, names: map<nat, Value>, env: Env)
    requires WF(e) && e.Select?
    requires TermValue(Print(e.cond, BoolKind, bindings), env, names) == ValueFor(e.cond, BoolKind, env)
    requires TermValue(Print(e.trueExpr, BitVecKind, bindings), env, names) == ValueFor(e.trueExpr, BitVecKind, env)
    requires TermValue(Print(e.falseExpr, BitVecKind, bindings), env, names) == ValueFor(e.falseExpr, BitVecKind, env)
    ensures TermValue(PrintFull(e, GetSort(e), bindings), env, names) == ValueFor(e, GetSort(e), env)
  {
    hide Pow2, Print;
  }

  lemma ConcatTermMeaning(e: Expr, bindings: map<Expr, nat>, names: map<nat, Value>, env: Env)
    requires WF(e) && e.Concat?
    requires TermValue(Print(e.high, BitVecKind, bindings), env, names) == ValueFor(e.high, BitVecKind, env)
    requires TermValue(Print(e.low, BitVecKind, bindings), env, names) == ValueFor(e.low, BitVecKind, env)
    ensures TermValue(PrintFull(e, GetSort(e), bindings), env, names) == ValueFor(e, GetSort(e), env)
  {
    hide Pow2, Print, Join;
  }

  lemma BinaryMeaning(op: BinaryOp, l: Expr, r: Expr, bindings: map<Expr, nat>, names: map<nat, Value>, env: Env)
    requires var e := Binary(op, l, r);
             && WF(e)
             && TermValue(Print(l, GetSort(e), bindings), env, names) == ValueFor(l, GetSort(e), env)
             && TermValue(Print(r, GetSort(e), bindings), env, names) == ValueFor(r, GetSort(e), env)
    ensures var e := Binary(op, l, r);
            TermValue(PrintFull(e, GetSort(e), bindings), env, names) == ValueFor(e, GetSort(e), env)
  {
    hide Pow2, EvalBinary, Relates, Print, Width, WF;
    var e := Binary(op, l, r);
    BinaryParts(op, l, r, env);
    if op.AShr? {
      ShiftGuard(Eval(l, env), Eval(r, env), Width(l));
      GuardMeaning(Print(l, BitVecKind, bindings), Print(r, BitVecKind, bindings), Width(l), names, env);
    } else if op.And? || op.Or? || op.Xor? {
      GateMeaning(op, l, r, env);
    }
  }

  lemma GuardMeaning(l: Term, r: Term, w: nat, names: map<nat, Value>, env: Env)
    ensures var shift := Ite(BvCompare(Uge, r, BitsLiteral(w, w)), BitsLiteral(0, w), Bv(AShr, l, r));
            TermValue(shift, env, names) ==
              if Relates(Uge, AsBits(TermValue(r, env, names)), w, BitsWidth(TermValue(r, env, names))) then Bits(0, w)
              else TermValue(Bv(AShr, l, r), env, names)
  {
    hide Relates;
    assert TermValue(BitsLiteral(w, w), env, names) == Bits(w, w);
    assert TermValue(BvCompare(Uge, r, BitsLiteral(w, w)), env, names)
        == Truth(Relates(Uge, AsBits(TermValue(r, env, names)), w, BitsWidth(TermValue(r, env, names))));
  }

  lemma BinaryParts(op: BinaryOp, l: Expr, r: Expr, env: Env)
    requires WF(Binary(op, l, r))
    ensures WF(l) && WF(r) && Width(l) == Width(r) == Width(Binary(op, l, r)) && Width(l) > 0
    ensures Eval(Binary(op, l, r), env) == EvalBinary(op, Eval(l, env), Eval(r, env), Width(l))
  {
    hide EvalBinary;
    WidthPositive(l);
  }

  lemma ComparisonMeaning(cmp: CompareOp, l: Expr, r: Expr, bindings: map<Expr, nat>, names: map<nat, Value>, env: Env)
    requires WF(l) && WF(r) && Width(l) == Width(r)
    requires var kind := if cmp.Eq? || cmp.Ne? then GetSort(l) else BitVecKind;
             && TermValue(Print(l, kind, bindings), env, names) == ValueFor(l, kind, env)
             && TermValue(Print(r, kind, bindings), env, names) == ValueFor(r, kind, env)
    ensures TermValue(PrintFull(Compare(cmp, l, r), BoolKind, bindings), env, names)
      == ValueFor(Compare(cmp, l, r), BoolKind, env)
  {
    hide Pow2, EvalBinary, Relates, Print, Width, WF, Eval;
    SortWidth(l);
    EqualMeaning(cmp, l, r, if cmp.Eq? || cmp.Ne? then GetSort(l) else BitVecKind, env);
  }

  lemma {:induction false} ArrayMeaning(a: Array, u: Updates, i: nat, bindings: map<Expr, nat>, names: map<nat, Value>,
                                        env: Env)
    requires a.Valid() && WFUpdates(u, a) && ValuesAgree(bindings, names, env)
    ensures ArrayValue(PrintArray(a, u, bindings), i, env, names) == EvalRead(a, u, i, env)
    decreases u, 0
  {
    hide Pow2, Cell, Print, TermValue, Eval;
    if u.Update? {
      PrintMeaning(u.index, BitVecKind, bindings, names, env);
      PrintMeaning(u.value, BitVecKind, bindings, names, env);
      ArrayMeaning(a, u.next, i, bindings, names, env);
    }
  }

  lemma NotBit(x: Expr, env: Env)
    requires IsCondition(x)
    ensures Eval(Not(x), env) == 1 <==> Eval(x, env) != 1
  {
    hide WF, Pow2;
    Pow2One();
    ConditionValue(x, env);
    assert Low(-1, 1) == 1 && Low(-2, 1) == 0;
  }

  /** The guard gives the shift by the width or more its value. */
  lemma ShiftGuard(a: nat, b: nat, w: nat)
    requires w > 0
    ensures EvalBinary(AShr, a, b, w) == if Relates(Uge, b, w, w) then 0 else TheoryBinary(AShr, a, b, w)
  {
    hide Low, Signed, Pow2;
  }

  lemma GateMeaning(op: BinaryOp, l: Expr, r: Expr, env: Env)
    requires op.And? || op.Or? || op.Xor?
    requires WF(l) && WF(r) && Width(l) == Width(r)
    ensures Eval(Binary(op, l, r), env) == TheoryBinary(op, Eval(l, env), Eval(r, env), Width(l))
    ensures Width(l) == Bool ==> (Eval(Binary(op, l, r), env) == 1 <==>
      GateBit(GateOf(op), BoolValue(Eval(l, env) == 1), BoolValue(Eval(r, env) == 1)) == 1)
  {
    hide Bitwise, Pow2, WF;
    if Width(l) == Bool {
      ConditionValue(l, env);
      ConditionValue(r, env);
      BitwiseBool(GateOf(op), Eval(l, env), Eval(r, env));
    }
  }

  lemma EqualMeaning(cmp: CompareOp, l: Expr, r: Expr, kind: Kind, env: Env)
    requires WF(l) && WF(r) && Width(l) == Width(r) && Expectable(l, kind)
    ensures (Eval(Compare(Eq, l, r), env) == 1) <==> ValueFor(l, kind, env) == ValueFor(r, kind, env)
    ensures (Eval(Compare(Ne, l, r), env) == 1) <==> ValueFor(l, kind, env) != ValueFor(r, kind, env)
    ensures (Eval(Compare(cmp, l, r), env) == 1) <==> Relates(cmp, Eval(l, env), Eval(r, env), Width(l))
  {
    if kind.BoolKind? {
      ConditionValue(l, env);
      ConditionValue(r, env);
    }
  }
}

/** A memory object whose bytes live in up to three places: a concrete store,
    a slot for a known symbolic expression, and a log of array writes that is
    built lazily. Two masks say which copy counts. */
module Memory {
  import opened Bits
  import opened Exprs
  import opened Create
  import opened CreateMeaning
  import opened FoldedForm
  import opened MemoryLog

  /** A byte expression. */
  predicate IsByte(e: Expr) {
    WF(e) && Width(e) == Int8
  }

  class ObjectState {
    const size: nat
    const concreteStore: array<Byte>
    var copyOnWriteOwner: nat
    var readOnly: bool
    /** Absent: every byte is concrete. */
    var concreteMask: Option<seq<bool>>
    /** Absent: no byte is flushed; otherwise a set bit marks a byte still to flush. */
    var flushMask: Option<seq<bool>>
    var knownSymbolics: Option<seq<Option<Expr>>>
    /** Absent until a symbolic access needs the constant initial contents. */
    var root: Option<Array>
    var head: Updates

    ghost predicate Shape()
      reads this`concreteMask, this`flushMask, this`knownSymbolics
    {
      && concreteStore.Length == size < 0x1_0000_0000
      && (concreteMask.Some? ==> |concreteMask.value| == size)
      && (flushMask.Some? ==> |flushMask.value| == size)
      && (knownSymbolics.Some? ==> |knownSymbolics.value| == size)
    }

    predicate IsByteConcrete(i: nat)
      requires Shape() && i < size
      reads this`concreteMask, this`flushMask, this`knownSymbolics
    {
      concreteMask.None? || concreteMask.value[i]
    }

    predicate IsByteFlushed(i: nat)
      requires Shape() && i < size
      reads this`concreteMask, this`flushMask, this`knownSymbolics
    {
      flushMask.Some? && !flushMask.value[i]
    }

    predicate IsByteKnownSymbolic(i: nat)
      requires Shape() && i < size
      reads this`concreteMask, this`flushMask, this`knownSymbolics
    {
      knownSymbolics.Some? && knownSymbolics.value[i].Some?
    }

    /** The cache invariants: a known symbolic byte is not concrete, and a byte
        that is not flushed has a cached value. */
    ghost predicate CacheInvariants()
      requires Shape()
      reads this`concreteMask, this`flushMask, this`knownSymbolics
    {
      forall i :: 0 <= i < size ==>
        && (IsByteKnownSymbolic(i) ==> !IsByteConcrete(i) && IsByte(knownSymbolics.value[i].value))
        && (!IsByteFlushed(i) ==> IsByteConcrete(i) || IsByteKnownSymbolic(i))
    }

    /** The cached copy of a byte, for bytes that have one. */
    ghost function Cached(i: nat, env: Env): nat
      requires Shape() && i < size && (IsByteConcrete(i) || IsByteKnownSymbolic(i))
      reads this`concreteMask, this`flushMask, this`knownSymbolics, concreteStore
    {
      if IsByteConcrete(i) then concreteStore[i] else Eval(knownSymbolics.value[i].value, env)
    }

    ghost predicate Valid()
      reads this`concreteMask, this`flushMask, this`knownSymbolics, this`root, this`head, concreteStore
      ensures Valid() ==> Shape()
    {
      && Shape()
      && CacheInvariants()
      && GoodLog(root, size, head)
      // a flushed byte with a cached copy reads the same from the log
      && forall i, env: Env {:trigger LogByte(root, size, head, i, env)} ::
           0 <= i < size && IsByteFlushed(i) && (IsByteConcrete(i) || IsByteKnownSymbolic(i)) ==>
             LogByte(root, size, head, i, env) == Cached(i, env)
    }

    /** The value of byte i: the plain array of bytes this object stands for. */
    ghost function ByteAt(i: nat, env: Env): nat
      requires Shape() && i < size
      reads this`concreteMask, this`flushMask, this`knownSymbolics, this`root, this`head, concreteStore
    {
      if IsByteConcrete(i) || IsByteKnownSymbolic(i) then Cached(i, env)
      else LogByte(root, size, head, i, env)
    }

    ghost function Contents(env: Env): (s: seq<nat>)
      requires Shape()
      reads this`concreteMask, this`flushMask, this`knownSymbolics, this`root, this`head, concreteStore
      ensures |s| == size
      ensures forall i :: 0 <= i < size ==> s[i] == ByteAt(i, env)
    {
      FirstBytes(size, env)
    }

    ghost function FirstBytes(n: nat, env: Env): (s: seq<nat>)
      requires Shape() && n <= size
      reads this`concreteMask, this`flushMask, this`knownSymbolics, this`root, this`head, concreteStore
      ensures |s| == n
      ensures forall i :: 0 <= i < n ==> s[i] == ByteAt(i, env)
      decreases n
    {
      if n == 0 then [] else FirstBytes(n - 1, env) + [ByteAt(n - 1, env)]
    }

    // ---------------------------------------------------------- construction

    /** Concrete, all zero. The root is absent when constant arrays are in use
        and otherwise a fresh array. */
    constructor Concrete(size: nat, root: Option<Array>)
      requires size < 0x1_0000_0000 && (root.Some? ==> ByteArray(root.value))
      ensures Valid() && this.size == size && fresh(concreteStore)
      ensures copyOnWriteOwner == 0 && !readOnly
      ensures forall env :: Contents(env) == seq(size, _ => 0)
    {
      this.size := size;
      concreteStore := new Byte[size](_ => 0);
      copyOnWriteOwner := 0;
      readOnly := false;
      concreteMask := None;
      flushMask := None;
      knownSymbolics := None;
      this.root := root;
      head := Empty;
    }

    /** Symbolic: byte i is cell i of the array. */
    constructor Symbolic(size: nat, a: Array)
      requires size < 0x1_0000_0000 && ByteArray(a)
      ensures Valid() && this.size == size && fresh(concreteStore)
      ensures copyOnWriteOwner == 0 && !readOnly
      ensures forall env, i :: 0 <= i < size ==> Contents(env)[i] == Cell(a, i, env)
    {
      this.size := size;
      concreteStore := new Byte[size](_ => 0);
      copyOnWriteOwner := 0;
      readOnly := false;
      concreteMask := None;
      flushMask := None;
      knownSymbolics := None;
      root := Some(a);
      head := Empty;
      new;
      MakeSymbolic();
    }

    constructor Copy(os: ObjectState)
      requires os.Valid() && !os.readOnly
      ensures Valid() && size == os.size && fresh(concreteStore)
      ensures copyOnWriteOwner == 0 && !readOnly
      ensures forall env :: Contents(env) == os.Contents(env)
    {
      size := os.size;
      var from := os.concreteStore;
      concreteStore := new Byte[os.size](i requires 0 <= i < from.Length reads from => from[i]);
      copyOnWriteOwner := 0;
      readOnly := false;
      concreteMask := os.concreteMask;
      flushMask := os.flushMask;
      knownSymbolics := os.knownSymbolics;
      root := os.root;
      head := os.head;
      new;
      assert GoodLog(root, size, head);
      assert forall i :: 0 <= i < size ==> concreteStore[i] == os.concreteStore[i];
      assert forall i :: 0 <= i < size ==>
        && IsByteConcrete(i) == os.IsByteConcrete(i) && IsByteFlushed(i) == os.IsByteFlushed(i)
        && IsByteKnownSymbolic(i) == os.IsByteKnownSymbolic(i);
      assert forall i, env: Env :: 0 <= i < size ==> ByteAt(i, env) == os.ByteAt(i, env);
    }

    // ------------------------------------------------------------ mask helpers

    method MarkByteSymbolic(i: nat)
      requires Shape() && i < size
      modifies this`concreteMask
      ensures Shape() && concreteMask.Some?
      ensures forall j :: 0 <= j < size ==> IsByteConcrete(j) == (j != i && old(IsByteConcrete(j)))
      ensures forall j :: 0 <= j < size ==>
        (IsByteKnownSymbolic(j) == old(IsByteKnownSymbolic(j))) && (IsByteFlushed(j) == old(IsByteFlushed(j)))
    {
      if concreteMask.None? {
        concreteMask := Some(seq(size, _ => true));
      }
      concreteMask := Some(concreteMask.value[i := false]);
    }

    method MarkByteConcrete(i: nat)
      requires Shape() && i < size
      modifies this`concreteMask
      ensures Shape()
      ensures forall j :: 0 <= j < size ==> IsByteConcrete(j) == (j == i || old(IsByteConcrete(j)))
      ensures forall j :: 0 <= j < size ==>
        (IsByteKnownSymbolic(j) == old(IsByteKnownSymbolic(j))) && (IsByteFlushed(j) == old(IsByteFlushed(j)))
    {
      if concreteMask.Some? {
        concreteMask := Some(concreteMask.value[i := true]);
      }
    }

    method MarkByteUnflushed(i: nat)
      requires Shape() && i < size
      modifies this`flushMask
      ensures Shape()
      ensures forall j :: 0 <= j < size ==> IsByteFlushed(j) == (j != i && old(IsByteFlushed(j)))
      ensures forall j :: 0 <= j < size ==>
        (IsByteKnownSymbolic(j) == old(IsByteKnownSymbolic(j))) && (IsByteConcrete(j) == old(IsByteConcrete(j)))
    {
      if flushMask.Some? {
        flushMask := Some(flushMask.value[i := true]);
      }
    }

    /** The first call marks every byte, so it is only used on all of them. */
    method MarkByteFlushed(i: nat)
      requires Shape() && i < size
      modifies this`flushMask
      ensures Shape() && flushMask.Some?
      ensures forall j :: 0 <= j < size ==>
                IsByteFlushed(j) == (j == i || old(flushMask).None? || old(IsByteFlushed(j)))
      ensures forall j :: 0 <= j < size ==>
        (IsByteKnownSymbolic(j) == old(IsByteKnownSymbolic(j))) && (IsByteConcrete(j) == old(IsByteConcrete(j)))
    {
      if flushMask.None? {
        flushMask := Some(seq(size, _ => false));
      } else {
        flushMask := Some(flushMask.value[i := false]);
      }
    }

    method SetKnownSymbolic(i: nat, value: Option<Expr>)
      requires Shape() && i < size
      modifies this`knownSymbolics
      ensures Shape()
      ensures forall j :: 0 <= j < size ==>
                IsByteKnownSymbolic(j) == (if j == i then value.Some? else old(IsByteKnownSymbolic(j)))
      ensures value.Some? ==> knownSymbolics.Some? && knownSymbolics.value[i] == value
      ensures forall j :: 0 <= j < size && j != i && old(IsByteKnownSymbolic(j)) ==>
                knownSymbolics.Some? && knownSymbolics.value[j] == old(knownSymbolics.value[j])
      ensures forall j :: 0 <= j < size ==>
        (IsByteConcrete(j) == old(IsByteConcrete(j))) && (IsByteFlushed(j) == old(IsByteFlushed(j)))
    {
      if knownSymbolics.Some? {
        knownSymbolics := Some(knownSymbolics.value[i := value]);
      } else if value.Some? {
        knownSymbolics := Some(seq(size, _ => None)[i := value]);
      }
    }

    method MakeConcrete()
      requires Shape() && GoodLog(root, size, head)
      modifies this`concreteMask, this`flushMask, this`knownSymbolics
      ensures Valid() && concreteMask.None? && flushMask.None? && knownSymbolics.None?
      ensures forall env :: Contents(env) == concreteStore[..]
    {
      concreteMask := None;
      flushMask := None;
      knownSymbolics := None;
    }

    method MakeSymbolic()
      requires Shape() && GoodLog(root, size, head) && head.Empty? && root.Some?
      modifies this`concreteMask, this`flushMask, this`knownSymbolics
      ensures Valid()
      ensures forall env, i :: 0 <= i < size ==> Contents(env)[i] == Cell(root.value, i, env)
    {
      for i := 0 to size
        invariant Shape()
        invariant forall j :: 0 <= j < i ==> !IsByteConcrete(j) && !IsByteKnownSymbolic(j) && IsByteFlushed(j)
      {
        MarkByteSymbolic(i);
        SetKnownSymbolic(i, None);
        MarkByteFlushed(i);
      }
    }

    method InitializeToZero()
      requires Valid()
      modifies this`concreteMask, this`flushMask, this`knownSymbolics, concreteStore
      ensures Valid()
      ensures forall env :: Contents(env) == seq(size, _ => 0)
    {
      MakeConcrete();
      forall i | 0 <= i < size {
        concreteStore[i] := 0;
      }
    }

    method InitializeToRandom()
      requires Valid()
      modifies this`concreteMask, this`flushMask, this`knownSymbolics, concreteStore
      ensures Valid()
      ensures forall env :: Contents(env) == seq(size, _ => 0xAB)
    {
      MakeConcrete();
      forall i | 0 <= i < size {
        concreteStore[i] := 0xAB;
      }
    }

    // ---------------------------------------------------------------- the log

    /** Materialises the constant root, folding in the oldest constant writes. */
    method GetUpdates()
      requires Valid()
      modifies this`root, this`head
      ensures Valid() && root.Some?
      ensures forall j :: 0 <= j < size ==> IsByteFlushed(j) == old(IsByteFlushed(j))
      ensures forall env :: Contents(env) == old(Contents(env))
    {
      hide WF, WFUpdates, ConstantsInside, EvalRead;
      if root.None? {
        assert root == None;
        var a, log := Materialise(size, head);
        root, head := Some(a), log;
        assert forall j :: 0 <= j < size ==>
          && IsByteFlushed(j) == old(IsByteFlushed(j))
          && IsByteConcrete(j) == old(IsByteConcrete(j)) && IsByteKnownSymbolic(j) == old(IsByteKnownSymbolic(j));
        forall j, env: Env | 0 <= j < size && IsByteFlushed(j) && (IsByteConcrete(j) || IsByteKnownSymbolic(j))
          ensures LogByte(root, size, head, j, env) == Cached(j, env)
        {
          assert old(LogByte(root, size, head, j, env) == Cached(j, env));
        }
      }
    }

    /** Writes the cached copy of one byte to the log. */
    method FlushByte(i: nat)
      requires Valid() && i < size && flushMask.Some? && !IsByteFlushed(i)
      modifies this`flushMask, this`head
      ensures Valid() && flushMask.Some?
      ensures forall j :: 0 <= j < size ==> IsByteFlushed(j) == (j == i || old(IsByteFlushed(j)))
      ensures forall j :: 0 <= j < size ==> IsByteConcrete(j) == old(IsByteConcrete(j))
      ensures forall j :: 0 <= j < size ==> IsByteKnownSymbolic(j) == old(IsByteKnownSymbolic(j))
      ensures forall env :: Contents(env) == old(Contents(env))
    {
      hide WF, Width, WFUpdates, ConstantsInside, EvalRead;
      var index := OffsetExpr(i);
      var value := if IsByteConcrete(i) then ByteExpr(concreteStore[i]) else knownSymbolics.value[i].value;
      LogExtended(root, size, head, index, value);
      head := Update(index, value, head);
      flushMask := Some(flushMask.value[i := false]);
      assert forall j :: 0 <= j < size ==>
        IsByteConcrete(j) == old(IsByteConcrete(j)) && IsByteKnownSymbolic(j) == old(IsByteKnownSymbolic(j));
      forall j, env: Env | 0 <= j < size && IsByteFlushed(j) && (IsByteConcrete(j) || IsByteKnownSymbolic(j))
        ensures LogByte(root, size, head, j, env) == Cached(j, env)
      {
        EvalConstant(index, env);
        assert j != i ==> old(IsByteFlushed(j)) && old(LogByte(root, size, head, j, env) == Cached(j, env));
      }
      assert forall j, env: Env :: 0 <= j < size ==> ByteAt(j, env) == old(ByteAt(j, env));
    }

    method FlushRangeForRead(rangeBase: nat, rangeSize: nat)
      requires Valid() && rangeBase + rangeSize <= size
      modifies this`flushMask, this`head
      ensures Valid()
      ensures forall j :: rangeBase <= j < rangeBase + rangeSize ==> IsByteFlushed(j)
      ensures forall env :: Contents(env) == old(Contents(env))
    {
      hide WF, Width, WFUpdates, ConstantsInside, EvalRead, GoodLog;
      if flushMask.None? {
        flushMask := Some(seq(size, _ => true));
        assert forall j :: 0 <= j < size ==> !IsByteFlushed(j) && !old(IsByteFlushed(j));
        assert forall j :: 0 <= j < size ==>
          IsByteConcrete(j) == old(IsByteConcrete(j)) && IsByteKnownSymbolic(j) == old(IsByteKnownSymbolic(j));
        assert forall j, env: Env :: 0 <= j < size ==> ByteAt(j, env) == old(ByteAt(j, env));
      }
      for offset := rangeBase to rangeBase + rangeSize
        invariant Valid() && flushMask.Some?
        invariant forall j :: rangeBase <= j < offset ==> IsByteFlushed(j)
        invariant forall env :: Contents(env) == old(Contents(env))
      {
        if !IsByteFlushed(offset) {
          FlushByte(offset);
        }
      }
    }

    /** Leaves a flushed byte to the log alone. */
    method DropCache(i: nat)
      requires Valid() && i < size && IsByteFlushed(i)
      modifies this`concreteMask, this`knownSymbolics
      ensures Valid()
      ensures forall j :: 0 <= j < size ==> IsByteFlushed(j) == old(IsByteFlushed(j))
      ensures forall j :: 0 <= j < size ==> IsByteConcrete(j) == (j != i && old(IsByteConcrete(j)))
      ensures forall j :: 0 <= j < size ==> IsByteKnownSymbolic(j) == (j != i && old(IsByteKnownSymbolic(j)))
      ensures forall env :: Contents(env) == old(Contents(env))
    {
      hide WF, Width, WFUpdates, ConstantsInside, EvalRead, GoodLog;
      assert forall env: Env :: IsByteConcrete(i) || IsByteKnownSymbolic(i) ==>
        LogByte(root, size, head, i, env) == Cached(i, env);
      if IsByteConcrete(i) {
        MarkByteSymbolic(i);
      } else if IsByteKnownSymbolic(i) {
        SetKnownSymbolic(i, None);
      }
      assert forall j, env: Env :: 0 <= j < size ==> ByteAt(j, env) == old(ByteAt(j, env));
    }

    method FlushRangeForWrite(rangeBase: nat, rangeSize: nat)
      requires Valid() && rangeBase + rangeSize <= size
      modifies this`flushMask, this`head, this`concreteMask, this`knownSymbolics
      ensures Valid()
      ensures forall j :: rangeBase <= j < rangeBase + rangeSize ==>
                IsByteFlushed(j) && !IsByteConcrete(j) && !IsByteKnownSymbolic(j)
      ensures forall env :: Contents(env) == old(Contents(env))
    {
      hide WF, Width, WFUpdates, ConstantsInside, EvalRead, GoodLog;
      if flushMask.None? {
        flushMask := Some(seq(size, _ => true));
        assert forall j :: 0 <= j < size ==> !IsByteFlushed(j) && !old(IsByteFlushed(j));
        assert forall j :: 0 <= j < size ==>
          IsByteConcrete(j) == old(IsByteConcrete(j)) && IsByteKnownSymbolic(j) == old(IsByteKnownSymbolic(j));
        assert forall j, env: Env :: 0 <= j < size ==> ByteAt(j, env) == old(ByteAt(j, env));
      }
      for offset := rangeBase to rangeBase + rangeSize
        invariant Valid() && flushMask.Some?
        invariant forall j :: rangeBase <= j < offset ==>
                    IsByteFlushed(j) && !IsByteConcrete(j) && !IsByteKnownSymbolic(j)
        invariant forall env :: Contents(env) == old(Contents(env))
      {
        if !IsByteFlushed(offset) {
          FlushByte(offset);
        }
        DropCache(offset);
      }
    }

    // ------------------------------------------------------------- single bytes

    /** Reads a byte at a known offset. May build the log's root. */
    method Read8(offset: nat) returns (e: Expr)
      requires Valid() && offset < size
      modifies this`root, this`head
      ensures Valid() && IsByte(e)
      ensures forall env :: Eval(e, env) == Contents(env)[offset]
      ensures forall env :: Contents(env) == old(Contents(env))
    {
      hide WF, Width, WFUpdates, ConstantsInside, EvalRead, Eval;
      if IsByteConcrete(offset) {
        e := ByteExpr(concreteStore[offset]);
      } else if IsByteKnownSymbolic(offset) {
        e := knownSymbolics.value[offset].value;
      } else {
        GetUpdates();
        var index := OffsetExpr(offset);
        e := CreateRead(root.value, head, index);
        forall env: Env ensures Eval(e, env) == LogByte(root, size, head, offset, env) {
          ReadMeaning(root.value, head, index, env);
          EvalReadNode(root.value, head, index, env);
        }
      }
    }

    /** Reads a byte at a symbolic offset, flushing the whole object first. */
    method Read8Symbolic(offset: Expr) returns (e: Expr)
      requires Valid() && WF(offset) && Width(offset) == Int32 && !offset.Constant?
      modifies this`flushMask, this`root, this`head
      ensures Valid() && IsByte(e)
      ensures forall env :: Eval(offset, env) < size ==> Eval(e, env) == Contents(env)[Eval(offset, env)]
      ensures forall env :: Contents(env) == old(Contents(env))
    {
      hide WF, Width, WFUpdates, ConstantsInside, EvalRead, Eval;
      FlushRangeForRead(0, size);
      GetUpdates();
      e := CreateRead(root.value, head, offset);
      forall env: Env | Eval(offset, env) < size
        ensures Eval(e, env) == Contents(env)[Eval(offset, env)]
      {
        ReadMeaning(root.value, head, offset, env);
        EvalReadNode(root.value, head, offset, env);
        var i := Eval(offset, env);
        assert IsByteFlushed(i);
        assert Contents(env)[i] == ByteAt(i, env) == LogByte(root, size, head, i, env);
      }
    }

    method Write8Concrete(offset: nat, value: Byte)
      requires Valid() && offset < size
      modifies this`knownSymbolics, this`concreteMask, this`flushMask, concreteStore
      ensures Valid()
      ensures forall env :: Contents(env) == old(Contents(env))[offset := value]
    {
      hide WF, Width, WFUpdates, ConstantsInside, EvalRead, GoodLog;
      concreteStore[offset] := value;
      SetKnownSymbolic(offset, None);
      MarkByteConcrete(offset);
      MarkByteUnflushed(offset);
      assert forall j, env: Env :: 0 <= j < size && j != offset ==> ByteAt(j, env) == old(ByteAt(j, env));
    }

    /** Writes a byte expression at a known offset. */
    method Write8(offset: nat, value: Expr)
      requires Valid() && offset < size && IsByte(value)
      modifies this`knownSymbolics, this`concreteMask, this`flushMask, concreteStore
      ensures Valid()
      ensures forall env :: Contents(env) == old(Contents(env))[offset := Eval(value, env)]
    {
      hide WF, Width, WFUpdates, ConstantsInside, EvalRead, GoodLog, Eval;
      if value.Constant? {
        ConstantByte(value);
        forall env: Env ensures Eval(value, env) == value.value { EvalConstant(value, env); }
        Write8Concrete(offset, value.value);
      } else {
        SetKnownSymbolic(offset, Some(value));
        MarkByteSymbolic(offset);
        MarkByteUnflushed(offset);
        assert forall j, env: Env :: 0 <= j < size && j != offset ==> ByteAt(j, env) == old(ByteAt(j, env));
      }
    }

    /** Writes a byte at a symbolic offset: the log becomes the only copy. */
    method Write8Symbolic(offset: Expr, value: Expr)
      requires Valid() && WF(offset) && Width(offset) == Int32 && !offset.Constant? && IsByte(value)
      modifies this`flushMask, this`head, this`concreteMask, this`knownSymbolics
      ensures Valid()
      ensures forall env :: Contents(env) == PutByte(old(Contents(env)), Eval(offset, env), Eval(value, env))
    {
      hide WF, Width, WFUpdates, ConstantsInside, EvalRead, Eval;
      FlushRangeForWrite(0, size);
      label flushed:
      LogExtended(root, size, head, offset, value);
      head := Update(offset, value, head);
      assert forall j :: 0 <= j < size ==>
        && old@flushed(IsByteFlushed(j)) == IsByteFlushed(j)
        && old@flushed(IsByteConcrete(j)) == IsByteConcrete(j)
        && old@flushed(IsByteKnownSymbolic(j)) == IsByteKnownSymbolic(j);
    }

    // --------------------------------------------------------- multi-byte access

    method ReadAt(offset: nat, width: nat, littleEndian: bool) returns (e: Expr)
      requires Valid() && AccessWidth(width) && offset + ByteCount(width) <= size
      modifies this`root, this`head
      ensures Valid() && WF(e) && Width(e) == width
      ensures forall env :: Eval(e, env) == Loaded(Contents(env), offset, width, littleEndian)
      ensures forall env :: Contents(env) == old(Contents(env))
    {
      hide WF, Width, Eval, Weight, CreateConcat, CreateExtract, Valid, Contents, Field, Join, LoadBytes;
      if width == Bool {
        var byte := Read8(offset);
        e := CreateExtract(byte, 0, Bool);
        forall env: Env ensures Eval(e, env) == Field(Eval(byte, env), 0, Bool) {
          ExtractMeaning(byte, 0, Bool, env);
        }
        return;
      }
      var n := width / 8;
      var idx := ByteIndex(0, n, littleEndian);
      e := Read8(offset + idx);
      forall env: Env ensures Eval(e, env) == LoadBytes(Contents(env), offset, 1, n, littleEndian) {
        LoadOne(Contents(env), offset, n, littleEndian);
      }
      for i := 1 to n
        invariant Valid() && WF(e) && Width(e) == 8 * i
        invariant forall env :: Eval(e, env) == LoadBytes(Contents(env), offset, i, n, littleEndian)
        invariant forall env :: Contents(env) == old(Contents(env))
      {
        idx := ByteIndex(i, n, littleEndian);
        var byte := Read8(offset + idx);
        var joined := CreateConcat(byte, e);
        forall env: Env
          ensures Eval(joined, env) == LoadBytes(Contents(env), offset, i + 1, n, littleEndian)
        {
          ConcatMeaning(byte, e, env);
          LoadNext(Contents(env), offset, i, n, littleEndian);
        }
        e := joined;
      }
    }

    /** Reads at an offset that may be symbolic. */
    method Read(offset: Expr, width: nat, littleEndian: bool) returns (e: Expr)
      requires Valid() && AccessWidth(width) && WF(offset)
      requires Addressable(offset, width, size)
      modifies this`flushMask, this`root, this`head
      ensures Valid() && WF(e) && Width(e) == width
      ensures forall env :: Low(Eval(offset, env), 32) + ByteCount(width) <= size ==>
                Eval(e, env) == Loaded(Contents(env), Low(Eval(offset, env), 32), width, littleEndian)
      ensures forall env :: Contents(env) == old(Contents(env))
    {
      hide WF, Width, Eval, Weight, CreateZExt, CreateExtract, Valid, Contents, Field, Low, LoadBytes, SymbolicAt;
      var off := CreateZExt(offset, Int32);
      forall env: Env ensures Eval(off, env) == Low(Eval(offset, env), 32) {
        ZExtMeaning(offset, Int32, env);
      }
      if off.Constant? {
        forall env: Env ensures Eval(off, env) == off.value { EvalConstant(off, env); }
        e := ReadAt(off.value, width, littleEndian);
      } else if width == Bool {
        var byte := Read8Symbolic(off);
        e := CreateExtract(byte, 0, Bool);
        forall env: Env ensures Eval(e, env) == Field(Eval(byte, env), 0, Bool) {
          ExtractMeaning(byte, 0, Bool, env);
        }
      } else {
        e := ReadBytes(off, width / 8, littleEndian);
      }
    }

    method ReadBytes(off: Expr, n: nat, littleEndian: bool) returns (e: Expr)
      requires Valid() && 0 < n < 0x1_0000_0000 && WF(off) && Width(off) == Int32 && !off.Constant?
      requires forall k :: 0 <= k < n ==> SymbolicAt(off, k)
      modifies this`flushMask, this`root, this`head
      ensures Valid() && WF(e) && Width(e) == 8 * n
      ensures forall env :: Eval(off, env) + n <= size ==>
                Eval(e, env) == LoadBytes(Contents(env), Eval(off, env), n, n, littleEndian)
      ensures forall env :: Contents(env) == old(Contents(env))
    {
      hide WF, Width, Eval, Weight, CreateConcat, CreateAdd, Valid, Contents, Field, Low, Join, LoadBytes, SymbolicAt;
      var k := ByteIndex(0, n, littleEndian);
      e := Read8Symbolic(OffsetPlus(off, k));
      forall env: Env | Eval(off, env) + n <= size
        ensures Eval(e, env) == LoadBytes(Contents(env), Eval(off, env), 1, n, littleEndian)
      {
        OffsetPlusMeaning(off, k, env);
        OffsetInside(Eval(off, env), k, n, size);
        LoadOne(Contents(env), Eval(off, env), n, littleEndian);
      }
      for i := 1 to n
        invariant Valid() && WF(e) && Width(e) == 8 * i
        invariant forall env :: Eval(off, env) + n <= size ==>
                    Eval(e, env) == LoadBytes(Contents(env), Eval(off, env), i, n, littleEndian)
        invariant forall env :: Contents(env) == old(Contents(env))
      {
        e := ReadNext(off, i, n, littleEndian, e);
      }
    }

    method ReadNext(off: Expr, i: nat, n: nat, littleEndian: bool, e: Expr) returns (joined: Expr)
      requires Valid() && 0 < i < n < 0x1_0000_0000 && WF(off) && Width(off) == Int32 && !off.Constant?
      requires forall k :: 0 <= k < n ==> SymbolicAt(off, k)
      requires WF(e) && Width(e) == 8 * i
      requires forall env :: Eval(off, env) + n <= size ==>
                 Eval(e, env) == LoadBytes(Contents(env), Eval(off, env), i, n, littleEndian)
      modifies this`flushMask, this`root, this`head
      ensures Valid() && WF(joined) && Width(joined) == 8 * (i + 1)
      ensures forall env :: Eval(off, env) + n <= size ==>
                Eval(joined, env) == LoadBytes(Contents(env), Eval(off, env), i + 1, n, littleEndian)
      ensures forall env :: Contents(env) == old(Contents(env))
    {
      hide WF, Width, Eval, Weight, CreateConcat, CreateAdd, Valid, Contents, Field, Low, Join, LoadBytes, SymbolicAt;
      var k := ByteIndex(i, n, littleEndian);
      var byte := Read8Symbolic(OffsetPlus(off, k));
      joined := CreateConcat(byte, e);
      forall env: Env | Eval(off, env) + n <= size
        ensures Eval(joined, env) == LoadBytes(Contents(env), Eval(off, env), i + 1, n, littleEndian)
      {
        ConcatMeaning(byte, e, env);
        OffsetPlusMeaning(off, k, env);
        OffsetInside(Eval(off, env), k, n, size);
        LoadNext(Contents(env), Eval(off, env), i, n, littleEndian);
      }
    }

    /** Writes byte i of a value; constants take the concrete path. */
    method WriteByte(offset: nat, value: Expr, i: nat)
      requires Valid() && offset < size && WF(value) && AccessWidth(Width(value)) && i < ByteCount(Width(value))
      modifies this`knownSymbolics, this`concreteMask, this`flushMask, concreteStore
      ensures Valid()
      ensures forall env :: Contents(env) == old(Contents(env))[offset := Field(Eval(value, env), 8 * i, 8)]
    {
      hide WF, Width, Eval, Weight, Valid, Contents, Field, ByteOf;
      if value.Constant? {
        forall env: Env ensures Eval(value, env) == value.value { EvalConstant(value, env); }
        Write8Concrete(offset, ValueByte(value.value, i));
      } else {
        var byte := ByteOf(value, i);
        forall env: Env ensures Eval(byte, env) == Field(Eval(value, env), 8 * i, 8) {
          ByteOfMeaning(value, i, env);
        }
        Write8(offset, byte);
      }
    }

    method WriteAt(offset: nat, value: Expr, littleEndian: bool)
      requires Valid() && WF(value) && AccessWidth(Width(value)) && offset + ByteCount(Width(value)) <= size
      modifies this`knownSymbolics, this`concreteMask, this`flushMask, concreteStore
      ensures Valid()
      ensures forall env ::
        Contents(env) == Stored(old(Contents(env)), offset, Eval(value, env), Width(value), littleEndian)
    {
      hide WF, Width, Eval, Weight, CreateZExt, CreateExtract, Valid, Contents, Field, Low, StoreBytes;
      var w := Width(value);
      var n := ByteCount(w);
      forall env: Env
        ensures old(Contents(env)) == StoreBytes(old(Contents(env)), offset, Eval(value, env), 0, n, littleEndian)
      {
        StoreNone(old(Contents(env)), offset, Eval(value, env), n, littleEndian);
      }
      for i := 0 to n
        invariant Valid()
        invariant forall env ::
          Contents(env) == StoreBytes(old(Contents(env)), offset, Eval(value, env), i, n, littleEndian)
      {
        label before:
        var k := ByteIndex(i, n, littleEndian);
        WriteByte(offset + k, value, i);
        forall env: Env
          ensures Contents(env) == StoreBytes(old(Contents(env)), offset, Eval(value, env), i + 1, n, littleEndian)
        {
          StoreNext(old(Contents(env)), offset, Eval(value, env), i, n, littleEndian);
          OffsetInside(offset, k, n, size);
        }
      }
    }

    /** Writes at an offset that may be symbolic. */
    method Write(offset: Expr, value: Expr, littleEndian: bool)
      requires Valid() && WF(offset) && WF(value) && AccessWidth(Width(value))
      requires Addressable(offset, Width(value), size)
      modifies this`knownSymbolics, this`concreteMask, this`flushMask, this`head, concreteStore
      ensures Valid()
      ensures forall env :: Contents(env)
                == Stored(old(Contents(env)), Low(Eval(offset, env), 32), Eval(value, env), Width(value), littleEndian)
    {
      hide WF, Width, Eval, Weight, CreateZExt, CreateExtract, CreateAdd, Valid, Contents, Field, Low, StoreBytes,
           SymbolicAt;
      var off := CreateZExt(offset, Int32);
      forall env: Env ensures Eval(off, env) == Low(Eval(offset, env), 32) {
        ZExtMeaning(offset, Int32, env);
      }
      if off.Constant? {
        forall env: Env ensures Eval(off, env) == off.value { EvalConstant(off, env); }
        WriteAt(off.value, value, littleEndian);
        return;
      }
      var n := ByteCount(Width(value));
      forall env: Env
        ensures old(Contents(env))
          == StoreBytes(old(Contents(env)), Eval(off, env), Eval(value, env), 0, n, littleEndian)
      {
        StoreNone(old(Contents(env)), Eval(off, env), Eval(value, env), n, littleEndian);
      }
      for i := 0 to n
        invariant Valid()
        invariant forall env :: Contents(env)
                    == StoreBytes(old(Contents(env)), Eval(off, env), Eval(value, env), i, n, littleEndian)
      {
        label before:
        var k := ByteIndex(i, n, littleEndian);
        var position, byte := OffsetPlus(off, k), ByteOf(value, i);
        Write8Symbolic(position, byte);
        forall env: Env
          ensures Contents(env)
            == StoreBytes(old(Contents(env)), Eval(off, env), Eval(value, env), i + 1, n, littleEndian)
        {
          StoreNext(old(Contents(env)), Eval(off, env), Eval(value, env), i, n, littleEndian);
          OffsetPlusMeaning(off, k, env);
          ByteOfMeaning(value, i, env);
        }
      }
    }
  }

  // ------------------------------------------------------------- access facts

  /** The widths that can be read and written: Booleans and whole bytes. */
  predicate AccessWidth(width: nat) {
    width == Bool || (0 < width < 0x1_0000_0000 && width % 8 == 0)
  }

  function ByteCount(width: nat): (n: nat)
    requires AccessWidth(width)
    ensures 0 < n < 0x1_0000_0000
  {
    if width == Bool then 1 else width / 8
  }

  /** Adding the index of byte k leaves the offset symbolic. */
  predicate SymbolicAt(off: Expr, k: nat) {
    WF(off) && Width(off) == Int32 && k < 0x1_0000_0000 ==> !CreateAdd(off, OffsetExpr(k)).Constant?
  }

  /** What the accesses assert of an offset: a constant one must be in bounds, and the
      position of no byte reached through a symbolic one may fold to a constant. */
  predicate Addressable(offset: Expr, width: nat, size: nat)
    requires WF(offset) && AccessWidth(width)
  {
    var off := CreateZExt(offset, Int32);
    if off.Constant? then off.value + ByteCount(width) <= size
    else forall k :: 0 <= k < ByteCount(width) ==> SymbolicAt(off, k)
  }

  /** The value a read of some width finds. */
  function Loaded(s: seq<nat>, off: nat, width: nat, littleEndian: bool): nat
    requires AccessWidth(width) && off + ByteCount(width) <= |s|
  {
    if width == Bool then Field(s[off], 0, Bool)
    else LoadBytes(s, off, ByteCount(width), ByteCount(width), littleEndian)
  }

  lemma LoadOne(s: seq<nat>, off: nat, n: nat, le: bool)
    requires 0 < n && off + n <= |s|
    ensures LoadBytes(s, off, 1, n, le) == s[off + ByteIndex(0, n, le)]
  {
  }

  lemma LoadNext(s: seq<nat>, off: nat, i: nat, n: nat, le: bool)
    requires i < n && off + n <= |s|
    ensures LoadBytes(s, off, i + 1, n, le)
         == Join(s[off + ByteIndex(i, n, le)], LoadBytes(s, off, i, n, le), 8 * i)
  {
    hide Join;
  }

  lemma StoreNone(s: seq<nat>, off: nat, v: nat, n: nat, le: bool)
    ensures StoreBytes(s, off, v, 0, n, le) == s
  {
  }

  lemma StoreNext(s: seq<nat>, off: nat, v: nat, i: nat, n: nat, le: bool)
    requires i < n
    ensures StoreBytes(s, off, v, i + 1, n, le)
         == PutByte(StoreBytes(s, off, v, i, n, le), Low(off + ByteIndex(i, n, le), 32), Field(v, 8 * i, 8))
  {
    hide Low, Field;
  }

  lemma OffsetInside(o: nat, k: nat, n: nat, size: nat)
    requires k < n && o + n <= size < 0x1_0000_0000
    ensures Low(o + k, 32) == o + k
  {
    Pow2Values();
    LowSmall(o + k, 32);
  }

  /** A byte position inside an access. */
  function OffsetPlus(off: Expr, k: nat): (e: Expr)
    requires WF(off) && Width(off) == Int32 && !off.Constant? && k < 0x1_0000_0000 && SymbolicAt(off, k)
    ensures WF(e) && Width(e) == Int32 && !e.Constant?
  {
    CreateAdd(off, OffsetExpr(k))
  }

  /** An offset that keeps the rule against all-constant nodes meets what the accesses
      assert. */
  lemma FoldedAddressable(offset: Expr, width: nat, size: nat)
    requires WF(offset) && AccessWidth(width) && Folded(offset)
    requires var off := CreateZExt(offset, Int32); off.Constant? ==> off.value + ByteCount(width) <= size
    ensures Addressable(offset, width, size)
  {
    hide WF, Width, CreateZExt, CreateAdd, Folded;
    var off := CreateZExt(offset, Int32);
    FoldedCast(offset, Int32);
    if !off.Constant? {
      forall k | 0 <= k < ByteCount(width) ensures SymbolicAt(off, k) {
        SymbolicSums(OffsetExpr(k), off);
      }
    }
  }

  lemma OffsetPlusMeaning(off: Expr, k: nat, env: Env)
    requires WF(off) && Width(off) == Int32 && !off.Constant? && k < 0x1_0000_0000 && SymbolicAt(off, k)
    ensures Eval(OffsetPlus(off, k), env) == Low(Eval(off, env) + k, 32)
  {
    hide WF, Width, Eval, Low, CreateAdd;
    AddMeaning(off, OffsetExpr(k), env);
    EvalConstant(OffsetExpr(k), env);
  }

  function ValueByte(v: nat, i: nat): (b: Byte)
    ensures b == Field(v, 8 * i, 8)
  {
    Pow2Byte();
    Field(v, 8 * i, 8)
  }

  /** Byte i of a value, least significant first. */
  function ByteOf(value: Expr, i: nat): (e: Expr)
    requires WF(value) && AccessWidth(Width(value)) && i < ByteCount(Width(value))
    ensures IsByte(e)
  {
    if Width(value) == Bool then CreateZExt(value, Int8) else CreateExtract(value, 8 * i, Int8)
  }

  lemma ByteOfMeaning(value: Expr, i: nat, env: Env)
    requires WF(value) && AccessWidth(Width(value)) && i < ByteCount(Width(value))
    ensures Eval(ByteOf(value, i), env) == Field(Eval(value, env), 8 * i, 8)
  {
    hide WF, Width, Eval, CreateZExt, CreateExtract, Low, Shr;
    if Width(value) == Bool {
      ZExtMeaning(value, Int8, env);
      ShrZero(Eval(value, env));
    } else {
      ExtractMeaning(value, 8 * i, Int8, env);
    }
  }

  /** The bytes after a write of some width. */
  function Stored(s: seq<nat>, off: nat, v: nat, width: nat, littleEndian: bool): seq<nat>
    requires AccessWidth(width)
  {
    StoreBytes(s, off, v, ByteCount(width), ByteCount(width), littleEndian)
  }

  /** An in-bounds write is read back at the same width in either byte order. */
  lemma LoadedAfterStored(s: seq<nat>, off: nat, v: nat, width: nat, littleEndian: bool)
    requires AccessWidth(width) && off + ByteCount(width) <= |s| <= Pow2(32) && v < Pow2(width)
    ensures Loaded(Stored(s, off, v, width, littleEndian), off, width, littleEndian) == v
  {
    hide StoreBytes, LoadBytes, Low, Field, Pow2;
    if width == Bool {
      StoreBytesAt(s, off, v, 1, 1, littleEndian, 0);
      Pow2Mono(Bool, 8);
      FieldWhole(v, 8);
      FieldWhole(v, Bool);
    } else {
      LoadAfterStore(s, off, v, ByteCount(width), littleEndian);
    }
  }

  // --------------------------------------------------------------- small facts

  function OffsetExpr(i: nat): (e: Expr)
    requires i < 0x1_0000_0000
    ensures WF(e) && Width(e) == Int32 && e == Constant(i, Int32)
  {
    Pow2Values();
    Constant(i, Int32)
  }

  function ByteExpr(b: Byte): (e: Expr)
    ensures IsByte(e) && e == Constant(b, Int8)
    ensures forall env :: Eval(e, env) == b
  {
    Pow2Byte();
    Constant(b, Int8)
  }

  lemma ConstantByte(e: Expr)
    requires IsByte(e) && e.Constant?
    ensures e.value < 256
  {
  }

  lemma EvalReadNode(a: Array, u: Updates, index: Expr, env: Env)
    ensures Eval(Read(a, u, index), env) == EvalRead(a, u, Eval(index, env), env)
    ensures index.Constant? ==> Eval(index, env) == index.value
  {
    hide EvalRead;
  }

  /** One more write on a log. */
  lemma LogExtended(root: Option<Array>, size: nat, log: Updates, index: Expr, value: Expr)
    requires GoodLog(root, size, log) && WF(index) && Width(index) == Int32 && IsByte(value)
    requires index.Constant? ==> index.value < size
    ensures GoodLog(root, size, Update(index, value, log))
    ensures forall i, env: Env :: LogByte(root, size, Update(index, value, log), i, env)
              == if Eval(index, env) == i then Eval(value, env) else LogByte(root, size, log, i, env)
  {
    hide WF, Width, Eval;
  }

  /** A log over absent contents as a constant array and a shorter log. */
  method Materialise(size: nat, head: Updates) returns (a: Array, log: Updates)
    requires GoodLog(None, size, head)
    ensures GoodLog(Some(a), size, log)
    ensures forall i, env: Env
              {:trigger LogByte(None, size, head, i, env)} {:trigger LogByte(Some(a), size, log, i, env)} ::
              0 <= i < size ==> LogByte(Some(a), size, log, i, env) == LogByte(None, size, head, i, env)
  {
    hide WF, Width, WFUpdates, ConstantsInside, EvalRead;
    var writes := OldestFirst(head);
    LogFacts(head, size);
    // pull off as many constant writes as possible
    var contents: seq<nat> := seq(size, _ => 0);
    var begin := 0;
    while begin < |writes| && writes[begin].0.Constant? && writes[begin].1.Constant?
      invariant begin <= |writes| && ConstantWrites(writes, begin, size)
      invariant contents == FoldedWrites(writes, begin, size)
    {
      contents := contents[writes[begin].0.value := writes[begin].1.value];
      begin := begin + 1;
    }
    a := ConstArray(contents);
    // apply the remaining writes
    log := Empty;
    for k := begin to |writes|
      invariant log == Extended(Empty, writes[begin..k])
    {
      assert writes[begin..k + 1][..k - begin] == writes[begin..k];
      log := Update(writes[k].0, writes[k].1, log);
    }
    assert writes[..|writes|] == writes;
    ExtendedOldestFirst(head);
    ExtendedWF(a, writes, begin, |writes|);
    forall i, env: Env | 0 <= i < size
      ensures LogByte(Some(a), size, log, i, env) == LogByte(None, size, head, i, env)
    {
      FoldedReads(writes, begin, size, |writes|, i, env);
    }
  }

  /** Every write of a good log is well formed, and constant ones stay inside. */
  ghost predicate GoodWrites(w: seq<(Expr, Expr)>, size: nat) {
    forall i :: 0 <= i < |w| ==>
      && WF(w[i].0) && Width(w[i].0) == Int32 && IsByte(w[i].1)
      && (w[i].0.Constant? && w[i].1.Constant? ==> w[i].0.value < size)
      && (w[i].1.Constant? ==> w[i].1.value < 256)
  }

  lemma {:induction false} LogFacts(log: Updates, size: nat)
    requires WFUpdates(log, ZeroArray(size)) && ConstantsInside(log, size)
    ensures GoodWrites(OldestFirst(log), size)
  {
    if log.Update? {
      LogFacts(log.next, size);
      Pow2Byte();
    }
  }

  lemma {:induction false} ExtendedWF(a: Array, w: seq<(Expr, Expr)>, lo: nat, hi: nat)
    requires ByteArray(a) && lo <= hi <= |w|
    requires exists size :: GoodWrites(w, size)
    ensures WFUpdates(Extended(Empty, w[lo..hi]), a)
    decreases hi
  {
    if lo < hi {
      ExtendedWF(a, w, lo, hi - 1);
      assert w[lo..hi][..hi - lo - 1] == w[lo..hi - 1];
    }
  }
}

/** What a memory object holds, byte by byte, and the log of array writes that
    backs its symbolic accesses. */
module MemoryLog {
  import opened Bits
  import opened Exprs
  import opened CreateMeaning

  datatype Option<T> = None | Some(value: T)

  type Byte = b: nat | b < 256

  // ------------------------------------------------- byte-level specification

  /** Where byte i of an n-byte value goes. */
  function ByteIndex(i: nat, n: nat, littleEndian: bool): (j: nat)
    requires i < n
    ensures j < n
  {
    if littleEndian then i else n - i - 1
  }

  /** Storing outside the object has no effect. */
  function PutByte(s: seq<nat>, p: nat, b: nat): (r: seq<nat>)
    ensures |r| == |s|
  {
    if p < |s| then s[p := b] else s
  }

  /** The object after the first k bytes of an n-byte value were stored at off. */
  function StoreBytes(s: seq<nat>, off: nat, v: nat, k: nat, n: nat, littleEndian: bool): (r: seq<nat>)
    requires k <= n
    ensures |r| == |s|
    decreases k
  {
    if k == 0 then s
    else
      PutByte(StoreBytes(s, off, v, k - 1, n, littleEndian),
              Low(off + ByteIndex(k - 1, n, littleEndian), 32), Field(v, 8 * (k - 1), 8))
  }

  /** The value of the first k bytes of an n-byte value loaded from off. */
  function LoadBytes(s: seq<nat>, off: nat, k: nat, n: nat, littleEndian: bool): nat
    requires k <= n && off + n <= |s|
    decreases k
  {
    if k == 0 then 0
    else Join(s[off + ByteIndex(k - 1, n, littleEndian)],
              LoadBytes(s, off, k - 1, n, littleEndian), 8 * (k - 1))
  }

  lemma {:induction false} StoreBytesFrame(s: seq<nat>, off: nat, v: nat, k: nat, n: nat, le: bool, p: nat)
    requires k <= n && off + n <= |s| <= Pow2(32) && p < |s|
    ensures p < off || off + n <= p ==> StoreBytes(s, off, v, k, n, le)[p] == s[p]
    decreases k
  {
    hide Low, Pow2, Field;
    if k > 0 {
      StoreBytesFrame(s, off, v, k - 1, n, le, p);
      LowSmall(off + ByteIndex(k - 1, n, le), 32);
    }
  }

  /** Each stored byte is found where it was put. */
  lemma {:induction false} StoreBytesAt(s: seq<nat>, off: nat, v: nat, k: nat, n: nat, le: bool, i: nat)
    requires i < k <= n && off + n <= |s| <= Pow2(32)
    ensures StoreBytes(s, off, v, k, n, le)[off + ByteIndex(i, n, le)] == Field(v, 8 * i, 8)
    decreases k
  {
    hide Low, Pow2, Field;
    LowSmall(off + ByteIndex(k - 1, n, le), 32);
    if i < k - 1 {
      StoreBytesAt(s, off, v, k - 1, n, le, i);
    }
  }

  lemma {:induction false} LoadStored(s: seq<nat>, off: nat, v: nat, k: nat, n: nat, le: bool)
    requires k <= n && off + n <= |s| <= Pow2(32)
    ensures LoadBytes(StoreBytes(s, off, v, n, n, le), off, k, n, le) == Field(v, 0, 8 * k)
    decreases k
  {
    hide Low, Pow2, Field, Join, StoreBytes;
    if k == 0 {
      FieldEmpty(v);
    } else {
      LoadStored(s, off, v, k - 1, n, le);
      StoreBytesAt(s, off, v, n, n, le, k - 1);
      JoinOfFields(v, 0, 8 * (k - 1), 8);
    }
  }

  lemma FieldEmpty(v: nat)
    ensures Field(v, 0, 0) == 0
  {
  }

  /** An in-bounds multi-byte store is loaded back unchanged in either byte
      order, and the rest of the object is as before. */
  lemma LoadAfterStore(s: seq<nat>, off: nat, v: nat, n: nat, le: bool)
    requires off + n <= |s| <= Pow2(32) && v < Pow2(8 * n)
    ensures LoadBytes(StoreBytes(s, off, v, n, n, le), off, n, n, le) == v
    ensures StoreBytes(s, off, v, n, n, le)[..off] == s[..off]
    ensures StoreBytes(s, off, v, n, n, le)[off + n..] == s[off + n..]
  {
    hide Low, Field, Join, StoreBytes, LoadBytes;
    LoadStored(s, off, v, n, n, le);
    FieldWhole(v, 8 * n);
    forall p | 0 <= p < |s| && (p < off || off + n <= p)
      ensures StoreBytes(s, off, v, n, n, le)[p] == s[p]
    {
      StoreBytesFrame(s, off, v, n, n, le, p);
    }
  }

  /** Byte order, address by address: a little-endian store puts the least significant byte
      first, a big-endian one the most significant. */
  lemma StoredLayout(s: seq<nat>, off: nat, v: nat, n: nat, j: nat)
    requires off + n <= |s| <= Pow2(32) && j < n
    ensures StoreBytes(s, off, v, n, n, true)[off + j] == Field(v, 8 * j, 8)
    ensures StoreBytes(s, off, v, n, n, false)[off + j] == Field(v, 8 * (n - 1 - j), 8)
  {
    hide StoreBytes, Field, Pow2;
    StoreBytesAt(s, off, v, n, n, true, j);
    StoreBytesAt(s, off, v, n, n, false, n - 1 - j);
  }

  /** The same for loads: where byte j of the loaded value was found. */
  lemma LoadedLayout(s: seq<nat>, off: nat, n: nat, j: nat)
    requires off + n <= |s| && j < n && forall i :: off <= i < off + n ==> s[i] < 256
    ensures Field(LoadBytes(s, off, n, n, true), 8 * j, 8) == s[off + j]
    ensures Field(LoadBytes(s, off, n, n, false), 8 * j, 8) == s[off + n - 1 - j]
  {
    hide LoadBytes, Field;
    LoadBytesAt(s, off, n, n, true, j);
    LoadBytesAt(s, off, n, n, false, j);
  }

  lemma {:induction false} LoadBytesAt(s: seq<nat>, off: nat, k: nat, n: nat, le: bool, i: nat)
    requires k <= n && off + n <= |s| && forall i :: off <= i < off + n ==> s[i] < 256
    ensures LoadBytes(s, off, k, n, le) < Pow2(8 * k)
    ensures i < k ==> Field(LoadBytes(s, off, k, n, le), 8 * i, 8) == s[off + ByteIndex(i, n, le)]
    decreases k
  {
    hide Low, Field, Join, Pow2;
    if k > 0 {
      var top, rest := s[off + ByteIndex(k - 1, n, le)], LoadBytes(s, off, k - 1, n, le);
      LoadBytesAt(s, off, k - 1, n, le, i);
      Pow2Byte();
      JoinBound(top, rest, 8, 8 * (k - 1));
      if i == k - 1 {
        FieldOfJoinHigh(top, rest, 8 * (k - 1), 8 * i, 8);
        FieldWhole(top, 8);
      } else if i < k {
        FieldOfJoinLow(top, rest, 8 * (k - 1), 8 * i, 8);
      }
    }
  }

  // -------------------------------------------------------------- write logs

  /** Arrays that can back an object: 32-bit indices and byte elements. */
  predicate ByteArray(a: Array) {
    a.Valid() && a.domain == Int32 && a.range == Int8
  }

  /** The constant array a log without a root stands for. */
  function ZeroArray(size: nat): (a: Array)
    ensures ByteArray(a)
  {
    Array("const_arr", size, Int32, Int8, seq(size, _ => 0))
  }

  function LogRoot(root: Option<Array>, size: nat): Array {
    if root.Some? then root.value else ZeroArray(size)
  }

  /** Byte i as the log gives it. */
  function LogByte(root: Option<Array>, size: nat, log: Updates, i: nat, env: Env): nat {
    EvalRead(LogRoot(root, size), log, i, env)
  }

  /** Writes of constants at constant offsets stay inside the object. */
  predicate ConstantsInside(log: Updates, size: nat) {
    match log
    case Empty => true
    case Update(i, v, next) =>
      (i.Constant? && v.Constant? ==> i.value < size) && ConstantsInside(next, size)
  }

  /** The log is well formed for its root. */
  predicate GoodLog(root: Option<Array>, size: nat, log: Updates) {
    && (root.Some? ==> ByteArray(root.value))
    && WFUpdates(log, LogRoot(root, size))
    && (root.None? ==> ConstantsInside(log, size))
  }

  function LogLength(log: Updates): nat {
    if log.Empty? then 0 else 1 + LogLength(log.next)
  }

  /** Writes as a list, oldest first. */
  function OldestFirst(log: Updates): (w: seq<(Expr, Expr)>)
    ensures |w| == LogLength(log)
  {
    if log.Empty? then [] else OldestFirst(log.next) + [(log.index, log.value)]
  }

  /** Appending writes, oldest first, to a log. */
  function Extended(log: Updates, w: seq<(Expr, Expr)>): Updates
    decreases |w|
  {
    if w == [] then log
    else Update(w[|w| - 1].0, w[|w| - 1].1, Extended(log, w[..|w| - 1]))
  }

  lemma {:induction false} ExtendedOldestFirst(log: Updates)
    ensures Extended(Empty, OldestFirst(log)) == log
  {
    if log.Update? {
      ExtendedOldestFirst(log.next);
      assert OldestFirst(log)[..LogLength(log.next)] == OldestFirst(log.next);
    }
  }

  /** Folding the k oldest writes, all constant, into the initial contents. */
  predicate ConstantWrites(w: seq<(Expr, Expr)>, k: nat, size: nat) {
    && k <= |w|
    && forall i :: 0 <= i < k ==>
         w[i].0.Constant? && w[i].1.Constant? && w[i].0.value < size && w[i].1.value < 256
  }

  function FoldedWrites(w: seq<(Expr, Expr)>, k: nat, size: nat): (c: seq<nat>)
    requires ConstantWrites(w, k, size)
    ensures |c| == size
    ensures forall i :: 0 <= i < size ==> c[i] < 256
    decreases k
  {
    if k == 0 then seq(size, _ => 0)
    else FoldedWrites(w, k - 1, size)[w[k - 1].0.value := w[k - 1].1.value]
  }

  function ConstArray(contents: seq<nat>): (a: Array)
    requires forall i :: 0 <= i < |contents| ==> contents[i] < 256
    ensures ByteArray(a) && a.size == |contents|
  {
    Pow2Byte();
    Array("const_arr", |contents|, Int32, Int8, contents)
  }

  /** Reading behind folded writes is reading behind the writes themselves. */
  lemma {:induction false} FoldedReads(w: seq<(Expr, Expr)>, k: nat, size: nat, n: nat, i: nat, env: Env)
    requires ConstantWrites(w, k, size) && k <= n <= |w| && i < size
    ensures EvalRead(ConstArray(FoldedWrites(w, k, size)), Extended(Empty, w[k..n]), i, env)
         == EvalRead(ZeroArray(size), Extended(Empty, w[..n]), i, env)
    decreases n
  {
    hide Eval, Low;
    if n == k {
      assert w[k..n] == [];
      FoldedPrefix(w, k, size, i, env);
    } else {
      FoldedReads(w, k, size, n - 1, i, env);
      assert w[k..n][..n - k - 1] == w[k..n - 1];
      assert w[..n][..n - 1] == w[..n - 1];
    }
  }

  lemma {:induction false} FoldedPrefix(w: seq<(Expr, Expr)>, k: nat, size: nat, i: nat, env: Env)
    requires ConstantWrites(w, k, size) && i < size
    ensures Cell(ConstArray(FoldedWrites(w, k, size)), i, env)
      == EvalRead(ZeroArray(size), Extended(Empty, w[..k]), i, env)
    ensures Cell(ConstArray(FoldedWrites(w, k, size)), i, env) == FoldedWrites(w, k, size)[i]
    decreases k
  {
    hide Low, Pow2;
    Pow2Byte();
    LowSmall(FoldedWrites(w, k, size)[i], Int8);
    if k == 0 {
      assert w[..0] == [];
      LowSmall(0, Int8);
    } else {
      FoldedPrefix(w, k - 1, size, i, env);
      assert w[..k][..k - 1] == w[..k - 1];
      EvalConstant(w[k - 1].0, env);
      EvalConstant(w[k - 1].1, env);
    }
  }
}

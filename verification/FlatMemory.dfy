/** A load or store through a symbolic pointer, carried out on the address spaces of the
    successor states and compared with a flat memory that maps addresses to bytes. */
module FlatMemory {
  import opened Bits
  import opened Exprs
  import opened FoldedForm
  import opened MemoryLog
  import opened Memory
  import opened AddressSpaces
  import opened Sequences
  import opened Solvers
  import opened Resolution
  import opened Executor
  import opened MemoryAccess
  import opened Create
  import opened CreateMeaning

  // ------------------------------------------------------------------- flat memory

  type Flat = nat -> nat

  /** The least significant byte goes to the lowest address in little-endian order and to
      the highest in big-endian order. */
  function FlatStore(mem: Flat, address: nat, v: nat, width: nat, littleEndian: bool): Flat
    requires AccessWidth(width)
  {
    var n := ByteCount(width);
    (a: nat) =>
      if !(address <= a < address + n) then mem(a)
      else if littleEndian then Field(v, 8 * (a - address), 8)
      else Field(v, 8 * (address + n - 1 - a), 8)
  }

  /** The number whose least significant byte is at the lowest address. */
  function LittleEndian(mem: Flat, address: nat, n: nat): nat {
    if n == 0 then 0 else LittleEndian(mem, address, n - 1) + mem(address + n - 1) * Pow2(8 * (n - 1))
  }

  /** The number whose most significant byte is at the lowest address. */
  function BigEndian(mem: Flat, address: nat, n: nat): nat
    decreases n
  {
    if n == 0 then 0 else mem(address) * Pow2(8 * (n - 1)) + BigEndian(mem, address + 1, n - 1)
  }

  function FlatLoad(mem: Flat, address: nat, width: nat, littleEndian: bool): nat {
    if width == Bool then mem(address) % 2
    else if littleEndian then LittleEndian(mem, address, width / 8)
    else BigEndian(mem, address, width / 8)
  }

  /** The bytes of an object are those the memory has at its addresses. */
  ghost predicate Shows(bytes: seq<nat>, mo: MemoryObject, mem: Flat) {
    |bytes| == mo.size && forall i :: 0 <= i < mo.size ==> bytes[i] == mem(mo.address + i)
  }

  ghost predicate Represents(mem: Flat, s: AddressSpace, objects: seq<MemoryObject>, env: Env)
    reads s, s.objects.Values, set o | o in s.objects.Values :: o.concreteStore
  {
    forall mo :: mo in objects ==> Shows(View(s, mo, env), mo, mem)
  }

  /** Every space is represented by some flat memory, because objects do not overlap. */
  lemma {:induction false} SomeMemory(s: AddressSpace, objects: seq<MemoryObject>, env: Env, w: nat) returns (mem: Flat)
    requires Ordered(objects, w) && forall mo :: mo in objects ==> |View(s, mo, env)| == mo.size
    ensures Represents(mem, s, objects, env)
    decreases |objects|
  {
    hide View, InSpace;
    if objects == [] {
      return a => 0;
    }
    var rest := SomeMemory(s, objects[1..], env, w);
    var first := objects[0];
    var bytes := View(s, first, env);
    mem := (a: nat) => if first.address <= a < first.address + |bytes| then bytes[a - first.address] else rest(a);
    forall mo | mo in objects ensures Shows(View(s, mo, env), mo, mem) {
      if mo != first {
        assert mo in objects[1..];
        var i := IndexOf(objects, mo);
        assert first.address + Extent(first) <= mo.address;
      }
    }
  }

  lemma FlatStored(bytes: seq<nat>, mo: MemoryObject, mem: Flat, address: nat, v: nat, width: nat, le: bool)
    requires AccessWidth(width) && Shows(bytes, mo, mem) && Serves(mo, address, ByteCount(width))
    requires mo.size < 0x1_0000_0000
    ensures Shows(Stored(bytes, address - mo.address, v, width, le), mo, FlatStore(mem, address, v, width, le))
  {
    hide StoreBytes, Field, Pow2;
    Pow2Values();
    var n, off := ByteCount(width), address - mo.address;
    forall i | 0 <= i < mo.size
      ensures Stored(bytes, off, v, width, le)[i] == FlatStore(mem, address, v, width, le)(mo.address + i)
    {
      if off <= i < off + n {
        StoredLayout(bytes, off, v, n, i - off);
      } else {
        StoreBytesFrame(bytes, off, v, n, n, le, i);
      }
    }
  }

  /** An object other than the one stored to has none of the stored addresses. */
  lemma FlatElsewhere(bytes: seq<nat>, objects: seq<MemoryObject>, mo: MemoryObject, other: MemoryObject, mem: Flat,
                      address: nat, v: nat, width: nat, le: bool, w: nat)
    requires AccessWidth(width) && Ordered(objects, w) && mo in objects && other in objects && mo != other
    requires Serves(mo, address, ByteCount(width)) && Shows(bytes, other, mem)
    ensures Shows(bytes, other, FlatStore(mem, address, v, width, le))
  {
    hide InSpace, Field;
    var i, j := IndexOf(objects, mo), IndexOf(objects, other);
  }

  lemma {:induction false} LoadedNumber(bytes: seq<nat>, mo: MemoryObject, mem: Flat, off: nat, k: nat, n: nat)
    requires Shows(bytes, mo, mem) && k <= n && off + n <= mo.size
    ensures LoadBytes(bytes, off, k, n, true) == LittleEndian(mem, mo.address + off, k)
    ensures LoadBytes(bytes, off, k, n, false) == BigEndian(mem, mo.address + off + (n - k), k)
    decreases k
  {
    hide Pow2;
    if k > 0 {
      LoadedNumber(bytes, mo, mem, off, k - 1, n);
    }
  }

  lemma FlatLoaded(bytes: seq<nat>, mo: MemoryObject, mem: Flat, address: nat, width: nat, le: bool)
    requires AccessWidth(width) && Shows(bytes, mo, mem) && Serves(mo, address, ByteCount(width))
    ensures Loaded(bytes, address - mo.address, width, le) == FlatLoad(mem, address, width, le)
  {
    hide LoadBytes, LittleEndian, BigEndian, Pow2;
    var n := ByteCount(width);
    if width == Bool {
      Pow2One();
      ShrZero(bytes[address - mo.address]);
    } else {
      LoadedNumber(bytes, mo, mem, address - mo.address, n, n);
    }
  }

  // -------------------------------------------------------------------- one access

  /** The offset an access ends up with can be used, and is where the address lies. */
  lemma AccessAddressable(o: Outcome, cs: seq<Expr>, address: Expr, width: nat, isWrite: bool,
                          readOnly: set<MemoryObject>)
    requires AccessWidth(width) && o.Accessed? && GoodAccess(o, cs, address, ByteCount(width), isWrite, readOnly)
    requires Folded(address) && o.mo.size < 0x1_0000_0000
    ensures WF(o.offset) && Addressable(o.offset, width, o.mo.size)
    ensures forall env :: Models(o.state.constraints, env) ==>
      Serves(o.mo, Eval(address, env), ByteCount(width))
        && Low(Eval(o.offset, env), 32) == Eval(address, env) - o.mo.address
  {
    hide WF, Width, Eval, Models, Folded, Low, Addressable, CreateZExt, CreateSub;
    forall env | Models(o.state.constraints, env)
      ensures Low(Eval(o.offset, env), 32) == Eval(address, env) - o.mo.address
    {
      Pow2Values();
      LowSmall(Eval(address, env) - o.mo.address, 32);
    }
    var addr, w :| IsPointer(addr, w) && InSpace(o.mo, w) && (addr == address || addr.Constant?)
      && o.offset == OffsetOf(o.mo, addr, w);
    OffsetFolded(o.mo, addr, w);
    var off := CreateZExt(o.offset, Int32);
    if off.Constant? {
      var env :| Models(o.state.constraints, env);
      ZExtMeaning(o.offset, Int32, env);
      EvalConstant(off, env);
    }
    FoldedAddressable(o.offset, width, o.mo.size);
  }

  /** An outcome under its path condition: an access names an object that serves the address
      and a usable offset that is where the address lies in it. */
  ghost predicate Placed(o: Outcome, pc: seq<Expr>, address: Expr, width: nat, isWrite: bool,
                         readOnly: set<MemoryObject>, objects: seq<MemoryObject>)
    requires AccessWidth(width)
  {
    o.Accessed? ==>
      && o.mo in objects && (isWrite ==> o.mo !in readOnly) && o.mo.size < 0x1_0000_0000
      && WF(o.offset) && Addressable(o.offset, width, o.mo.size)
      && forall env :: Models(pc, env) ==>
           Serves(o.mo, Eval(address, env), ByteCount(width))
             && Low(Eval(o.offset, env), 32) == Eval(address, env) - o.mo.address
  }

  lemma ExactPlaced(o: Outcome, cs: seq<Expr>, address: Expr, width: nat, isWrite: bool, readOnly: set<MemoryObject>,
                    objects: seq<MemoryObject>)
    requires AccessWidth(width) && Exact(o, cs, address, ByteCount(width), isWrite, readOnly, objects)
    requires Folded(address)
    requires forall mo :: mo in objects ==> mo.size < 0x1_0000_0000
    ensures Placed(o, o.state.constraints, address, width, isWrite, readOnly, objects)
  {
    hide WF, Width, Eval, Models, Folded, Low, Addressable, Pointed, Serves;
    if o.Accessed? {
      AccessAddressable(o, cs, address, width, isWrite, readOnly);
    }
  }

  lemma OffsetFolded(mo: MemoryObject, addr: Expr, w: nat)
    requires IsPointer(addr, w) && InSpace(mo, w) && (addr.Constant? || Folded(addr))
    ensures Folded(OffsetOf(mo, addr, w))
  {
    hide WF, Folded, CreateSub;
    if addr.Constant? {
      FoldedConstant(addr);
    }
    FoldedConstant(BaseExpr(mo, w));
    FoldedSub(addr, BaseExpr(mo, w));
  }

  /** What an outcome does to a flat memory. */
  function Effect(o: Outcome, mem: Flat, isWrite: bool, address: nat, v: nat, width: nat, littleEndian: bool): Flat
    requires AccessWidth(width)
  {
    if o.Accessed? && isWrite then FlatStore(mem, address, v, width, littleEndian) else mem
  }

  /** The space binds the objects, and knows which of them are read-only. */
  ghost predicate Binding(s: AddressSpace, objects: seq<MemoryObject>, readOnly: set<MemoryObject>)
    reads s, s.objects.Values
  {
    forall mo :: mo in objects ==> mo in s.objects && (s.objects[mo].readOnly <==> mo in readOnly)
  }

  lemma BoundSize(s: AddressSpace, mo: MemoryObject, world: set<AddressSpace>)
    requires s in world && Isolated(world) && mo in s.objects
    ensures GoodBinding(s, mo) && mo.size < 0x1_0000_0000 && forall env :: |View(s, mo, env)| == mo.size
  {
    assert GoodBinding(s, mo);
  }

  method TransferStore(o: Outcome, space: AddressSpace, value: Expr, littleEndian: bool,
                       ghost objects: seq<MemoryObject>, ghost readOnly: set<MemoryObject>, ghost pc: seq<Expr>,
                       ghost address: Expr, ghost w: nat, ghost world: set<AddressSpace>)
    requires space in world && Isolated(world) && Binding(space, objects, readOnly) && Ordered(objects, w)
    requires WF(value) && AccessWidth(Width(value))
    requires o.Accessed? && Placed(o, pc, address, Width(value), true, readOnly, objects)
    modifies space`objects, space.objects[o.mo], space.objects[o.mo].concreteStore
    ensures Isolated(world) && old(space.objects)[o.mo].readOnly == old(space.objects[o.mo].readOnly)
    ensures forall s, k, env :: s in world && s != space ==> View(s, k, env) == old(View(s, k, env))
    ensures forall env, mem :: Models(pc, env) && old(Represents(mem, space, objects, env)) ==>
      Represents(FlatStore(mem, Eval(address, env), Eval(value, env), Width(value), littleEndian), space, objects, env)
  {
    hide WF, Width, Eval, Models, Isolated, View, Ordered, Stored, FlatStore, Shows, AccessWidth, Addressable,
         GoodBinding, AddressSpace.Owned;
    BoundSize(space, o.mo, world);
    space.Store(o.mo, o.offset, value, littleEndian, world);
    forall env, mem | Models(pc, env) && old(Represents(mem, space, objects, env))
      ensures Represents(FlatStore(mem, Eval(address, env), Eval(value, env), Width(value), littleEndian), space,
                         objects, env)
    {
      var a, v, n := Eval(address, env), Eval(value, env), Width(value);
      assert old(Represents(mem, space, objects, env));
      forall mo | mo in objects ensures Shows(View(space, mo, env), mo, FlatStore(mem, a, v, n, littleEndian)) {
        assert Shows(old(View(space, mo, env)), mo, mem);
        if mo == o.mo {
          FlatStored(old(View(space, mo, env)), mo, mem, a, v, n, littleEndian);
        } else {
          FlatElsewhere(View(space, mo, env), objects, o.mo, mo, mem, a, v, n, littleEndian, w);
        }
      }
    }
  }

  method TransferLoad(o: Outcome, space: AddressSpace, width: nat, littleEndian: bool, ghost objects: seq<MemoryObject>,
                      ghost readOnly: set<MemoryObject>, ghost pc: seq<Expr>, ghost address: Expr, ghost w: nat,
                      ghost world: set<AddressSpace>) returns (e: Expr)
    requires space in world && Isolated(world) && Binding(space, objects, readOnly) && Ordered(objects, w)
    requires AccessWidth(width)
    requires o.Accessed? && Placed(o, pc, address, width, false, readOnly, objects)
    modifies space.objects[o.mo]
    ensures Isolated(world) && space.objects[o.mo].readOnly == old(space.objects[o.mo].readOnly)
    ensures forall s, k, env :: s in world ==> View(s, k, env) == old(View(s, k, env))
    ensures WF(e) && Width(e) == width
    ensures forall env, mem :: Models(pc, env) && old(Represents(mem, space, objects, env)) ==>
      Eval(e, env) == FlatLoad(mem, Eval(address, env), width, littleEndian)
  {
    hide WF, Width, Eval, Models, Isolated, View, Ordered, Loaded, FlatLoad, Shows, AccessWidth, Addressable,
         GoodBinding;
    BoundSize(space, o.mo, world);
    e := space.Load(o.mo, o.offset, width, littleEndian, world);
    forall env, mem | Models(pc, env) && old(Represents(mem, space, objects, env))
      ensures Eval(e, env) == FlatLoad(mem, Eval(address, env), width, littleEndian)
    {
      assert Shows(old(View(space, o.mo, env)), o.mo, mem);
      FlatLoaded(View(space, o.mo, env), o.mo, mem, Eval(address, env), width, littleEndian);
    }
  }

  ghost function States(s: AddressSpace): set<ObjectState>
    reads s
  {
    s.objects.Values
  }

  ghost function Stores(s: AddressSpace): set<array<Byte>>
    reads s
  {
    set mo | mo in s.objects :: s.objects[mo].concreteStore
  }

  /** One outcome on the space of its state: a store or a load if it is an access, nothing
      otherwise. */
  method Transfer(o: Outcome, space: AddressSpace, isWrite: bool, value: Expr, width: nat, littleEndian: bool,
                  ghost objects: seq<MemoryObject>, ghost readOnly: set<MemoryObject>, ghost pc: seq<Expr>,
                  ghost address: Expr, ghost w: nat, ghost world: set<AddressSpace>) returns (loaded: Option<Expr>)
    requires space in world && Isolated(world) && Binding(space, objects, readOnly) && Ordered(objects, w)
    requires AccessWidth(width) && (isWrite ==> WF(value) && Width(value) == width)
    requires Placed(o, pc, address, width, isWrite, readOnly, objects)
    modifies space`objects, States(space), Stores(space)
    ensures Isolated(world) && forall os :: os in old(States(space)) ==> os.readOnly == old(os.readOnly)
    ensures forall s, k, env :: s in world && s != space ==> View(s, k, env) == old(View(s, k, env))
    ensures forall env, mem :: Models(pc, env) && old(Represents(mem, space, objects, env)) ==>
      Represents(Effect(o, mem, isWrite, Eval(address, env), Eval(value, env), width, littleEndian), space, objects,
                 env)
    ensures loaded.Some? <==> o.Accessed? && !isWrite
    ensures loaded.Some? ==> WF(loaded.value) && Width(loaded.value) == width
    ensures loaded.Some? ==> forall env, mem :: Models(pc, env) && old(Represents(mem, space, objects, env)) ==>
      Eval(loaded.value, env) == FlatLoad(mem, Eval(address, env), width, littleEndian)
  {
    hide WF, Width, Eval, Models, Isolated, View, Ordered, FlatStore, FlatLoad, Shows, AccessWidth;
    loaded := None;
    if o.Accessed? {
      assert o.mo in space.objects;
      if isWrite {
        TransferStore(o, space, value, littleEndian, objects, readOnly, pc, address, w, world);
      } else {
        var e := TransferLoad(o, space, width, littleEndian, objects, readOnly, pc, address, w, world);
        loaded := Some(e);
      }
    }
  }

  /** The copy of a space that the state going on gets, if one goes on. */
  method CopySpace(space: AddressSpace, more: bool, ghost objects: seq<MemoryObject>, ghost world: set<AddressSpace>)
    returns (next: AddressSpace, ghost wider: set<AddressSpace>)
    requires space in world && Isolated(world)
    modifies space`cowKey
    ensures wider == (if more then world + {next} else world) && Isolated(wider)
    ensures if more then fresh(next) && next.objects == space.objects else next == space
    ensures forall k, env :: View(next, k, env) == old(View(space, k, env))
    ensures forall s, k, env :: s in world ==> View(s, k, env) == old(View(s, k, env))
    ensures forall env, mem :: old(Represents(mem, space, objects, env)) ==> Represents(mem, next, objects, env)
    ensures forall s, env, mem :: s in world && old(Represents(mem, s, objects, env)) ==>
      Represents(mem, s, objects, env)
  {
    hide Isolated, View, Shows;
    next, wider := space, world;
    if more {
      next := new AddressSpace.Fork(space, world);
      wider := world + {next};
    }
    forall env, mem | old(Represents(mem, space, objects, env)) ensures Represents(mem, next, objects, env) {
      assert forall mo :: View(next, mo, env) == old(View(space, mo, env));
    }
    forall s, env, mem | s in world && old(Represents(mem, s, objects, env)) ensures Represents(mem, s, objects, env) {
      assert forall mo :: View(s, mo, env) == old(View(s, mo, env));
    }
  }

  /** One round of the split: the state that goes on is copied before the access. */
  method TransferNext(o: Outcome, space: AddressSpace, more: bool, isWrite: bool, value: Expr, width: nat,
                      littleEndian: bool, ghost objects: seq<MemoryObject>, ghost readOnly: set<MemoryObject>,
                      ghost pc: seq<Expr>, ghost address: Expr, ghost w: nat, ghost world: set<AddressSpace>)
    returns (loaded: Option<Expr>, next: AddressSpace, ghost wider: set<AddressSpace>)
    requires space in world && Isolated(world) && Binding(space, objects, readOnly) && Ordered(objects, w)
    requires AccessWidth(width) && (isWrite ==> WF(value) && Width(value) == width)
    requires Placed(o, pc, address, width, isWrite, readOnly, objects)
    modifies space, States(space), Stores(space)
    ensures wider == (if more then world + {next} else world) && Isolated(wider)
    ensures more ==> fresh(next) && next.objects == old(space.objects)
    ensures more ==> forall env, mem :: old(Represents(mem, space, objects, env)) ==>
      Represents(mem, next, objects, env)
    ensures forall os :: os in old(States(space)) ==> os.readOnly == old(os.readOnly)
    ensures forall s, k, env :: s in world && s != space ==> View(s, k, env) == old(View(s, k, env))
    ensures forall s, env, mem :: s in world && s != space && old(Represents(mem, s, objects, env)) ==>
      Represents(mem, s, objects, env)
    ensures forall env, mem :: Models(pc, env) && old(Represents(mem, space, objects, env)) ==>
      Represents(Effect(o, mem, isWrite, Eval(address, env), Eval(value, env), width, littleEndian), space, objects,
                 env)
    ensures loaded.Some? <==> o.Accessed? && !isWrite
    ensures loaded.Some? ==> WF(loaded.value) && Width(loaded.value) == width
    ensures loaded.Some? ==> forall env, mem :: Models(pc, env) && old(Represents(mem, space, objects, env)) ==>
      Eval(loaded.value, env) == FlatLoad(mem, Eval(address, env), width, littleEndian)
  {
    hide WF, Width, Eval, Models, Isolated, View, Placed, Ordered, FlatStore, FlatLoad, Shows, AccessWidth, Effect;
    next, wider := CopySpace(space, more, objects, world);
    label copied:
    loaded := Transfer(o, space, isWrite, value, width, littleEndian, objects, readOnly, pc, address, w, wider);
    forall s, env, mem | s in wider && s != space && old@copied(Represents(mem, s, objects, env))
      ensures Represents(mem, s, objects, env)
    {
      assert forall mo :: View(s, mo, env) == old@copied(View(s, mo, env));
    }
  }

  /** Pairs of a flat memory and an assignment under which the space is that memory. */
  ghost predicate Known(before: iset<(Flat, Env)>, s: AddressSpace, objects: seq<MemoryObject>)
    reads s, s.objects.Values, set o | o in s.objects.Values :: o.concreteStore
  {
    forall p :: p in before ==> Represents(p.0, s, objects, p.1)
  }

  /** What the instruction asks for: a store of a value or a load of some width. */
  datatype Request = Request(isWrite: bool, address: Expr, value: Expr, width: nat, littleEndian: bool) {
    predicate Valid() {
      AccessWidth(width) && Folded(address) && (isWrite ==> WF(value) && Width(value) == width)
    }
  }

  /** In every model of its path condition an outcome has done to its space what the request
      does to the flat memory that was there before, and loaded what a flat load finds. */
  ghost predicate Done(o: Outcome, pc: seq<Expr>, s: AddressSpace, loaded: Option<Expr>, before: iset<(Flat, Env)>,
                       q: Request, objects: seq<MemoryObject>)
    requires AccessWidth(q.width)
    reads s, s.objects.Values, set o | o in s.objects.Values :: o.concreteStore
  {
    && (forall p :: p in before && Models(pc, p.1) ==>
          Represents(Effect(o, p.0, q.isWrite, Eval(q.address, p.1), Eval(q.value, p.1), q.width, q.littleEndian), s,
                     objects, p.1))
    && (loaded.Some? <==> o.Accessed? && !q.isWrite)
    && (loaded.Some? ==> WF(loaded.value) && Width(loaded.value) == q.width)
    && (loaded.Some? ==> forall p :: p in before && Models(pc, p.1) ==>
          Eval(loaded.value, p.1) == FlatLoad(p.0, Eval(q.address, p.1), q.width, q.littleEndian))
  }

  /** The outcomes of a split, each on its own space: the original for the first, a copy made
      before its access for every other. */
  method TransferAll(outcomes: seq<Outcome>, space: AddressSpace, q: Request, ghost objects: seq<MemoryObject>,
                     ghost readOnly: set<MemoryObject>, ghost pcs: seq<seq<Expr>>, ghost w: nat,
                     ghost world: set<AddressSpace>, ghost before: iset<(Flat, Env)>)
    returns (spaces: seq<AddressSpace>, loaded: seq<Option<Expr>>, ghost wider: set<AddressSpace>)
    requires space in world && Isolated(world) && Binding(space, objects, readOnly) && Ordered(objects, w)
    requires q.Valid() && Known(before, space, objects) && |pcs| == |outcomes|
    requires forall k :: 0 <= k < |outcomes| ==>
      Placed(outcomes[k], pcs[k], q.address, q.width, q.isWrite, readOnly, objects)
    modifies space, States(space), Stores(space)
    ensures |spaces| == |outcomes| == |loaded| && wider >= world && Isolated(wider)
    ensures forall k :: 0 <= k < |spaces| ==>
      spaces[k] in wider && (if k == 0 then spaces[k] == space else fresh(spaces[k]))
    ensures forall j, k :: 0 <= j < k < |spaces| ==> spaces[j] != spaces[k]
    ensures forall s, k, env :: s in world && s != space ==> View(s, k, env) == old(View(s, k, env))
    ensures forall k :: 0 <= k < |spaces| ==> Done(outcomes[k], pcs[k], spaces[k], loaded[k], before, q, objects)
  {
    hide WF, Width, Eval, Models, Folded, Isolated, View, Placed, Ordered, FlatLoad, Represents, AccessWidth, Effect;
    spaces, loaded, wider := [], [], world;
    var current := space;
    for i := 0 to |outcomes|
      invariant |spaces| == i == |loaded| && wider >= world && Isolated(wider)
      invariant i < |outcomes| ==> current in wider && (if i == 0 then current == space else fresh(current))
      invariant i < |outcomes| ==>
        current !in spaces && current.objects == old(space.objects) && Known(before, current, objects)
      invariant forall os :: os in old(States(space)) ==> os.readOnly == old(os.readOnly)
      invariant forall k :: 0 <= k < i ==>
        spaces[k] in wider && (if k == 0 then spaces[k] == space else fresh(spaces[k]))
      invariant forall j, k :: 0 <= j < k < i ==> spaces[j] != spaces[k]
      invariant forall s, k, env :: s in world && s != space ==> View(s, k, env) == old(View(s, k, env))
      invariant forall k :: 0 <= k < i ==> Done(outcomes[k], pcs[k], spaces[k], loaded[k], before, q, objects)
    {
      label round:
      var e, next;
      e, next, wider := TransferNext(outcomes[i], current, i + 1 < |outcomes|, q.isWrite, q.value, q.width,
                                     q.littleEndian, objects,
                                     readOnly, pcs[i], q.address, w, wider);
      assert Done(outcomes[i], pcs[i], current, e, before, q, objects);
      forall k | 0 <= k < i ensures Done(outcomes[k], pcs[k], spaces[k], loaded[k], before, q, objects) {
        assert old@round(Done(outcomes[k], pcs[k], spaces[k], loaded[k], before, q, objects));
      }
      spaces, loaded, current := spaces + [current], loaded + [e], next;
    }
  }

  ghost function PathConditions(outcomes: seq<Outcome>): (pcs: seq<seq<Expr>>)
    reads set o | o in outcomes :: o.state
    ensures |pcs| == |outcomes| && forall k :: 0 <= k < |pcs| ==> pcs[k] == outcomes[k].state.constraints
    decreases |outcomes|
  {
    if outcomes == [] then [] else [outcomes[0].state.constraints] + PathConditions(outcomes[1..])
  }

  lemma AllPlaced(outcomes: seq<Outcome>, cs: seq<Expr>, address: Expr, width: nat, isWrite: bool,
                  readOnly: set<MemoryObject>, objects: seq<MemoryObject>, space: AddressSpace,
                  world: set<AddressSpace>)
    requires AccessWidth(width) && Folded(address) && space in world && Isolated(world)
    requires Binding(space, objects, readOnly)
    requires Partitioned(outcomes, cs, address, ByteCount(width), isWrite, readOnly, objects)
    ensures forall k :: 0 <= k < |outcomes| ==>
      Placed(outcomes[k], outcomes[k].state.constraints, address, width, isWrite, readOnly, objects)
  {
    hide Folded, Isolated, Exact, Exclusive, Models, Placed, AccessWidth;
    forall mo | mo in objects ensures mo.size < 0x1_0000_0000 {
      BoundSize(space, mo, world);
    }
    forall k | 0 <= k < |outcomes|
      ensures Placed(outcomes[k], outcomes[k].state.constraints, address, width, isWrite, readOnly, objects)
    {
      ExactPlaced(outcomes[k], cs, address, width, isWrite, readOnly, objects);
    }
  }

  method TransferSplit(outcomes: seq<Outcome>, space: AddressSpace, q: Request, ghost objects: seq<MemoryObject>,
                       ghost readOnly: set<MemoryObject>, ghost cs: seq<Expr>, ghost w: nat,
                       ghost world: set<AddressSpace>, ghost before: iset<(Flat, Env)>)
    returns (spaces: seq<AddressSpace>, loaded: seq<Option<Expr>>, ghost wider: set<AddressSpace>)
    requires space in world && Isolated(world) && Binding(space, objects, readOnly) && Ordered(objects, w)
    requires q.Valid() && Known(before, space, objects)
    requires Partitioned(outcomes, cs, q.address, ByteCount(q.width), q.isWrite, readOnly, objects)
    modifies space, States(space), Stores(space)
    ensures Partitioned(outcomes, cs, q.address, ByteCount(q.width), q.isWrite, readOnly, objects)
    ensures |spaces| == |outcomes| == |loaded| && wider >= world && Isolated(wider)
    ensures forall k :: 0 <= k < |spaces| ==>
      spaces[k] in wider && (if k == 0 then spaces[k] == space else fresh(spaces[k]))
    ensures forall j, k :: 0 <= j < k < |spaces| ==> spaces[j] != spaces[k]
    ensures forall s, k, env :: s in world && s != space ==> View(s, k, env) == old(View(s, k, env))
    ensures forall k :: 0 <= k < |spaces| ==>
      Done(outcomes[k], outcomes[k].state.constraints, spaces[k], loaded[k], before, q, objects)
  {
    hide WF, Width, Folded, Isolated, View, Placed, Ordered, Known, Done, AccessWidth, Partitioned, Binding, States,
         Stores;
    AllPlaced(outcomes, cs, q.address, q.width, q.isWrite, readOnly, objects, space, world);
    ghost var pcs := PathConditions(outcomes);
    spaces, loaded, wider := TransferAll(outcomes, space, q, objects, readOnly, pcs, w, world, before);
    assert forall k :: 0 <= k < |outcomes| ==> outcomes[k].state.constraints == pcs[k];
  }

  /** `executeMemoryOperation` with its transfers. The models of the state are split over the
      outcomes, and in each model of an outcome the space of that outcome is the flat memory
      the original space was, stored to or loaded from at the value of the address. No other
      state sees a difference. */
  method AccessMemory(ex: PathExecutor, state: PathState, space: AddressSpace, q: Request, objects: seq<MemoryObject>,
                      readOnly: set<MemoryObject>, maxSymArraySize: nat, expired: nat -> bool, w: nat,
                      ghost world: set<AddressSpace>, ghost before: iset<(Flat, Env)>)
    returns (outcomes: seq<Outcome>, spaces: seq<AddressSpace>, loaded: seq<Option<Expr>>, complete: bool,
             concretized: bool, ghost cs: seq<Expr>, ghost wider: set<AddressSpace>)
    requires ex.solver.Exact() && Concretizes(ex.solver) && state.Valid() && q.Valid() && IsPointer(q.address, w)
    requires space in world && Isolated(world) && Binding(space, objects, readOnly) && Ordered(objects, w)
    requires Known(before, space, objects)
    modifies ex`addedStates, state`constraints, state`depth, space, States(space), Stores(space)
    ensures Partitioned(outcomes, cs, q.address, ByteCount(q.width), q.isWrite, readOnly, objects)
    ensures complete <==> forall o :: o in outcomes ==> !o.Early?
    ensures ex.solver.Prompt() && (forall n :: !expired(n)) ==> complete
    ensures Satisfiable(cs)
    ensures Narrowed(concretized, ex.solver.Prompt(), cs, old(state.constraints), q.address, objects, maxSymArraySize)
    ensures |spaces| == |outcomes| == |loaded| && wider >= world && Isolated(wider)
    ensures forall k :: 0 <= k < |spaces| ==>
      spaces[k] in wider && (if k == 0 then spaces[k] == space else fresh(spaces[k]))
    ensures forall j, k :: 0 <= j < k < |spaces| ==> spaces[j] != spaces[k]
    ensures forall s, k, env :: s in world && s != space ==> View(s, k, env) == old(View(s, k, env))
    ensures forall k :: 0 <= k < |spaces| ==>
      Done(outcomes[k], outcomes[k].state.constraints, spaces[k], loaded[k], before, q, objects)
  {
    hide WF, Width, Eval, Models, Folded, Isolated, View, Placed, Ordered, Known, Done, AccessWidth, Partitioned,
         Solver.Exact, Solver.Prompt, Concretizes, Binding, IsPointer, PathState.Valid, States, Stores;
    outcomes, complete, concretized, cs :=
      ExecuteMemoryOperation(ex, state, q.isWrite, q.address, ByteCount(q.width), objects, readOnly, maxSymArraySize,
                             expired, w);
    spaces, loaded, wider := TransferSplit(outcomes, space, q, objects, readOnly, cs, w, world, before);
  }
}

/** Address spaces with copy-on-write objects. Ownership is decided by an epoch
    counter that a fork advances in both the original and the copy. */
module AddressSpaces {
  import opened Bits
  import opened Exprs
  import opened Memory

  /** An allocation: its identity, base address and size in bytes. */
  datatype MemoryObject = MemoryObject(id: nat, address: nat, size: nat)

  class AddressSpace {
    /** Epoch counter: objects whose owner equals it may be written in place. */
    var cowKey: nat
    var objects: map<MemoryObject, ObjectState>

    ghost predicate Owned(mo: MemoryObject)
      requires mo in objects
      reads this, objects[mo]
    {
      objects[mo].copyOnWriteOwner == cowKey
    }

    /** An empty address space, which joins any world without disturbing it. */
    constructor (ghost world: set<AddressSpace>)
      requires Isolated(world)
      ensures objects == map[] && Isolated(world + {this})
      ensures forall k, env :: View(this, k, env) == []
      ensures forall s, k, env :: s in world ==> View(s, k, env) == old(View(s, k, env))
    {
      hide ObjectState.Valid, ObjectState.Contents, ObjectState.Shape;
      cowKey := 1;
      objects := map[];
      new;
      assert forall s, k :: s in world ==> GoodBinding(s, k);
      assert forall s, k, t, k' :: s in world && t in world ==> Apart(s, k, t, k');
    }

    /** The copy a forked state gets. Both sides lose ownership of what they share. */
    constructor Fork(b: AddressSpace, ghost world: set<AddressSpace>)
      requires b in world && Isolated(world)
      modifies b`cowKey
      ensures b.cowKey == old(b.cowKey) + 1 == cowKey
      ensures objects == b.objects
      ensures Isolated(world + {this})
      ensures forall k, env :: View(this, k, env) == old(View(b, k, env))
      ensures forall s, k, env :: s in world ==> View(s, k, env) == old(View(s, k, env))
    {
      hide ObjectState.Valid, ObjectState.Contents, ObjectState.Shape;
      b.cowKey := b.cowKey + 1;
      cowKey := b.cowKey;
      objects := b.objects;
      new;
      forall s, k | s in world + {this} ensures GoodBinding(s, k) {
        assert old(GoodBinding(if s == this then b else s, k));
      }
      forall s, k, t, k' | s in world + {this} && t in world + {this} ensures Apart(s, k, t, k') {
        assert old(Apart(if s == this then b else s, k, if t == this then b else t, k'));
        assert old(GoodBinding(if s == this then b else s, k));
      }
    }

    /** Adds a binding for an object state that has no owner yet. */
    method BindObject(mo: MemoryObject, os: ObjectState, ghost world: set<AddressSpace>)
      requires this in world && Isolated(world)
      requires os.Valid() && os.size == mo.size && os.copyOnWriteOwner == 0
      requires Unshared(world, os)
      modifies this`objects, os`copyOnWriteOwner
      ensures objects == old(objects)[mo := os] && os.copyOnWriteOwner == cowKey
      ensures forall env :: View(this, mo, env) == old(os.Contents(env))
      ensures forall s, k, env :: s in world && !(s == this && k == mo) ==> View(s, k, env) == old(View(s, k, env))
      ensures Isolated(world)
    {
      hide ObjectState.Valid, ObjectState.Contents, ObjectState.Shape;
      os.copyOnWriteOwner := cowKey;
      objects := objects[mo := os];
      forall s, k | s in world ensures GoodBinding(s, k) {
        assert old(GoodBinding(s, k));
        assert old(k in s.objects ==> s.objects[k] != os && s.objects[k].concreteStore != os.concreteStore);
      }
      forall s, k, t, k' | s in world && t in world ensures Apart(s, k, t, k') {
        assert old(Apart(s, k, t, k'));
        assert old(k in s.objects ==> s.objects[k] != os && s.objects[k].concreteStore != os.concreteStore);
        assert old(k' in t.objects ==> t.objects[k'] != os && t.objects[k'].concreteStore != os.concreteStore);
      }
    }

    method UnbindObject(mo: MemoryObject, ghost world: set<AddressSpace>)
      requires this in world && Isolated(world)
      modifies this`objects
      ensures objects == old(objects) - {mo}
      ensures forall s, k, env :: s in world && !(s == this && k == mo) ==> View(s, k, env) == old(View(s, k, env))
      ensures Isolated(world)
    {
      hide ObjectState.Valid, ObjectState.Contents, ObjectState.Shape;
      objects := objects - {mo};
      forall s, k | s in world ensures GoodBinding(s, k) {
        assert old(GoodBinding(s, k));
      }
      forall s, k, t, k' | s in world && t in world ensures Apart(s, k, t, k') {
        assert old(Apart(s, k, t, k'));
      }
    }

    /** An object state that may be written: the bound one if this space owns
        it, otherwise a copy that takes its place here. */
    method GetWriteable(mo: MemoryObject, ghost world: set<AddressSpace>) returns (os: ObjectState)
      requires this in world && Isolated(world)
      requires mo in objects && GoodBinding(this, mo) && !objects[mo].readOnly
      modifies this`objects
      ensures os.Valid() && !os.readOnly && objects == old(objects)[mo := os] && Owned(mo)
      ensures os == old(objects[mo]) || (fresh(os) && fresh(os.concreteStore))
      ensures forall env :: os.Contents(env) == old(objects[mo].Contents(env))
      ensures forall s, k, env :: s in world ==> View(s, k, env) == old(View(s, k, env))
      ensures Isolated(world)
    {
      hide ObjectState.Valid, ObjectState.Contents, ObjectState.Shape;
      os := objects[mo];
      if cowKey != os.copyOnWriteOwner {
        os := new ObjectState.Copy(os);
        os.copyOnWriteOwner := cowKey;
        objects := objects[mo := os];
        forall s, k | s in world ensures GoodBinding(s, k) {
          assert old(GoodBinding(s, k));
        }
        forall s, k, t, k' | s in world && t in world ensures Apart(s, k, t, k') {
          assert old(Apart(s, k, t, k'));
          assert old(k in s.objects ==> allocated(s.objects[k]) && allocated(s.objects[k].concreteStore));
          assert old(k' in t.objects ==> allocated(t.objects[k']) && allocated(t.objects[k'].concreteStore));
        }
      }
    }

    /** A load through this space. The object state may be shared and the load
        may rewrite its log, but nobody sees a difference. */
    method Load(mo: MemoryObject, offset: Expr, width: nat, littleEndian: bool, ghost world: set<AddressSpace>)
        returns (e: Expr)
      requires this in world && Isolated(world)
      requires mo in objects && GoodBinding(this, mo)
      requires WF(offset) && AccessWidth(width) && Addressable(offset, width, mo.size)
      modifies objects[mo]
      ensures objects[mo].readOnly == old(objects[mo].readOnly)
      ensures WF(e) && Width(e) == width
      ensures forall env :: Low(Eval(offset, env), 32) + ByteCount(width) <= |View(this, mo, env)| ==>
                Eval(e, env) == Loaded(View(this, mo, env), Low(Eval(offset, env), 32), width, littleEndian)
      ensures forall s, k, env :: s in world ==> View(s, k, env) == old(View(s, k, env))
      ensures Isolated(world)
    {
      hide ObjectState.Valid, ObjectState.Contents, WF, Width, Addressable, Loaded;
      var os := objects[mo];
      e := os.Read(offset, width, littleEndian);
      forall s, k | s in world ensures GoodBinding(s, k) {
        assert old(GoodBinding(s, k));
        assert old(Apart(this, mo, s, k));
      }
      forall s, k, env: Env | s in world ensures View(s, k, env) == old(View(s, k, env)) {
        assert old(GoodBinding(s, k));
        assert old(Apart(this, mo, s, k));
      }
      forall s, k, t, k' | s in world && t in world ensures Apart(s, k, t, k') {
        assert old(Apart(s, k, t, k'));
      }
    }

    /** A store through this space: it changes the bytes this space sees in the
        object, and nothing that any other space or object shows. */
    method Store(mo: MemoryObject, offset: Expr, value: Expr, littleEndian: bool, ghost world: set<AddressSpace>)
      requires this in world && Isolated(world)
      requires mo in objects && GoodBinding(this, mo) && !objects[mo].readOnly
      requires WF(offset) && WF(value) && AccessWidth(Width(value)) && Addressable(offset, Width(value), mo.size)
      modifies this`objects, objects[mo], objects[mo].concreteStore
      ensures objects.Keys == old(objects.Keys) && Owned(mo)
      ensures objects == old(objects)[mo := objects[mo]] && !objects[mo].readOnly && !old(objects)[mo].readOnly
      ensures forall env :: View(this, mo, env)
                == Stored(old(View(this, mo, env)), Low(Eval(offset, env), 32), Eval(value, env), Width(value),
                          littleEndian)
      ensures forall s, k, env :: s in world && !(s == this && k == mo) ==> View(s, k, env) == old(View(s, k, env))
      ensures Isolated(world)
    {
      hide ObjectState.Valid, ObjectState.Contents, WF, Width, Addressable, Stored;
      var os := GetWriteable(mo, world);
      label copied:
      assert GoodBinding(this, mo);
      os.Write(offset, value, littleEndian);
      forall s, k | s in world ensures GoodBinding(s, k) {
        assert old@copied(GoodBinding(s, k));
        assert old@copied(Apart(this, mo, s, k));
      }
      forall s, k, env: Env | s in world && !(s == this && k == mo)
        ensures View(s, k, env) == old@copied(View(s, k, env))
      {
        assert old@copied(GoodBinding(s, k));
        assert old@copied(Apart(this, mo, s, k));
      }
      forall s, k, t, k' | s in world && t in world ensures Apart(s, k, t, k') {
        assert old@copied(Apart(s, k, t, k'));
      }
    }
  }

  /** The bytes a space shows for an object under an assignment. */
  ghost function View(s: AddressSpace, mo: MemoryObject, env: Env): seq<nat>
    reads s, s.objects.Values, set o | o in s.objects.Values :: o.concreteStore
  {
    if mo in s.objects && s.objects[mo].Shape() then s.objects[mo].Contents(env) else []
  }

  /** No space of the world binds the object state or its store. */
  ghost predicate Unshared(world: set<AddressSpace>, os: ObjectState)
    reads world, set s, k | s in world && k in s.objects :: s.objects[k]
  {
    forall s, mo :: s in world && mo in s.objects ==>
      s.objects[mo] != os && s.objects[mo].concreteStore != os.concreteStore
  }

  /** A binding whose owner does not exceed the epoch of the space. */
  ghost predicate GoodBinding(s: AddressSpace, mo: MemoryObject)
    reads s, s.objects.Values, set o | o in s.objects.Values :: o.concreteStore
  {
    s.cowKey >= 1 && (mo in s.objects ==>
      && s.objects[mo].Valid() && s.objects[mo].size == mo.size
      && 1 <= s.objects[mo].copyOnWriteOwner <= s.cowKey)
  }

  /** What a space owns is bound there and nowhere else, and distinct object
      states share no storage. */
  ghost predicate Apart(s: AddressSpace, mo: MemoryObject, t: AddressSpace, mo': MemoryObject)
    reads s, s.objects.Values, t
  {
    mo in s.objects && mo' in t.objects ==>
      && (s.objects[mo] == t.objects[mo'] && s.Owned(mo) ==> s == t && mo == mo')
      && (s.objects[mo] != t.objects[mo'] ==> s.objects[mo].concreteStore != t.objects[mo'].concreteStore)
  }

  /** The invariant over all address spaces alive. */
  ghost predicate Isolated(world: set<AddressSpace>)
    reads world, set s, k | s in world && k in s.objects :: s.objects[k]
    reads set s, k | s in world && k in s.objects :: s.objects[k].concreteStore
  {
    && (forall s, mo :: s in world ==> GoodBinding(s, mo))
    && (forall s, mo, t, mo' :: s in world && t in world ==> Apart(s, mo, t, mo'))
  }
}

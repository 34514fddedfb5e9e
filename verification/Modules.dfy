/** The module framework of the script engine (`kg::scripts::duktape::module`). */
module Modules {
  import opened Duktape
  import opened Options
  import opened Registry
  import opened SearchPaths

  const MODULES := "_g_kg_modules"
  const IMPORT := "kg_import"
  const LOADER := "loader"
  const DESTORY := "destory"
  const LIBS := "libs"

  /** What a heap object serves as. */
  datatype Role = GlobalRole | RegistryRole | TypeRole(key: string) | LibsRole(key: string) | OtherRole

  // How the registry lies in the heap.

  ghost predicate IsType(heap: seq<Cell>, roles: seq<Role>, key: string, v: Value)
    requires |roles| == |heap|
  {
    && IsTable(heap, v) && roles[v.id] == TypeRole(key)
    && (LIBS in heap[v.id].vals ==>
          var libs := heap[v.id].vals[LIBS];
          IsTable(heap, libs) && roles[libs.id] == LibsRole(key))
  }

  /** The enumeration order of a table lists each of its properties once. */
  ghost predicate Listed<T>(keys: seq<string>, vals: map<string, T>) {
    && (forall k <- keys :: k in vals) && (forall k <- vals :: k in keys)
    && forall i, j :: 0 <= i < j < |keys| ==> keys[i] != keys[j]
  }

  lemma {:induction false} PutListed<T>(keys: seq<string>, vals: map<string, T>, key: string, v: T)
    requires Listed(keys, vals)
    ensures Listed(if key in vals then keys else keys + [key], vals[key := v])
  {
  }

  ghost predicate IsRegistry(heap: seq<Cell>, roles: seq<Role>, r: Value)
    requires |roles| == |heap|
  {
    && IsTable(heap, r) && roles[r.id] == RegistryRole
    && Listed(heap[r.id].keys, heap[r.id].vals)
    && forall k <- heap[r.id].vals :: IsType(heap, roles, k, heap[r.id].vals[k])
  }

  ghost function Own(cell: Cell, key: string): Option<Value>
    requires cell.Table?
  {
    if key in cell.vals then Some(cell.vals[key]) else None
  }

  ghost function EntryOf(heap: seq<Cell>, v: Value): Entry
    requires IsTable(heap, v) && (LIBS in heap[v.id].vals ==> IsTable(heap, heap[v.id].vals[LIBS]))
  {
    var cell := heap[v.id];
    Entry(Own(cell, LOADER), Own(cell, DESTORY),
          if LIBS in cell.vals then Some(heap[cell.vals[LIBS].id].vals) else None)
  }

  ghost function TypesOf(heap: seq<Cell>, roles: seq<Role>, r: Value): (w: Types)
    requires |roles| == |heap| && IsRegistry(heap, roles, r)
    ensures w.Valid()
  {
    Types(heap[r.id].keys, map k | k in heap[r.id].vals :: EntryOf(heap, heap[r.id].vals[k]))
  }

  /** Nothing changed but new objects, the registry itself, and the libraries of the type `but`. */
  ghost predicate Kept(heap: seq<Cell>, roles: seq<Role>, heap': seq<Cell>, roles': seq<Role>, but: Option<string>) {
    && |roles| == |heap| <= |roles'| == |heap'|
    && (forall i :: 0 <= i < |heap| ==> roles'[i] == roles[i])
    && forall i :: 0 <= i < |heap| && heap'[i] != heap[i] ==>
         roles[i] in {RegistryRole, OtherRole, GlobalRole} || (but.Some? && roles[i] == LibsRole(but.value))
  }

  lemma {:induction false} KeptType(heap: seq<Cell>, roles: seq<Role>, heap': seq<Cell>, roles': seq<Role>,
      but: Option<string>, k: string, v: Value)
    requires Kept(heap, roles, heap', roles', but) && but != Some(k) && IsType(heap, roles, k, v)
    ensures IsType(heap', roles', k, v) && EntryOf(heap', v) == EntryOf(heap, v)
  {
  }

  lemma {:induction false} KeptTypes(heap: seq<Cell>, roles: seq<Role>, heap': seq<Cell>, roles': seq<Role>, r: Value)
    requires Kept(heap, roles, heap', roles', None) && IsRegistry(heap, roles, r)
    ensures |roles'| == |heap'| && r.id < |heap'|
    ensures forall k <- heap[r.id].vals ::
      && IsType(heap', roles', k, heap[r.id].vals[k])
      && EntryOf(heap', heap[r.id].vals[k]) == EntryOf(heap, heap[r.id].vals[k])
  {
    forall k | k in heap[r.id].vals
      ensures IsType(heap', roles', k, heap[r.id].vals[k])
      ensures EntryOf(heap', heap[r.id].vals[k]) == EntryOf(heap, heap[r.id].vals[k])
    {
      KeptType(heap, roles, heap', roles', None, k, heap[r.id].vals[k]);
    }
  }

  /** Changes to other objects, and new objects, leave the registry as it is. */
  lemma {:induction false} FrameTypes(heap: seq<Cell>, roles: seq<Role>, heap': seq<Cell>, roles': seq<Role>, r: Value)
    requires Kept(heap, roles, heap', roles', None) && IsRegistry(heap, roles, r) && heap'[r.id] == heap[r.id]
    ensures IsRegistry(heap', roles', r) && TypesOf(heap', roles', r) == TypesOf(heap, roles, r)
  {
    KeptTypes(heap, roles, heap', roles', r);
  }

  /** Nothing changed but new objects and libraries. */
  ghost predicate Stirred(heap: seq<Cell>, roles: seq<Role>, heap': seq<Cell>, roles': seq<Role>) {
    && |roles| == |heap| <= |roles'| == |heap'|
    && (forall i :: 0 <= i < |heap| ==> roles'[i] == roles[i])
    && forall i :: 0 <= i < |heap| && heap'[i] != heap[i] ==> roles[i].LibsRole?
  }

  lemma StirredFurther(heap: seq<Cell>, roles: seq<Role>, heap1: seq<Cell>, roles1: seq<Role>,
      heap': seq<Cell>, roles': seq<Role>)
    requires Stirred(heap, roles, heap1, roles1) && Stirred(heap1, roles1, heap', roles')
    ensures Stirred(heap, roles, heap', roles')
  {
  }

  lemma StirredGlobal(heap: seq<Cell>, roles: seq<Role>, heap': seq<Cell>, roles': seq<Role>)
    requires Stirred(heap, roles, heap', roles') && GLOBAL < |heap| && roles[GLOBAL] == GlobalRole
    ensures heap'[GLOBAL] == heap[GLOBAL]
  {
  }

  lemma StirredSame(heap: seq<Cell>, roles: seq<Role>)
    requires |roles| == |heap|
    ensures Stirred(heap, roles, heap, roles)
  {
  }

  /** The registry and its type objects are the same after that. */
  lemma StirredType(heap: seq<Cell>, roles: seq<Role>, heap': seq<Cell>, roles': seq<Role>, r: Value, key: string)
    requires Stirred(heap, roles, heap', roles') && IsRegistry(heap, roles, r) && IsRegistry(heap', roles', r)
    requires key in heap[r.id].vals
    ensures var t := heap[r.id].vals[key];
      && heap'[r.id] == heap[r.id] && IsType(heap, roles, key, t) && IsType(heap', roles', key, t)
      && heap'[t.id] == heap[t.id]
  {
    assert IsType(heap, roles, key, heap[r.id].vals[key]);
    assert heap'[r.id] == heap[r.id];
    assert IsType(heap', roles', key, heap'[r.id].vals[key]);
  }

  /** Keeping a module in the libraries of a type. */
  lemma {:induction false} PutLib(heap: seq<Cell>, roles: seq<Role>, r: Value, key: string, pkg: string, v: Value)
    requires |roles| == |heap| && IsRegistry(heap, roles, r) && key in heap[r.id].vals
    requires IsType(heap, roles, key, heap[r.id].vals[key]) && LIBS in heap[heap[r.id].vals[key].id].vals
    ensures var id := heap[heap[r.id].vals[key].id].vals[LIBS].id;
      var heap' := heap[id := heap[id].Put(pkg, v)];
      && id < |heap| && heap[id].Table? && roles[id] == LibsRole(key) && IsRegistry(heap', roles, r)
      && TypesOf(heap, roles, r).entries[key].libs.Some?
      && TypesOf(heap', roles, r) == Keeping(TypesOf(heap, roles, r), key, pkg, v)
  {
    var t := heap[r.id].vals[key];
    var id := heap[t.id].vals[LIBS].id;
    var heap' := heap[id := heap[id].Put(pkg, v)];
    assert IsType(heap, roles, key, t);
    assert roles[id] == LibsRole(key) && heap'[t.id] == heap[t.id] && heap'[r.id] == heap[r.id];
    forall k | k in heap[r.id].vals && k != key
      ensures IsType(heap', roles, k, heap[r.id].vals[k])
      ensures EntryOf(heap', heap[r.id].vals[k]) == EntryOf(heap, heap[r.id].vals[k])
    {
      KeptType(heap, roles, heap', roles, Some(key), k, heap[r.id].vals[k]);
    }
    assert IsType(heap', roles, key, t);
    var e := EntryOf(heap, t);
    assert EntryOf(heap', t) == e.(libs := Some(e.libs.value[pkg := v]));
    hide IsType, EntryOf, Kept, Listed;
    MapPut(TypesOf(heap, roles, r).entries, TypesOf(heap', roles, r).entries, key, EntryOf(heap', t));
  }

  /** A new type object, its empty libraries being the object `libs`. */
  ghost function TypeCell(loader: nat, destroy: nat, libs: nat): (cell: Cell)
    ensures cell.Table?
  {
    EMPTY.Put(LOADER, Pointer(loader)).Put(DESTORY, Pointer(destroy)).Put(LIBS, Object(libs))
  }

  /** Storing a new type object and its empty libraries under a name. */
  lemma {:induction false} PutType(heap: seq<Cell>, roles: seq<Role>, r: Value, key: string, loader: nat, destroy: nat)
    requires |roles| == |heap| && IsRegistry(heap, roles, r)
    ensures var cells := heap + [TypeCell(loader, destroy, |heap| + 1), EMPTY];
      var heap' := cells[r.id := cells[r.id].Put(key, Object(|heap|))];
      var roles' := roles + [TypeRole(key), LibsRole(key)];
      && IsRegistry(heap', roles', r)
      && TypesOf(heap', roles', r) == Registered(TypesOf(heap, roles, r), key, loader, destroy)
  {
    var lo, lb := Object(|heap|), Object(|heap| + 1);
    var cell := TypeCell(loader, destroy, lb.id);
    var heap' := (heap + [cell, EMPTY])[r.id := heap[r.id].Put(key, lo)];
    var roles' := roles + [TypeRole(key), LibsRole(key)];
    assert Kept(heap, roles, heap', roles', None);
    assert heap'[lo.id] == cell && heap'[lb.id] == EMPTY && heap'[r.id] == heap[r.id].Put(key, lo);
    assert IsType(heap', roles', key, lo);
    assert EntryOf(heap', lo) == NewEntry(loader, destroy);
    hide IsType, EntryOf;
    NewType(heap, roles, heap', roles', r, key, lo);
  }

  lemma {:induction false} NewType(heap: seq<Cell>, roles: seq<Role>, heap': seq<Cell>, roles': seq<Role>,
      r: Value, key: string, v: Value)
    requires Kept(heap, roles, heap', roles', None) && IsRegistry(heap, roles, r)
    requires heap'[r.id] == heap[r.id].Put(key, v) && IsType(heap', roles', key, v)
    ensures var w := TypesOf(heap, roles, r);
      && IsRegistry(heap', roles', r)
      && TypesOf(heap', roles', r)
         == Types(if key in w.entries then w.keys else w.keys + [key], w.entries[key := EntryOf(heap', v)])
  {
    assert heap'[r.id].vals == heap[r.id].vals[key := v];
    assert heap'[r.id].keys == if key in heap[r.id].vals then heap[r.id].keys else heap[r.id].keys + [key];
    KeptTypes(heap, roles, heap', roles', r);
    PutListed(heap[r.id].keys, heap[r.id].vals, key, v);
    NewRegistry(heap, roles, heap', roles', r, key, v);
    TypesAt(heap, roles, r);
    TypesAt(heap', roles', r);
    hide *;
    MapPut(TypesOf(heap, roles, r).entries, TypesOf(heap', roles', r).entries, key, EntryOf(heap', v));
  }

  lemma {:induction false} TypesAt(heap: seq<Cell>, roles: seq<Role>, r: Value)
    requires |roles| == |heap| && IsRegistry(heap, roles, r)
    ensures var w := TypesOf(heap, roles, r);
      && w.keys == heap[r.id].keys && w.entries.Keys == heap[r.id].vals.Keys
      && forall k <- heap[r.id].vals :: w.entries[k] == EntryOf(heap, heap[r.id].vals[k])
  {
  }

  lemma {:induction false} MapPut<K, V>(m: map<K, V>, m': map<K, V>, k: K, v: V)
    requires m'.Keys == m.Keys + {k} && m'[k] == v
    requires forall j :: j in m && j != k ==> m'[j] == m[j]
    ensures m' == m[k := v]
  {
  }

  lemma {:induction false} NewRegistry(heap: seq<Cell>, roles: seq<Role>, heap': seq<Cell>, roles': seq<Role>,
      r: Value, key: string, v: Value)
    requires |roles| == |heap| <= |roles'| == |heap'| && IsRegistry(heap, roles, r)
    requires heap'[r.id] == heap[r.id].Put(key, v) && IsType(heap', roles', key, v)
    requires roles'[r.id] == roles[r.id]
    requires forall k <- heap[r.id].vals :: IsType(heap', roles', k, heap[r.id].vals[k])
    requires Listed(if key in heap[r.id].vals then heap[r.id].keys else heap[r.id].keys + [key],
                    heap[r.id].vals[key := v])
    ensures IsRegistry(heap', roles', r)
  {
    hide IsType, Listed;
  }

  lemma EmptyRegistry(heap: seq<Cell>, roles: seq<Role>, r: Value)
    requires |roles| == |heap| && IsTable(heap, r) && heap[r.id] == EMPTY && roles[r.id] == RegistryRole
    ensures IsRegistry(heap, roles, r) && TypesOf(heap, roles, r) == Types([], map[])
  {
  }

  /** A loader and the function that frees it. */
  datatype Default = Default(loader: nat, destroy: nat)

  class Module {
    const ctx: Context
    const host: Host
    /** Loader calls made so far. */
    var calls: nat
    /** The calls that freed a loader: the function and the loader. */
    var freed: seq<(nat, nat)>
    ghost var roles: seq<Role>

    ghost predicate Valid()
      reads this`roles, ctx`heap
    {
      && |roles| == |ctx.heap| && GLOBAL < |ctx.heap| && ctx.heap[GLOBAL].Table? && roles[GLOBAL] == GlobalRole
      && (MODULES in ctx.heap[GLOBAL].vals ==> IsRegistry(ctx.heap, roles, ctx.heap[GLOBAL].vals[MODULES]))
    }

    /** The registry is there. */
    ghost predicate Ready()
      reads this`roles, ctx`heap
    {
      Valid() && MODULES in ctx.heap[GLOBAL].vals
    }

    ghost function TheRegistry(): Value
      requires Ready()
      reads this`roles, ctx`heap
    {
      ctx.heap[GLOBAL].vals[MODULES]
    }

    /** The global properties but for the registry. */
    ghost function Globals(): map<string, Value>
      requires Valid()
      reads this`roles, ctx`heap
    {
      ctx.heap[GLOBAL].vals - {MODULES}
    }

    ghost predicate StirredFrom(heap: seq<Cell>, roles: seq<Role>)
      reads this`roles, ctx`heap
    {
      Stirred(heap, roles, ctx.heap, this.roles)
    }

    ghost function GetTypes(): (w: Types)
      requires Ready()
      reads this`roles, ctx`heap
      ensures w.Valid()
    {
      TypesOf(ctx.heap, roles, TheRegistry())
    }

    ghost function Current(): (s: Reg)
      requires Ready()
      reads this`roles, this`calls, ctx`heap
      ensures s.types.Valid()
    {
      Reg(GetTypes(), calls)
    }

    /** The framework in a script context it was not set up in before. */
    constructor (ctx: Context, host: Host)
      requires GLOBAL < |ctx.heap| && ctx.heap[GLOBAL].Table? && MODULES !in ctx.heap[GLOBAL].vals
      ensures Valid() && this.ctx == ctx && this.host == host && calls == 0 && freed == []
    {
      this.ctx, this.host := ctx, host;
      calls, freed := 0, [];
      roles := seq(|ctx.heap|, i => if i == GLOBAL then GlobalRole else OtherRole);
    }

    /**
     * Sets up the registry, its finaliser and the import function, and registers the loaders that come
     * with the library: the script loader and, if it is built in, the native one. Set up again, it
     * throws: the registry overwritten is finalised at once, and its finaliser removes the new one
     * without freeing a loader.
     */
    method Init(kgImport: nat, nativeDestory: nat, js: Default, c: Option<Default>) returns (ok: bool)
      requires Valid() && js.loader != 0 && (c.Some? ==> c.value.loader != 0)
      modifies this`roles, this`freed, ctx
      ensures Valid() && ok == !old(Ready()) == Ready()
      ensures Globals() == old(Globals())[IMPORT := Foreign(kgImport)]
      ensures !ok ==> freed == old(freed)
      ensures ok ==>
        && ctx.stack == old(ctx.stack)
        && ctx.finalizers == old(ctx.finalizers)[TheRegistry().id := Foreign(nativeDestory)]
        && var w := Registered(Types([], map[]), host.moduleType(js.loader), js.loader, js.destroy);
          if c.None? then GetTypes() == w && freed == old(freed)
          else var key := host.moduleType(c.value.loader);
            && GetTypes() == Registered(w, key, c.value.loader, c.value.destroy)
            && freed == old(freed) + Replaced(w, key)
    {
      hide Module.GetTypes, Registered, IsRegistry;
      Install(kgImport, nativeDestory);
      if !(MODULES in ctx.heap[GLOBAL].vals) {
        return false;
      }
      RegisterDefaults(js, c);
      return true;
    }

    /** Stores an empty registry and the import function in the global object. */
    method Install(kgImport: nat, nativeDestory: nat)
      requires Valid()
      modifies this`roles, this`freed, ctx
      ensures Valid() && freed == old(freed) && ctx.stack == old(ctx.stack) && Ready() == !old(Ready())
      ensures Globals() == old(Globals())[IMPORT := Foreign(kgImport)]
      ensures Ready() ==>
        && GetTypes() == Types([], map[])
        && ctx.finalizers == old(ctx.finalizers)[TheRegistry().id := Foreign(nativeDestory)]
    {
      hide IsRegistry, TypesOf;
      var overwritten := MODULES in ctx.heap[GLOBAL].vals;
      ctx.PushGlobalObject();
      StoreRegistry(nativeDestory);
      if overwritten {
        NativeDestory();
      }
      DefineImport(kgImport);
      ctx.Pop();
    }

    /** Stores an empty registry, with its finaliser, in the global object on top of the stack. */
    method StoreRegistry(nativeDestory: nat)
      requires Valid() && ctx.stack.Push? && ctx.stack.top == Object(GLOBAL)
      modifies this`roles, ctx
      ensures Ready() && GetTypes() == Types([], map[])
      ensures ctx.stack == old(ctx.stack) && Globals() == old(Globals())
      ensures ctx.finalizers == old(ctx.finalizers)[TheRegistry().id := Foreign(nativeDestory)]
    {
      hide IsRegistry, TypesOf;
      ghost var heap, r := ctx.heap, Object(|ctx.heap|);
      ctx.PushString(MODULES);
      ctx.PushObject();
      roles := roles + [RegistryRole];
      ctx.PushFunction(nativeDestory);
      ctx.SetFinalizer();
      ctx.PutProp();
      assert ctx.heap == (heap + [EMPTY])[GLOBAL := heap[GLOBAL].Put(MODULES, r)];
      EmptyRegistry(ctx.heap, roles, r);
    }

    /** Stores the import function in the global object on top of the stack. */
    method DefineImport(kgImport: nat)
      requires Valid() && ctx.stack.Push? && ctx.stack.top == Object(GLOBAL)
      modifies ctx`stack, ctx`heap
      ensures Valid() && Ready() == old(Ready()) && ctx.stack == old(ctx.stack)
      ensures Ready() ==> GetTypes() == old(GetTypes()) && TheRegistry() == old(TheRegistry())
      ensures Globals() == old(Globals())[IMPORT := Foreign(kgImport)]
    {
      hide IsType, Listed, EntryOf;
      ctx.PushString(IMPORT);
      ctx.PushFunction(kgImport);
      ctx.PutProp();
      if old(Ready()) {
        FrameTypes(old(ctx.heap), roles, ctx.heap, roles, old(TheRegistry()));
      }
    }

    /** Registers the loaders that come with the library. */
    method RegisterDefaults(js: Default, c: Option<Default>)
      requires Ready() && js.loader != 0 && (c.Some? ==> c.value.loader != 0)
      modifies this`roles, this`freed, ctx`stack, ctx`heap
      ensures Ready() && ctx.stack == old(ctx.stack) && TheRegistry() == old(TheRegistry())
      ensures Globals() == old(Globals())
      ensures var first := host.moduleType(js.loader);
        var w := Registered(old(GetTypes()), first, js.loader, js.destroy);
        if c.None? then GetTypes() == w && freed == old(freed) + Replaced(old(GetTypes()), first)
        else var key := host.moduleType(c.value.loader);
          && GetTypes() == Registered(w, key, c.value.loader, c.value.destroy)
          && freed == old(freed) + Replaced(old(GetTypes()), first) + Replaced(w, key)
    {
      hide Module.Valid, Module.GetTypes, Registered, Replaced;
      RegisterLoader(js.loader, js.destroy);
      if c.Some? {
        RegisterLoader(c.value.loader, c.value.destroy);
      }
    }

    /** `f(loader)` for a loader and the function that frees it. */
    method Free(f: nat, loader: nat)
      modifies this`freed
      ensures freed == old(freed) + [(f, loader)]
    {
      freed := freed + [(f, loader)];
    }

    /** Frees the loader of the type object on top of the stack, if it names a function for that. */
    method FreeLoader()
      requires ctx.stack.Push? && IsTable(ctx.heap, ctx.stack.top)
      requires LIBS in ctx.heap[ctx.stack.top.id].vals ==> IsTable(ctx.heap, ctx.heap[ctx.stack.top.id].vals[LIBS])
      modifies this`freed, ctx`stack
      ensures ctx.stack == old(ctx.stack)
      ensures freed == old(freed) + Frees(EntryOf(ctx.heap, ctx.stack.top))
    {
      var found := ctx.GetPropString(1, DESTORY);
      var f := ctx.GetPointer(1);
      ctx.Pop();
      if f != 0 {
        found := ctx.GetPropString(1, LOADER);
        var loader := ctx.GetPointer(1);
        ctx.Pop();
        Free(f, loader);
      }
    }

    /** Registers a loader under the type it names; one registered under that name before is freed. */
    method RegisterLoader(loader: nat, destroy: nat)
      requires Ready() && loader != 0
      modifies this`roles, this`freed, ctx`stack, ctx`heap
      ensures Ready() && ctx.stack == old(ctx.stack) && calls == old(calls) && TheRegistry() == old(TheRegistry())
      ensures Globals() == old(Globals())
      ensures GetTypes() == Registered(old(GetTypes()), host.moduleType(loader), loader, destroy)
      ensures freed == old(freed) + Replaced(old(GetTypes()), host.moduleType(loader))
    {
      hide IsType, Listed, Registered, EntryOf, Frees;
      ctx.PushGlobalObject();
      var found := ctx.GetPropString(1, MODULES);
      var key := host.moduleType(loader);
      found := ctx.GetPropString(1, key);
      if found {
        TypeIsTable(ctx.heap, roles, key, ctx.stack.top);
        FreeLoader();
      }
      ctx.Pop();
      StoreType(key, loader, destroy);
      ctx.Pop(2);
    }

    /** Builds a type object with empty libraries and stores it in the registry on top of the stack. */
    method StoreType(key: string, loader: nat, destroy: nat)
      requires Ready() && ctx.stack.Push? && ctx.stack.top == TheRegistry()
      modifies this`roles, ctx`stack, ctx`heap
      ensures Ready() && ctx.stack == old(ctx.stack) && ctx.heap[GLOBAL] == old(ctx.heap[GLOBAL])
      ensures GetTypes() == Registered(old(GetTypes()), key, loader, destroy)
    {
      hide IsType, Listed, Registered, TypesOf;
      PutType(ctx.heap, roles, TheRegistry(), key, loader, destroy);
      ctx.PushString(key);
      PushType(loader, destroy);
      ctx.PutProp();
      roles := roles + [TypeRole(key), LibsRole(key)];
    }

    /** Builds a type object with empty libraries on top of the stack. */
    method PushType(loader: nat, destroy: nat)
      modifies ctx`stack, ctx`heap
      ensures ctx.stack == Push(old(ctx.stack), Object(|old(ctx.heap)|))
      ensures ctx.heap == old(ctx.heap) + [TypeCell(loader, destroy, |old(ctx.heap)| + 1), EMPTY]
    {
      ghost var heap := ctx.heap;
      ctx.PushObject();
      ctx.PushString(LOADER);
      ctx.PushPointer(loader);
      ctx.PutProp();
      assert ctx.heap == heap + [EMPTY.Put(LOADER, Pointer(loader))];
      ctx.PushString(DESTORY);
      ctx.PushPointer(destroy);
      ctx.PutProp();
      assert ctx.heap == heap + [EMPTY.Put(LOADER, Pointer(loader)).Put(DESTORY, Pointer(destroy))];
      ctx.PushString(LIBS);
      ctx.PushObject();
      ctx.PutProp();
    }

    /** The finaliser of the registry: frees every loader and removes the registry. */
    method NativeDestory()
      requires Ready()
      modifies this`roles, this`freed, ctx`stack, ctx`heap
      ensures Valid() && MODULES !in ctx.heap[GLOBAL].vals && ctx.stack == old(ctx.stack) && calls == old(calls)
      ensures Globals() == old(Globals())
      ensures freed == old(freed) + FreesAll(old(GetTypes()), old(GetTypes()).keys)
    {
      hide IsType, Listed, EntryOf, Frees;
      ctx.PushGlobalObject();
      var found := ctx.GetPropString(1, MODULES);
      EnumTypes();
      FreeEach(GetTypes().keys);
      ctx.Pop(2);
      ctx.DelPropString(1, MODULES);
      ctx.Pop();
    }

    /** The registry is on the stack below an enumeration of it that has `left` still to come. */
    ghost predicate Enumerating(left: seq<string>)
      requires Ready()
      reads this`roles, ctx`stack, ctx`heap
    {
      && ctx.stack.Has(2) && ctx.stack.At(2) == TheRegistry()
      && IsEnum(ctx.heap, ctx.stack.At(1)) && roles[ctx.stack.At(1).id] == OtherRole
      && ctx.heap[ctx.stack.At(1).id] == Enumerator(TheRegistry().id, left)
    }

    /** `duk_enum` of the registry on top of the stack. */
    method EnumTypes()
      requires Ready() && ctx.stack.Push? && ctx.stack.top == TheRegistry()
      modifies this`roles, ctx`stack, ctx`heap
      ensures Ready() && GetTypes() == old(GetTypes()) && TheRegistry() == old(TheRegistry())
      ensures Enumerating(GetTypes().keys) && (forall k <- GetTypes().keys :: k in GetTypes().entries)
      ensures ctx.stack.below == old(ctx.stack)
      ensures ctx.stack.top == Object(|old(ctx.heap)|) && StirredFrom(old(ctx.heap), old(roles))
    {
      hide IsType, Listed, EntryOf;
      ghost var reg := TheRegistry();
      ctx.Enum(1);
      roles := roles + [OtherRole];
      FrameTypes(old(ctx.heap), old(roles), ctx.heap, roles, reg);
    }

    /** `duk_next` for the enumeration on top of the stack. */
    method NextType(ghost left: seq<string>) returns (more: bool)
      requires Ready() && Enumerating(left) && forall k <- left :: k in GetTypes().entries
      modifies ctx`stack, ctx`heap
      ensures Ready() && GetTypes() == old(GetTypes()) && ctx.heap[GLOBAL] == old(ctx.heap[GLOBAL])
      ensures more == (left != [])
      ensures if more
              then && ctx.stack == Push(Push(old(ctx.stack), Text(left[0])), ctx.heap[TheRegistry().id].vals[left[0]])
                   && IsType(ctx.heap, roles, left[0], ctx.stack.top)
                   && EntryOf(ctx.heap, ctx.stack.top) == GetTypes().entries[left[0]]
                   && IsEnum(ctx.heap, old(ctx.stack).top)
                   && ctx.heap == old(ctx.heap)[old(ctx.stack).top.id := Enumerator(TheRegistry().id, left[1..])]
              else ctx.stack == old(ctx.stack) && ctx.heap == old(ctx.heap)
    {
      more := ctx.Next();
      FrameTypes(old(ctx.heap), roles, ctx.heap, roles, TheRegistry());
    }

    /** The loop of the finaliser. */
    method FreeEach(ghost keys: seq<string>)
      requires Ready() && Enumerating(keys) && forall k <- keys :: k in GetTypes().entries
      modifies this`freed, ctx`stack, ctx`heap
      ensures Ready() && ctx.stack == old(ctx.stack) && ctx.heap[GLOBAL] == old(ctx.heap[GLOBAL])
      ensures freed == old(freed) + FreesAll(old(GetTypes()), keys)
    {
      hide IsType, IsRegistry, TypesOf, Types.Valid, EntryOf, Frees;
      ghost var w, left := GetTypes(), keys;
      var more := true;
      while more
        invariant Ready() && GetTypes() == w && ctx.stack == old(ctx.stack)
        invariant ctx.heap[GLOBAL] == old(ctx.heap[GLOBAL])
        invariant Enumerating(left) && (forall k <- left :: k in w.entries) && (!more ==> left == [])
        invariant freed + FreesAll(w, left) == old(freed) + FreesAll(w, keys)
        decreases |left|, more
      {
        more := NextType(left);
        if more {
          TypeIsTable(ctx.heap, roles, left[0], ctx.stack.top);
          FreeLoader();
          ctx.Pop(2);
          left := left[1..];
        }
      }
    }

    /** `loader->module_import(ctx, path)`: leaves one value on the stack. */
    method ModuleImport(loader: nat, path: string, depth: nat) returns (ok: bool)
      requires Ready()
      modifies this`calls, this`roles, ctx`stack, ctx`heap
      ensures Ready() && TheRegistry() == old(TheRegistry()) && StirredFrom(old(ctx.heap), old(roles))
      ensures var (a, s) := Loaded(host, old(Current()), loader, path, depth);
        ok == a.ok && ctx.stack == Push(old(ctx.stack), a.value) && Current() == s
      decreases depth, 1
    {
      hide IsRegistry, TypesOf, Nested, Perform, Stirred, Grows, Types.Valid;
      var load, results: seq<Result> := Load(loader, path, calls), [];
      calls := calls + 1;
      StirredSame(ctx.heap, roles);
      ghost var s := Current();
      while |results| < host.asks(load) && host.next(load, results).Some?
        invariant Ready() && TheRegistry() == old(TheRegistry()) && ctx.stack == old(ctx.stack)
        invariant StirredFrom(old(ctx.heap), old(roles))
        invariant Perform(host, Current(), load, results, depth) == Perform(host, s, load, [], depth)
        decreases host.asks(load) - |results|
      {
        ghost var heap, before := ctx.heap, roles;
        PerformNext(host, Current(), load, results, depth);
        var result := CallImport(host.next(load, results).value, depth);
        StirredFurther(old(ctx.heap), old(roles), heap, before, ctx.heap, roles);
        results := results + [result];
      }
      PerformNext(host, Current(), load, results, depth);
      var a := host.answer(load, results);
      ctx.PushValue(a.value);
      ok := a.ok;
    }

    /** A script calls `kg_import`, on a frame of its own; the engine drops what is left there. */
    method CallImport(request: Request, depth: nat) returns (r: Result)
      requires Ready()
      modifies this`calls, this`roles, ctx`stack, ctx`heap
      ensures Ready() && TheRegistry() == old(TheRegistry()) && StirredFrom(old(ctx.heap), old(roles))
      ensures ctx.stack == old(ctx.stack) && (r, Current()) == Nested(host, old(Current()), request, depth)
      ensures Globals() == old(Globals())
      decreases depth, 0
    {
      hide IsRegistry, TypesOf, Typed, Untyped, Stirred;
      if depth == 0 {
        StirredSame(ctx.heap, roles);
        return Thrown(TooDeep);
      }
      var frame := ctx.stack;
      var key := if request.key.Some? then Text(request.key.value) else Undefined;
      ctx.stack := Push(Push(Bottom, Text(request.pkg)), key);
      r := NativeImport(depth - 1);
      ctx.stack := frame;
    }

    /** The libraries of the type `key` are on top of the stack. */
    ghost predicate AtLibs(key: string)
      requires Ready()
      reads this`roles, ctx`stack, ctx`heap
    {
      && ctx.stack.Push? && key in GetTypes().entries
      && var t := ctx.heap[TheRegistry().id].vals[key];
        IsType(ctx.heap, roles, key, t) && Own(ctx.heap[t.id], LIBS) == Some(ctx.stack.top)
    }

    /** `... libs obj -> ... libs obj`, the module on top being kept under its name. */
    method CacheModule(ghost key: string, pkg: string)
      requires Ready() && key in GetTypes().entries && ctx.stack.Has(2)
      requires var t := ctx.heap[TheRegistry().id].vals[key];
        IsType(ctx.heap, roles, key, t) && Own(ctx.heap[t.id], LIBS) == Some(ctx.stack.At(2))
      modifies ctx`stack, ctx`heap
      ensures Ready() && ctx.heap[GLOBAL] == old(ctx.heap[GLOBAL]) && ctx.stack == old(ctx.stack)
      ensures TheRegistry() == old(TheRegistry()) && StirredFrom(old(ctx.heap), old(roles))
      ensures GetTypes() == Keeping(old(GetTypes()), key, pkg, ctx.stack.top)
    {
      hide IsRegistry, TypesOf, EntryOf, Keeping, Types.Valid;
      TypeKnown(key);
      RegistryKnown();
      assert ctx.heap[ctx.heap[TheRegistry().id].vals[key].id].vals[LIBS] == ctx.stack.At(2);
      PutLib(ctx.heap, roles, TheRegistry(), key, pkg, ctx.stack.top);
      ctx.DupTop();
      ctx.PutPropString(3, pkg);
      assert ctx.heap[GLOBAL] == old(ctx.heap)[GLOBAL];
    }

    /** How a type of the registry lies in the heap. */
    lemma TypeKnown(key: string)
      requires Ready() && key in GetTypes().entries
      ensures key in ctx.heap[TheRegistry().id].vals
      ensures var t, e := ctx.heap[TheRegistry().id].vals[key], GetTypes().entries[key];
        && IsTable(ctx.heap, t) && IsType(ctx.heap, roles, key, t) && e.loader == Own(ctx.heap[t.id], LOADER)
        && (e.libs.Some? <==> LIBS in ctx.heap[t.id].vals)
        && (e.libs.Some? ==>
              var libs := ctx.heap[t.id].vals[LIBS];
              IsTable(ctx.heap, libs) && ctx.heap[libs.id].vals == e.libs.value)
    {
      assert GetTypes().entries[key] == EntryOf(ctx.heap, ctx.heap[TheRegistry().id].vals[key]);
    }

    lemma RegistryKnown()
      requires Ready()
      ensures IsTable(ctx.heap, TheRegistry()) && roles[TheRegistry().id] == RegistryRole
      ensures ctx.heap[TheRegistry().id].vals.Keys == GetTypes().entries.Keys
    {
    }

    lemma LibsKnown(key: string)
      requires Ready() && AtLibs(key)
      ensures key in ctx.heap[TheRegistry().id].vals
      ensures key in GetTypes().entries && GetTypes().entries[key].libs.Some?
    {
    }

    /** The search came to `r`: what was found is on top of the stack, and kept if it is a module. */
    ghost predicate Searched(key: string, pkg: string, r: (Option<Answer>, Reg), stack: Stack, found: bool)
      requires Ready()
      reads this`roles, this`calls, ctx`stack, ctx`heap
    {
      && found == r.0.Some?
      && ctx.stack == (if found then Push(stack, r.0.value.value) else stack)
      && key in r.1.types.entries && r.1.types.entries[key].libs.Some?
      && Current() ==
         if found && r.0.value.ok then r.1.(types := Keeping(r.1.types, key, pkg, r.0.value.value)) else r.1
    }

    /** Loads the module at one place; the libraries on top of the stack keep what is loaded. */
    method ImportPath(ghost key: string, loader: nat, pkg: string, path: string, depth: nat) returns (found: bool)
      requires Ready() && AtLibs(key)
      modifies this`calls, this`roles, ctx`stack, ctx`heap
      ensures Ready() && TheRegistry() == old(TheRegistry()) && StirredFrom(old(ctx.heap), old(roles))
      ensures var (a, s) := Loaded(host, old(Current()), loader, path, depth);
        Searched(key, pkg, (if a.ok || a.value != Undefined then Some(a) else None, s), old(ctx.stack), found)
      ensures !found ==> AtLibs(key)
      decreases depth, 2
    {
      hide IsRegistry, TypesOf, IsType, Keeping, Loaded, Stirred;
      LibsKnown(key);
      ghost var heap, before := ctx.heap, roles;
      var ok := ModuleImport(loader, path, depth);
      StirredType(heap, before, ctx.heap, roles, TheRegistry(), key);
      GrownLibs(old(Current()), Current(), key);
      found := ok || ctx.stack.top != Undefined;
      if ok {
        ghost var heap1, roles1 := ctx.heap, roles;
        CacheModule(key, pkg);
        StirredFurther(heap, before, heap1, roles1, ctx.heap, roles);
      } else if !found {
        ctx.Pop();
      }
    }

    /** Searches the loader's path for `pkg`; the libraries on top of the stack keep what is loaded. */
    method ImportPkg(ghost key: string, loader: nat, pkg: string, depth: nat) returns (found: bool)
      requires Ready() && AtLibs(key)
      modifies this`calls, this`roles, ctx`stack, ctx`heap
      ensures Ready() && TheRegistry() == old(TheRegistry()) && StirredFrom(old(ctx.heap), old(roles))
      ensures var r := Search(host, old(Current()), loader, pkg, Dirs(host, loader), depth);
        Searched(key, pkg, r, old(ctx.stack), found)
      decreases depth, 4
    {
      hide IsRegistry, TypesOf, IsType, Keeping, Loaded, Stirred, Search, Trim, Split, Grows, AtLibs, Types.Valid;
      hide RegGrows;
      LibsKnown(key);
      StirredSame(ctx.heap, roles);
      SearchNext(host, Current(), loader, pkg, [], depth);
      ghost var s := Current();
      GrownLibs(s, Search(host, s, loader, pkg, Dirs(host, loader), depth).1, key);
      var str := host.searchPath(loader);
      if str == None {
        return false;
      }
      var env := Trim(str.value);
      found := ImportFirst(key, loader, pkg, Split(env, FLAG), depth);
    }

    /** The loop over the directories of the search path. */
    method ImportFirst(ghost key: string, loader: nat, pkg: string, tokens: seq<string>, depth: nat)
      returns (found: bool)
      requires Ready() && AtLibs(key)
      modifies this`calls, this`roles, ctx`stack, ctx`heap
      ensures Ready() && TheRegistry() == old(TheRegistry()) && StirredFrom(old(ctx.heap), old(roles))
      ensures Searched(key, pkg, Search(host, old(Current()), loader, pkg, tokens, depth), old(ctx.stack), found)
      decreases depth, 3
    {
      hide IsRegistry, TypesOf, IsType, Loaded, Stirred, Search, Trim, Split, Grows, Types.Valid;
      StirredSame(ctx.heap, roles);
      ghost var r := Search(host, Current(), loader, pkg, tokens, depth);
      assert tokens[0..] == tokens;
      var i := 0;
      while i < |tokens|
        invariant i <= |tokens|
        invariant Ready() && TheRegistry() == old(TheRegistry()) && StirredFrom(old(ctx.heap), old(roles))
        invariant ctx.stack == old(ctx.stack) && AtLibs(key)
        invariant Search(host, Current(), loader, pkg, tokens[i..], depth) == r
      {
        assert tokens[i..][1..] == tokens[i + 1..];
        SearchNext(host, Current(), loader, pkg, tokens[i..], depth);
        var lib := Trim(tokens[i]);
        if lib != [] {
          ghost var heap, before := ctx.heap, roles;
          found := ImportPath(key, loader, pkg, host.modulePath(loader, lib, pkg), depth);
          StirredFurther(old(ctx.heap), old(roles), heap, before, ctx.heap, roles);
          if found {
            return;
          }
        }
        i := i + 1;
      }
      assert tokens[i..] == [];
      SearchNext(host, Current(), loader, pkg, [], depth);
      LibsKnown(key);
      return false;
    }

    /** `kg_import`: the package and the module type are the two arguments on the stack. */
    method NativeImport(depth: nat) returns (r: Result)
      requires Valid() && ctx.stack.Has(2)
      modifies this`calls, this`roles, ctx`stack, ctx`heap
      ensures Valid() && (old(Ready()) ==> Ready() && TheRegistry() == old(TheRegistry()))
      ensures StirredFrom(old(ctx.heap), old(roles)) && Globals() == old(Globals())
      ensures var arg0, arg1 := old(ctx.stack).At(2), old(ctx.stack).At(1);
        if !arg0.Text? then r == Thrown(NoModuleName) && calls == old(calls)
        else if !old(Ready()) then r == Thrown(NoModules) && calls == old(calls)
        else
          var request := Request(arg0.s, if arg1.Text? then Some(arg1.s) else None);
          (r, Current()) == Imported(host, old(Current()), request, depth)
      ensures !old(ctx.stack).At(2).Text? && old(Ready()) ==> GetTypes() == old(GetTypes())
      ensures r.Returned? ==> ctx.stack.Push? && ctx.stack.top == r.value
      decreases depth, 9
    {
      hide IsRegistry, TypesOf, Typed, Untyped, Stirred;
      StirredSame(ctx.heap, roles);
      if !ctx.stack.At(2).Text? {
        ctx.PushString("module name can't be empty");
        return Thrown(NoModuleName);
      }
      var key := if ctx.stack.At(1).Text? then Some(ctx.stack.At(1).s) else None;
      var pkg := ctx.stack.At(2).s;
      ctx.Pop(2);
      var found := ctx.GetGlobalString(MODULES);
      if !found {
        ctx.PushString("_g_kg_modules not define");
        return Thrown(NoModules);
      }
      if key.Some? {
        r := ImportTyped(key.value, pkg, depth);
      } else {
        r := ImportUntyped(pkg, depth);
      }
      StirredGlobal(old(ctx.heap), old(roles), ctx.heap, roles);
    }

    /** The part of `kg_import` for a given module type, the registry being on top of the stack. */
    method ImportTyped(key: string, pkg: string, depth: nat) returns (r: Result)
      requires Ready() && ctx.stack.Push? && ctx.stack.top == TheRegistry()
      modifies this`calls, this`roles, ctx`stack, ctx`heap
      ensures Ready() && TheRegistry() == old(TheRegistry()) && StirredFrom(old(ctx.heap), old(roles))
      ensures (r, Current()) == Typed(host, old(Current()), key, pkg, depth)
      ensures r.Returned? ==> ctx.stack.Push? && ctx.stack.top == r.value
      decreases depth, 7
    {
      hide IsRegistry, TypesOf, Try, Stirred;
      StirredSame(ctx.heap, roles);
      RegistryKnown();
      var found := ctx.GetPropString(1, key);
      if !found {
        return Thrown(NoLoader(key));
      }
      assert key in GetTypes().entries;
      var tried := ImportFrom(key, pkg, depth);
      match tried
      case WithoutLibs => return Thrown(NotLibs(key));
      case WithoutLoader => return Thrown(NotLoader(key));
      case Missing => return Thrown(NoLoaderModule(key, pkg));
      case Found(v) => return Returned(v);
    }

    /**
     * Imports from the type object on top of the stack. Where there is nothing to be had, what was
     * looked at last stays on the stack.
     */
    method ImportFrom(ghost key: string, pkg: string, depth: nat) returns (tried: Tried)
      requires Ready() && ctx.stack.Has(1) && key in GetTypes().entries
      requires ctx.stack.top == ctx.heap[TheRegistry().id].vals[key]
      modifies this`calls, this`roles, ctx`stack, ctx`heap
      ensures Ready() && TheRegistry() == old(TheRegistry()) && StirredFrom(old(ctx.heap), old(roles))
      ensures (tried, Current()) == Try(host, old(Current()), key, pkg, depth)
      ensures LeftBehind(tried, old(ctx.stack))
      decreases depth, 6
    {
      hide Search, Dirs, Listed, IsRegistry, TypesOf, Offered, Try, Stirred, RegGrows, Types.Valid, EntryOf, IsType;
      TypeKnown(key);
      StirredSame(ctx.heap, roles);
      TryNext(host, Current(), key, pkg, depth);
      var found := ctx.GetPropString(1, LIBS);
      if !found {
        tried := WithoutLibs;
      } else {
        found := ctx.GetPropString(1, pkg);
        if found {
          tried := Found(ctx.stack.top);
        } else {
          ctx.Pop();
          tried := AskLoader(key, pkg, depth);
        }
      }
    }

    /** What an import that ended with `tried` leaves on the stack above a type object. */
    ghost predicate LeftBehind(tried: Tried, stack: Stack)
      reads ctx`stack
    {
      && ctx.stack.Push?
      && match tried
         case WithoutLibs => ctx.stack.below == stack
         case WithoutLoader => ctx.stack.below.Push? && ctx.stack.below.below == stack
         case Missing => ctx.stack.below == stack
         case Found(v) => ctx.stack.top == v
    }

    /** The same once the type's libraries, on top of the stack, do not hold the module. */
    method AskLoader(ghost key: string, pkg: string, depth: nat) returns (tried: Tried)
      requires Ready() && ctx.stack.Has(2) && AtLibs(key) && IsTable(ctx.heap, ctx.stack.At(2))
      requires Own(ctx.heap[ctx.stack.At(2).id], LOADER) == GetTypes().entries[key].loader
      modifies this`calls, this`roles, ctx`stack, ctx`heap
      ensures Ready() && TheRegistry() == old(TheRegistry()) && StirredFrom(old(ctx.heap), old(roles))
      ensures var s, p := old(Current()), Address(old(GetTypes()).entries[key].loader);
        if p == 0 then (tried, Current()) == (WithoutLoader, s)
        else
          var (found, s1) := Search(host, s, p, pkg, Dirs(host, p), depth);
          && key in s1.types.entries && s1.types.entries[key].libs.Some?
          && (tried, Current()) == Offered(s1, key, pkg, found)
      ensures LeftBehind(tried, old(ctx.stack).below)
      decreases depth, 5
    {
      hide Search, Dirs, Listed, IsRegistry, TypesOf, IsType, Stirred, RegGrows, Types.Valid, AtLibs, Keeping;
      StirredSame(ctx.heap, roles);
      var loader := PushLoader();
      if loader == 0 {
        tried := WithoutLoader;
      } else {
        ctx.Pop();
        var found := ImportPkg(key, loader, pkg, depth);
        tried := if found then Found(ctx.stack.top) else Missing;
      }
    }

    /** `... type libs -> ... type libs loader`; 0 without a loader, be the property missing or null. */
    method PushLoader() returns (loader: nat)
      requires ctx.stack.Has(2) && IsTable(ctx.heap, ctx.stack.At(2))
      modifies ctx`stack
      ensures ctx.stack.Push? && ctx.stack.below == old(ctx.stack)
      ensures loader == Address(Own(ctx.heap[old(ctx.stack).At(2).id], LOADER))
    {
      var found := ctx.GetPropString(2, LOADER);
      if !found {
        return 0;
      }
      return ctx.GetPointer(1);
    }

    /** The part of `kg_import` that tries all types, the registry being on top of the stack. */
    method ImportUntyped(pkg: string, depth: nat) returns (r: Result)
      requires Ready() && ctx.stack.Push? && ctx.stack.top == TheRegistry()
      modifies this`calls, this`roles, ctx`stack, ctx`heap
      ensures Ready() && TheRegistry() == old(TheRegistry()) && StirredFrom(old(ctx.heap), old(roles))
      ensures (r, Current()) == Untyped(host, old(Current()), old(GetTypes()).keys, pkg, depth)
      ensures r.Returned? ==> ctx.stack.Push? && ctx.stack.top == r.value
      decreases depth, 8
    {
      hide IsRegistry, IsType, Listed, EntryOf, TypesOf, Try, Untyped, Stirred, EntryGrows, Types.Valid;
      EnumTypes();
      ghost var result := Untyped(host, Current(), GetTypes().keys, pkg, depth);
      ghost var left, stack := GetTypes().keys, ctx.stack;
      var more := true;
      while more
        invariant Ready() && TheRegistry() == old(TheRegistry()) && StirredFrom(old(ctx.heap), old(roles))
        invariant ctx.stack == stack && stack.top.id >= |old(ctx.heap)|
        invariant Enumerating(left) && (forall k <- left :: k in GetTypes().entries) && (!more ==> left == [])
        invariant Untyped(host, Current(), left, pkg, depth) == result
        decreases |left|, more
      {
        ghost var heap, before := ctx.heap, roles;
        UntypedNext(host, Current(), left, pkg, depth);
        more := NextType(left);
        if more {
          NewStirred(old(ctx.heap), old(roles), heap, before, stack.top.id, ctx.heap[stack.top.id]);
          ghost var heap1, roles1 := ctx.heap, roles;
          var found := TryType(left[0], pkg, depth);
          StirredFurther(old(ctx.heap), old(roles), heap1, roles1, ctx.heap, roles);
          if found {
            return Returned(ctx.stack.top);
          }
          RegistryKnown();
          StirredEnum(heap1, roles1, ctx.heap, roles, stack.top, TheRegistry());
          left := left[1..];
        }
      }
      ctx.Pop();
      UntypedNext(host, Current(), left, pkg, depth);
      return Thrown(NoModule(pkg));
    }

    /** One turn of the untyped loop: a type's name and object are on the stack and are taken off again. */
    method TryType(ghost key: string, pkg: string, depth: nat) returns (found: bool)
      requires Ready() && ctx.stack.Has(2) && key in GetTypes().entries
      requires ctx.stack.top == ctx.heap[TheRegistry().id].vals[key]
      modifies this`calls, this`roles, ctx`stack, ctx`heap
      ensures Ready() && TheRegistry() == old(TheRegistry()) && StirredFrom(old(ctx.heap), old(roles))
      ensures var (tried, s) := Try(host, old(Current()), key, pkg, depth);
        && found == tried.Found? && Current() == s
        && if found then ctx.stack.Push? && ctx.stack.top == tried.value else ctx.stack == old(ctx.stack).below.below
      decreases depth, 7
    {
      hide Listed, IsRegistry, TypesOf, Try, Stirred, Grows, Types.Valid;
      var tried := ImportFrom(key, pkg, depth);
      found := tried.Found?;
      match tried
      case Found(_) =>
      case WithoutLoader => ctx.Pop(4);
      case _ => ctx.Pop(3);
    }
  }

  /** What becomes of a search for a type's module. */
  function Offered(s: Reg, key: string, pkg: string, found: Option<Answer>): (Tried, Reg)
    requires key in s.types.entries && s.types.entries[key].libs.Some?
  {
    if found.None? then (Missing, s)
    else
      var a := found.value;
      (Found(a.value), if a.ok then s.(types := Keeping(s.types, key, pkg, a.value)) else s)
  }

  /** What a type has to offer, in terms of the search of its loader. */
  lemma TryNext(host: Host, s: Reg, key: string, pkg: string, depth: nat)
    requires s.types.Valid() && key in s.types.entries
    ensures var e, tried := s.types.entries[key], Try(host, s, key, pkg, depth);
      if e.libs.None? then tried == (WithoutLibs, s)
      else if pkg in e.libs.value then tried == (Found(e.libs.value[pkg]), s)
      else if Address(e.loader) == 0 then tried == (WithoutLoader, s)
      else
        var (found, s1) := Search(host, s, Address(e.loader), pkg, Dirs(host, Address(e.loader)), depth);
        && key in s1.types.entries && s1.types.entries[key].libs.Some?
        && tried == Offered(s1, key, pkg, found)
  {
    hide Search;
    var e := s.types.entries[key];
    if e.libs.Some? {
      GrownLibs(s, Search(host, s, Address(e.loader), pkg, Dirs(host, Address(e.loader)), depth).1, key);
    }
  }

  /** A change to an object that was new. */
  lemma NewStirred(heap: seq<Cell>, roles: seq<Role>, heap1: seq<Cell>, roles1: seq<Role>, id: nat, cell: Cell)
    requires Stirred(heap, roles, heap1, roles1) && |heap| <= id < |heap1|
    ensures Stirred(heap, roles, heap1[id := cell], roles1)
  {
  }

  /** An enumeration is as it was. */
  lemma StirredEnum(heap: seq<Cell>, roles: seq<Role>, heap': seq<Cell>, roles': seq<Role>, v: Value, r: Value)
    requires Stirred(heap, roles, heap', roles') && IsEnum(heap, v) && roles[v.id] == OtherRole
    requires r.Object? && heap[v.id].target == r.id && roles'[r.id] == RegistryRole
    ensures IsEnum(heap', v) && heap'[v.id] == heap[v.id] && roles'[v.id] == OtherRole
  {
    assert heap'[v.id] == heap[v.id];
  }

  /** One turn of what a loader does. */
  lemma PerformNext(host: Host, s: Reg, load: Load, results: seq<Result>, depth: nat)
    requires s.types.Valid()
    ensures var request := host.next(load, results);
      Perform(host, s, load, results, depth) ==
        if request.None? || |results| >= host.asks(load) then (host.answer(load, results), s)
        else
          var (result, s1) := Nested(host, s, request.value, depth);
          Perform(host, s1, load, results + [result], depth)
  {
    hide Nested;
  }

  /** One turn of the untyped loop. */
  lemma UntypedNext(host: Host, s: Reg, keys: seq<string>, pkg: string, depth: nat)
    requires s.types.Valid() && forall k <- keys :: k in s.types.entries
    ensures Untyped(host, s, keys, pkg, depth) ==
      if keys == [] then (Thrown(NoModule(pkg)), s)
      else
        var (tried, s1) := Try(host, s, keys[0], pkg, depth);
        if tried.Found? then (Returned(tried.value), s1) else Untyped(host, s1, keys[1..], pkg, depth)
  {
    hide Try;
  }

  /** One turn of the search. */
  lemma SearchNext(host: Host, s: Reg, loader: nat, pkg: string, dirs: seq<string>, depth: nat)
    requires s.types.Valid()
    ensures Search(host, s, loader, pkg, dirs, depth) ==
      if dirs == [] then (None, s)
      else if Trim(dirs[0]) == [] then Search(host, s, loader, pkg, dirs[1..], depth)
      else
        var (a, s1) := Loaded(host, s, loader, host.modulePath(loader, Trim(dirs[0]), pkg), depth);
        if a.ok || a.value != Undefined then (Some(a), s1) else Search(host, s1, loader, pkg, dirs[1..], depth)
  {
    hide Loaded;
  }

  lemma GrownLibs(s: Reg, s': Reg, key: string)
    requires RegGrows(s, s') && key in s.types.entries && s.types.entries[key].libs.Some?
    ensures key in s'.types.entries && s'.types.entries[key].libs.Some?
  {
    assert EntryGrows(s.types.entries[key], s'.types.entries[key]);
  }

  lemma {:induction false} TypeIsTable(heap: seq<Cell>, roles: seq<Role>, key: string, v: Value)
    requires |roles| == |heap| && IsType(heap, roles, key, v)
    ensures IsTable(heap, v) && (LIBS in heap[v.id].vals ==> IsTable(heap, heap[v.id].vals[LIBS]))
  {
  }
}

/** Who frees the loaders, over whole runs of imports and registrations. */
module LoaderRuns {
  import opened Duktape
  import opened Options
  import opened Registry
  import opened RegistryRuns
  import opened SearchPaths

  lemma {:induction false} FreesAllAppend(w: Types, a: seq<string>, b: seq<string>)
    requires forall k <- a + b :: k in w.entries
    ensures (forall k <- a :: k in w.entries) && (forall k <- b :: k in w.entries)
    ensures FreesAll(w, a + b) == FreesAll(w, a) + FreesAll(w, b)
  {
    assert forall k <- a :: k in a + b;
    assert forall k <- b :: k in a + b;
    if a == [] {
      assert a + b == b;
    } else {
      assert (a + b)[1..] == a[1..] + b;
      FreesAllAppend(w, a[1..], b);
    }
  }

  lemma {:induction false} FreesAllUnchanged(w: Types, w': Types, keys: seq<string>)
    requires forall k <- keys :: k in w.entries && k in w'.entries && Frees(w'.entries[k]) == Frees(w.entries[k])
    ensures FreesAll(w', keys) == FreesAll(w, keys)
  {
    if keys != [] {
      FreesAllUnchanged(w, w', keys[1..]);
    }
  }

  lemma {:induction false} Exchange<T>(a: seq<T>, x: seq<T>, y: seq<T>, b: seq<T>)
    ensures multiset(a + (y + b)) + multiset(x) == multiset(a + (x + b)) + multiset(y)
  {
  }

  lemma {:induction false} FreesAllSplit(w: Types, keys: seq<string>, i: nat)
    requires i < |keys| && forall k <- keys :: k in w.entries
    ensures (forall k <- keys[..i] :: k in w.entries) && (forall k <- keys[i + 1..] :: k in w.entries)
    ensures FreesAll(w, keys)
         == FreesAll(w, keys[..i]) + (Frees(w.entries[keys[i]]) + FreesAll(w, keys[i + 1..]))
  {
    var a, b := keys[..i], [keys[i]] + keys[i + 1..];
    assert keys == a + b && b[1..] == keys[i + 1..];
    FreesAllAppend(w, a, b);
  }

  /** A type registered again: the list of loaders to free changes in the one place. */
  lemma {:induction false} ReplacedOwes(w: Types, key: string, e: Entry)
    requires w.Valid() && key in w.entries
    ensures var w' := Types(w.keys, w.entries[key := e]);
      && w'.Valid()
      && multiset(FreesAll(w', w.keys)) + multiset(Frees(w.entries[key]))
         == multiset(FreesAll(w, w.keys)) + multiset(Frees(e))
  {
    var w' := Types(w.keys, w.entries[key := e]);
    var i :| 0 <= i < |w.keys| && w.keys[i] == key;
    var a, b := w.keys[..i], w.keys[i + 1..];
    assert key !in a && key !in b;
    hide Frees, FreesAll;
    assert forall k <- w.keys :: k in w.entries;
    assert w'.Valid();
    hide Types.Valid;
    FreesAllSplit(w, w.keys, i);
    FreesAllSplit(w', w.keys, i);
    FreesAllUnchanged(w, w', a);
    FreesAllUnchanged(w, w', b);
    Exchange(FreesAll(w, a), Frees(w.entries[key]), Frees(e), FreesAll(w, b));
  }

  lemma {:induction false} AddedOwes(w: Types, key: string, e: Entry)
    requires w.Valid() && key !in w.entries
    ensures var w' := Types(w.keys + [key], w.entries[key := e]);
      w'.Valid() && FreesAll(w', w'.keys) == FreesAll(w, w.keys) + Frees(e)
  {
    var w' := Types(w.keys + [key], w.entries[key := e]);
    FreesAllUnchanged(w, w', w.keys);
    FreesAllAppend(w', w.keys, [key]);
    assert FreesAll(w', [key]) == Frees(e) + FreesAll(w', []) == Frees(e);
  }

  /** Registering frees the loader it replaces and owes the new one. */
  lemma {:induction false} RegisteredOwes(w: Types, key: string, loader: nat, destroy: nat)
    requires w.Valid()
    ensures var w' := Registered(w, key, loader, destroy);
      && w'.Valid()
      && multiset(FreesAll(w', w'.keys)) + multiset(Replaced(w, key))
         == multiset(FreesAll(w, w.keys)) + multiset(Frees(NewEntry(loader, destroy)))
  {
    hide Frees, FreesAll;
    if key in w.entries {
      ReplacedOwes(w, key, NewEntry(loader, destroy));
    } else {
      AddedOwes(w, key, NewEntry(loader, destroy));
    }
  }

  /** What a step asks to be freed in the end. */
  function Asks(op: Op): seq<(nat, nat)> {
    if op.Register? then Frees(NewEntry(op.loader, op.destroy)) else []
  }

  function Owed(ops: seq<Op>): seq<(nat, nat)> {
    if ops == [] then [] else Asks(ops[0]) + Owed(ops[1..])
  }

  /** What was freed together with what the finaliser would free. */
  function Account(s: State): multiset<(nat, nat)>
    requires s.Valid()
  {
    multiset(s.freed) + multiset(FreesAll(s.reg.types, s.reg.types.keys))
  }

  lemma {:induction false} GrownOwes(w: Types, w': Types)
    requires w.Valid() && Grows(w, w')
    ensures w'.Valid() && FreesAll(w', w'.keys) == FreesAll(w, w.keys)
  {
    FreesAllUnchanged(w, w', w.keys);
  }

  lemma {:induction false} Regroup<T>(f: seq<T>, r: seq<T>, before: multiset<T>, after: multiset<T>, n: multiset<T>)
    requires after + multiset(r) == before + n
    ensures multiset(f + r) + after == (multiset(f) + before) + n
  {
    assert multiset(f + r) == multiset(f) + multiset(r);
    forall x
      ensures (multiset(f + r) + after)[x] == ((multiset(f) + before) + n)[x]
    {
      assert (after + multiset(r))[x] == (before + n)[x];
    }
  }

  lemma {:induction false} StepOwes(host: Host, s: State, op: Op)
    requires s.Valid()
    ensures Account(Do(host, s, op)) == Account(s) + multiset(Asks(op))
  {
    hide Frees, FreesAll, Replaced, Registered, Imported;
    var w := s.reg.types;
    match op
    case Import(request) =>
      GrownOwes(w, Imported(host, s.reg, request, host.limit).1.types);
    case Register(loader, destroy) =>
      var key := host.moduleType(loader);
      var w' := Registered(w, key, loader, destroy);
      RegisteredOwes(w, key, loader, destroy);
      Regroup(s.freed, Replaced(w, key), multiset(FreesAll(w, w.keys)), multiset(FreesAll(w', w'.keys)),
        multiset(Frees(NewEntry(loader, destroy))));
  }

  /** Over any run, what was freed and what the finaliser would free grow by what is registered. */
  lemma {:induction false} Ownership(host: Host, s: State, ops: seq<Op>)
    requires s.Valid()
    ensures Account(Run(host, s, ops)) == Account(s) + multiset(Owed(ops))
    decreases |ops|
  {
    hide Account, Asks, Do;
    if ops != [] {
      StepOwes(host, s, ops[0]);
      Ownership(host, Do(host, s, ops[0]), ops[1..]);
      assert multiset(Owed(ops)) == multiset(Asks(ops[0])) + multiset(Owed(ops[1..]));
    }
  }

  /** How often a run registers a loader together with a function to free it. */
  function Times(ops: seq<Op>, destroy: nat, loader: nat): nat {
    if ops == [] then 0
    else (if ops[0] == Register(loader, destroy) then 1 else 0) + Times(ops[1..], destroy, loader)
  }

  lemma {:induction false} OwedTimes(ops: seq<Op>, destroy: nat, loader: nat)
    requires destroy != 0
    ensures multiset(Owed(ops))[(destroy, loader)] == Times(ops, destroy, loader)
  {
    if ops != [] {
      assert multiset(Owed(ops)) == multiset(Asks(ops[0])) + multiset(Owed(ops[1..]));
      OwedTimes(ops[1..], destroy, loader);
    }
  }

  /** A context just set up, with the loader calls and the freeing calls made before. */
  function Fresh(calls: nat, freed: seq<(nat, nat)>): State {
    State(Reg(Types([], map[]), calls), freed)
  }

  /**
   * From a new registry to the finaliser a loader is freed as often as it was registered with a
   * function to free it: once, if it was registered once.
   */
  lemma {:induction false} FreedAsRegistered(host: Host, s0: State, ops: seq<Op>, destroy: nat, loader: nat)
    requires s0.reg.types == Types([], map[]) && destroy != 0
    ensures var s := Run(host, s0, ops);
      multiset(s.freed + FreesAll(s.reg.types, s.reg.types.keys))[(destroy, loader)]
      == multiset(s0.freed)[(destroy, loader)] + Times(ops, destroy, loader)
  {
    Ownership(host, s0, ops);
    OwedTimes(ops, destroy, loader);
  }

  // A loader that was freed is not used again.

  predicate IsFreed(s: State, loader: nat) {
    exists i :: 0 <= i < |s.freed| && s.freed[i].1 == loader
  }

  /** The loaders the registry reaches. */
  function Held(w: Types): set<nat> {
    set k | k in w.entries && Address(w.entries[k].loader) != 0 :: Address(w.entries[k].loader)
  }

  /** No loader the registry reaches was freed. */
  ghost predicate Live(s: State) {
    forall p <- Held(s.reg.types) :: !IsFreed(s, p)
  }

  /** Each loader is registered under the type it names. */
  ghost predicate Named(host: Host, w: Types) {
    forall k <- w.entries :: Address(w.entries[k].loader) == 0 || host.moduleType(Address(w.entries[k].loader)) == k
  }

  lemma GrownHolds(host: Host, w: Types, w': Types)
    requires Grows(w, w')
    ensures Held(w') == Held(w) && (Named(host, w) ==> Named(host, w'))
  {
  }

  lemma ImportHolds(host: Host, s: State, request: Request)
    requires s.Valid()
    ensures var s' := Do(host, s, Import(request));
      && s'.freed == s.freed && Held(s'.reg.types) == Held(s.reg.types)
      && (Named(host, s.reg.types) ==> Named(host, s'.reg.types))
  {
    hide Imported, Grows, Named, Held;
    GrownHolds(host, s.reg.types, Imported(host, s.reg, request, host.limit).1.types);
  }

  /** Registering under `key` frees the loader `p`. */
  predicate FreedBy(w: Types, key: string, p: nat) {
    key in w.entries && Address(w.entries[key].loader) == p && Address(w.entries[key].destroy) != 0
  }

  lemma RegisterHolds(host: Host, s: State, loader: nat, destroy: nat)
    requires s.Valid() && Named(host, s.reg.types) && loader != 0
    ensures var w', key := Do(host, s, Register(loader, destroy)).reg.types, host.moduleType(loader);
      && Named(host, w')
      && Held(w') ==
         (if key in s.reg.types.entries then Held(s.reg.types) - {Address(s.reg.types.entries[key].loader)}
          else Held(s.reg.types)) + {loader}
  {
    var w', key := Do(host, s, Register(loader, destroy)).reg.types, host.moduleType(loader);
    assert w'.entries == s.reg.types.entries[key := NewEntry(loader, destroy)];
    forall p
      ensures p in Held(w') <==>
        p == loader ||
        (p in Held(s.reg.types) && (key in s.reg.types.entries ==> p != Address(s.reg.types.entries[key].loader)))
    {
      assert w'.entries[key].loader == Some(Pointer(loader));
      if k :| k in s.reg.types.entries && k != key && p == Address(s.reg.types.entries[k].loader) != 0 {
        assert w'.entries[k] == s.reg.types.entries[k];
      }
    }
  }

  lemma RegisterFrees(host: Host, s: State, loader: nat, destroy: nat, p: nat)
    requires s.Valid()
    ensures var s', key := Do(host, s, Register(loader, destroy)), host.moduleType(loader);
      IsFreed(s', p) <==> (IsFreed(s, p) || FreedBy(s.reg.types, key, p))
  {
    var s' := Do(host, s, Register(loader, destroy));
    var added := Replaced(s.reg.types, host.moduleType(loader));
    assert s'.freed == s.freed + added;
    assert added != [] ==> s'.freed[|s.freed|] == added[0];
    if i :| 0 <= i < |s.freed| && s.freed[i].1 == p {
      assert s'.freed[i].1 == p;
    }
  }

  /**
   * Registering leaves the registry without freed loaders exactly when the loader was not freed
   * before and is not freed by being registered.
   */
  lemma RegisterLive(host: Host, s: State, loader: nat, destroy: nat)
    requires s.Valid() && Live(s) && Named(host, s.reg.types) && loader != 0
    ensures Live(Do(host, s, Register(loader, destroy))) <==>
      !IsFreed(s, loader) && !FreedBy(s.reg.types, host.moduleType(loader), loader)
  {
    hide Do, Named, Held, IsFreed;
    RegisterHolds(host, s, loader, destroy);
    forall p
      ensures IsFreed(Do(host, s, Register(loader, destroy)), p) <==>
        (IsFreed(s, p) || FreedBy(s.reg.types, host.moduleType(loader), p))
    {
      RegisterFrees(host, s, loader, destroy, p);
    }
    assert loader in Held(Do(host, s, Register(loader, destroy)).reg.types);
  }

  /** No loader is registered twice. */
  predicate Once(ops: seq<Op>) {
    forall i, j :: 0 <= i < j < |ops| && ops[i].Register? && ops[j].Register? ==> ops[i].loader != ops[j].loader
  }

  /** The loader of a registration still to come is neither in the registry nor freed. */
  ghost predicate New(s: State, ops: seq<Op>) {
    forall op <- ops :: op.Register? ==> op.loader != 0 && op.loader !in Held(s.reg.types) && !IsFreed(s, op.loader)
  }

  lemma {:induction false} LiveRun(host: Host, s: State, ops: seq<Op>)
    requires s.Valid() && Live(s) && Named(host, s.reg.types) && Once(ops) && New(s, ops)
    ensures Live(Run(host, s, ops))
    decreases |ops|
  {
    if ops != [] {
      var s' := Do(host, s, ops[0]);
      assert ops[0] in ops;
      hide Do, Named, Held, IsFreed;
      match ops[0] {
        case Import(request) =>
          ImportHolds(host, s, request);
          SameFreed(s, s');
        case Register(loader, destroy) =>
          RegisterHolds(host, s, loader, destroy);
          RegisterLive(host, s, loader, destroy);
          forall p
            ensures IsFreed(s', p) ==> IsFreed(s, p) || FreedBy(s.reg.types, host.moduleType(loader), p)
          {
            RegisterFrees(host, s, loader, destroy, p);
          }
      }
      LiveRun(host, s', ops[1..]);
    }
  }

  lemma SameFreed(s: State, s': State)
    requires s'.freed == s.freed
    ensures forall p :: IsFreed(s', p) <==> IsFreed(s, p)
  {
  }

  /** From a new registry, as long as no loader is registered twice no freed loader can be reached. */
  lemma NoFreedLoader(host: Host, ops: seq<Op>, calls: nat)
    requires Once(ops) && forall op <- ops :: op.Register? ==> op.loader != 0
    ensures Live(Run(host, Fresh(calls, []), ops))
  {
    var s := Fresh(calls, []);
    assert Held(s.reg.types) == {};
    LiveRun(host, s, ops);
  }

  /** A loader registered twice in a row is freed and still in the registry. */
  lemma RegisteredTwice(host: Host, loader: nat, destroy: nat)
    requires loader != 0 && destroy != 0
    ensures var op := Register(loader, destroy);
      var s := Run(host, Fresh(0, []), [op, op]);
      s.freed == [(destroy, loader)] && loader in Held(s.reg.types) && !Live(s)
  {
    var op, s := Register(loader, destroy), Fresh(0, []);
    var s1 := Do(host, s, op);
    var s2 := Do(host, s1, op);
    assert [op, op][1..] == [op] && [op][1..] == [];
    assert Run(host, s, [op, op]) == Run(host, s1, [op]) == s2;
    assert s2.reg.types.entries[host.moduleType(loader)].loader == Some(Pointer(loader));
    assert s2.freed[0].1 == loader;
  }

  // Hosts that differ in what freed loaders would do.

  /** Nobody can tell the two hosts apart who only asks the loader `p`. */
  ghost predicate Alike(host: Host, host': Host, p: nat) {
    && host.searchPath(p) == host'.searchPath(p)
    && (forall lib, pkg :: host.modulePath(p, lib, pkg) == host'.modulePath(p, lib, pkg))
    && forall load: Load :: load.loader == p ==>
         && host.asks(load) == host'.asks(load)
         && forall results ::
              && host.next(load, results) == host'.next(load, results)
              && host.answer(load, results) == host'.answer(load, results)
  }

  ghost predicate AllAlike(host: Host, host': Host, s: Reg) {
    forall p <- Held(s.types) :: Alike(host, host', p)
  }

  lemma AlikeLater(host: Host, host': Host, s: Reg, s': Reg)
    requires AllAlike(host, host', s) && RegGrows(s, s')
    ensures AllAlike(host, host', s')
  {
    GrownHolds(host, s.types, s'.types);
  }

  lemma AlikeEntry(host: Host, host': Host, s: Reg, key: string)
    requires AllAlike(host, host', s) && key in s.types.entries && Address(s.types.entries[key].loader) != 0
    ensures Alike(host, host', Address(s.types.entries[key].loader))
  {
    assert Address(s.types.entries[key].loader) in Held(s.types);
  }

  lemma {:induction false} NestedAlike(host: Host, host': Host, s: Reg, request: Request, depth: nat)
    requires s.types.Valid() && AllAlike(host, host', s)
    ensures Nested(host, s, request, depth) == Nested(host', s, request, depth)
    decreases depth, 0
  {
    if depth > 0 {
      hide Imported, AllAlike, Grows;
      ImportedAlike(host, host', s, request, depth - 1);
    }
  }

  lemma {:induction false} PerformAlike(host: Host, host': Host, s: Reg, load: Load, results: seq<Result>, depth: nat)
    requires s.types.Valid() && AllAlike(host, host', s) && Alike(host, host', load.loader)
    ensures Perform(host, s, load, results, depth) == Perform(host', s, load, results, depth)
    decreases depth, 1, host.asks(load) - |results|
  {
    var request := host.next(load, results);
    assert host'.next(load, results) == request && host'.asks(load) == host.asks(load);
    assert host.answer(load, results) == host'.answer(load, results);
    hide Nested, AllAlike, Alike, Grows;
    if request.Some? && |results| < host.asks(load) {
      var (result, s1) := Nested(host, s, request.value, depth);
      NestedAlike(host, host', s, request.value, depth);
      AlikeLater(host, host', s, s1);
      PerformAlike(host, host', s1, load, results + [result], depth);
    }
  }

  lemma {:induction false} LoadedAlike(host: Host, host': Host, s: Reg, p: nat, path: string, depth: nat)
    requires s.types.Valid() && AllAlike(host, host', s) && Alike(host, host', p)
    ensures Loaded(host, s, p, path, depth) == Loaded(host', s, p, path, depth)
    decreases depth, 2
  {
    var s0 := s.(calls := s.calls + 1);
    assert AllAlike(host, host', s0);
    hide Perform, AllAlike, Alike;
    PerformAlike(host, host', s0, Load(p, path, s.calls), [], depth);
  }

  lemma {:induction false} SearchAlike(host: Host, host': Host, s: Reg, p: nat,
      pkg: string, dirs: seq<string>, depth: nat)
    requires s.types.Valid() && AllAlike(host, host', s) && Alike(host, host', p)
    ensures Search(host, s, p, pkg, dirs, depth) == Search(host', s, p, pkg, dirs, depth)
    decreases depth, 3, |dirs|
  {
    hide Loaded, AllAlike, Grows;
    if dirs != [] && Trim(dirs[0]) == [] {
      SearchAlike(host, host', s, p, pkg, dirs[1..], depth);
    } else if dirs != [] {
      var path := host.modulePath(p, Trim(dirs[0]), pkg);
      assert host'.modulePath(p, Trim(dirs[0]), pkg) == path;
      LoadedAlike(host, host', s, p, path, depth);
      var (a, s1) := Loaded(host, s, p, path, depth);
      AlikeLater(host, host', s, s1);
      hide Alike;
      SearchAlike(host, host', s1, p, pkg, dirs[1..], depth);
    }
  }

  lemma {:induction false} TryAlike(host: Host, host': Host, s: Reg, key: string, pkg: string, depth: nat)
    requires s.types.Valid() && AllAlike(host, host', s) && key in s.types.entries
    ensures Try(host, s, key, pkg, depth) == Try(host', s, key, pkg, depth)
    decreases depth, 4
  {
    hide Search, AllAlike, Grows;
    var p := Address(s.types.entries[key].loader);
    if p != 0 {
      AlikeEntry(host, host', s, key);
      SearchAlike(host, host', s, p, pkg, Dirs(host, p), depth);
    }
  }

  lemma {:induction false} UntypedAlike(host: Host, host': Host, s: Reg, keys: seq<string>, pkg: string, depth: nat)
    requires s.types.Valid() && AllAlike(host, host', s) && forall k <- keys :: k in s.types.entries
    ensures Untyped(host, s, keys, pkg, depth) == Untyped(host', s, keys, pkg, depth)
    decreases depth, 5, |keys|
  {
    hide Try, AllAlike, EntryGrows;
    if keys != [] {
      TryAlike(host, host', s, keys[0], pkg, depth);
      var (tried, s1) := Try(host, s, keys[0], pkg, depth);
      AlikeLater(host, host', s, s1);
      UntypedAlike(host, host', s1, keys[1..], pkg, depth);
    }
  }

  lemma {:induction false} ImportedAlike(host: Host, host': Host, s: Reg, request: Request, depth: nat)
    requires s.types.Valid() && AllAlike(host, host', s)
    ensures Imported(host, s, request, depth) == Imported(host', s, request, depth)
    decreases depth, 6
  {
    hide Try, AllAlike, Grows;
    match request.key
    case Some(key) =>
      if key in s.types.entries {
        TryAlike(host, host', s, key, request.pkg, depth);
      }
    case None =>
      UntypedAlike(host, host', s, s.types.keys, request.pkg, depth);
  }

  /**
   * Where no freed loader can be reached none is called, not even by modules that import others while
   * they load: what freed loaders would do makes no difference to an import.
   */
  lemma FreedNotCalled(host: Host, host': Host, s: State, request: Request, depth: nat)
    requires s.Valid() && Live(s) && forall p :: p != 0 && !IsFreed(s, p) ==> Alike(host, host', p)
    ensures Imported(host, s.reg, request, depth) == Imported(host', s.reg, request, depth)
  {
    hide IsFreed, Alike;
    ImportedAlike(host, host', s.reg, request, depth);
  }
}

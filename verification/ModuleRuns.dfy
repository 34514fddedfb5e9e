/** The module framework over the life of a script context. */
module ModuleRuns {
  import opened Duktape
  import opened LoaderRuns
  import opened Modules
  import opened Options
  import opened Registry
  import opened RegistryRuns

  ghost function StateOf(m: Module): (s: State)
    requires m.Ready()
    reads m, m.ctx
    ensures s.Valid()
  {
    State(m.Current(), m.freed)
  }

  /** What a call returns to the script; registering returns nothing. */
  function Outcome(host: Host, s: State, op: Op): seq<Result>
    requires s.Valid()
  {
    match op
    case Import(request) => [Imported(host, s.reg, request, host.limit).0]
    case Register(_, _) => []
  }

  function Outcomes(host: Host, s: State, ops: seq<Op>): seq<Result>
    requires s.Valid()
    decreases |ops|
  {
    if ops == [] then [] else Outcome(host, s, ops[0]) + Outcomes(host, Do(host, s, ops[0]), ops[1..])
  }

  /** `n` times the same. */
  function Repeat<T>(x: T, n: nat): seq<T> {
    if n == 0 then [] else [x] + Repeat(x, n - 1)
  }

  /** What `n` equal imports in a row return, whatever it was that an import like them returned before. */
  lemma {:induction false} RepeatedFrom(host: Host, s: State, t: State, request: Request, n: nat)
    requires s.Valid() && t.Valid() && Plain(host) && Stable(host)
    requires t.reg.types == Imported(host, s.reg, request, host.limit).1.types
    ensures Outcomes(host, t, Repeat(Import(request), n)) == Repeat(Imported(host, s.reg, request, host.limit).0, n)
    decreases n
  {
    hide Imported, Plain, Stable, Types.Valid;
    if n > 0 {
      ImportAgain(host, s.reg, t.reg, request, host.limit);
      RepeatedFrom(host, s, Do(host, t, Import(request)), request, n - 1);
    }
  }

  /** With loaders that answer the same whenever asked, and import nothing, imports repeated return the same. */
  lemma RepeatedStable(host: Host, s: State, request: Request, n: nat)
    requires s.Valid() && Plain(host) && Stable(host)
    ensures Outcomes(host, s, Repeat(Import(request), n)) == Repeat(Imported(host, s.reg, request, host.limit).0, n)
  {
    hide Imported, Plain, Stable, Types.Valid;
    if n > 0 {
      RepeatedFrom(host, s, Do(host, s, Import(request)), request, n - 1);
    }
  }

  /** With any loaders, imports of a type repeated return the same once the module is kept. */
  lemma {:induction false} RepeatedKept(host: Host, s: State, pkg: string, key: string, v: Value, n: nat)
    requires s.Valid() && Cached(s.reg.types, key, pkg, v)
    ensures Outcomes(host, s, Repeat(Import(Request(pkg, Some(key))), n)) == Repeat(Returned(v), n)
    decreases n
  {
    hide Typed, Cached, Types.Valid;
    if n > 0 {
      TypedKept(host, s.reg, key, pkg, host.limit);
      assert Do(host, s, Import(Request(pkg, Some(key)))) == s;
      RepeatedKept(host, s, pkg, key, v, n - 1);
    }
  }

  /** One call from outside. */
  method Call(m: Module, op: Op) returns (outs: seq<Result>)
    requires m.Ready() && (op.Register? ==> op.loader != 0)
    modifies m, m.ctx`stack, m.ctx`heap
    ensures m.Ready() && m.ctx.stack == old(m.ctx.stack) && m.TheRegistry() == old(m.TheRegistry())
    ensures m.Globals() == old(m.Globals())
    ensures StateOf(m) == Do(m.host, old(StateOf(m)), op)
    ensures outs == Outcome(m.host, old(StateOf(m)), op)
    ensures op.Import? ==>
      |outs| == 1 && ImportOutcome(m.host, old(m.Current()), op.request, m.host.limit, outs[0], m.Current())
  {
    hide TypesOf, IsRegistry, Imported, Registered, Replaced, ImportOutcome;
    match op
    case Import(request) =>
      ImportReturns(m.host, m.Current(), request, m.host.limit);
      var r := m.CallImport(request, m.host.limit + 1);
      outs := [r];
    case Register(loader, destroy) =>
      m.RegisterLoader(loader, destroy);
      outs := [];
  }

  /** Any run of imports and registrations does what it does on the registry as a value. */
  method Replay(m: Module, ops: seq<Op>) returns (outs: seq<Result>)
    requires m.Ready() && forall op <- ops :: op.Register? ==> op.loader != 0
    modifies m, m.ctx`stack, m.ctx`heap
    ensures m.Ready() && m.ctx.stack == old(m.ctx.stack) && m.TheRegistry() == old(m.TheRegistry())
    ensures m.Globals() == old(m.Globals())
    ensures StateOf(m) == Run(m.host, old(StateOf(m)), ops)
    ensures outs == Outcomes(m.host, old(StateOf(m)), ops)
  {
    hide Module.Valid, StateOf, Outcome, Do;
    outs := [];
    ghost var s := StateOf(m);
    assert ops[0..] == ops && [] + Outcomes(m.host, s, ops) == Outcomes(m.host, s, ops);
    for i := 0 to |ops|
      invariant m.Ready() && m.ctx.stack == old(m.ctx.stack) && m.TheRegistry() == old(m.TheRegistry())
      invariant m.Globals() == old(m.Globals())
      invariant Run(m.host, StateOf(m), ops[i..]) == Run(m.host, s, ops)
      invariant outs + Outcomes(m.host, StateOf(m), ops[i..]) == Outcomes(m.host, s, ops)
    {
      assert ops[i..][1..] == ops[i + 1..];
      var now := Call(m, ops[i]);
      ghost var later := Outcomes(m.host, StateOf(m), ops[i + 1..]);
      assert outs + (now + later) == (outs + now) + later;
      outs := outs + now;
    }
    assert ops[|ops|..] == [] && outs + [] == outs;
  }

  /** Any such run, and then the finaliser. */
  method ReplayToEnd(m: Module, ops: seq<Op>) returns (outs: seq<Result>)
    requires m.Ready() && forall op <- ops :: op.Register? ==> op.loader != 0
    modifies m, m.ctx`stack, m.ctx`heap
    ensures m.Valid() && !m.Ready() && m.ctx.stack == old(m.ctx.stack) && m.Globals() == old(m.Globals())
    ensures outs == Outcomes(m.host, old(StateOf(m)), ops)
    ensures var s := Run(m.host, old(StateOf(m)), ops); m.freed == s.freed + FreesAll(s.reg.types, s.reg.types.keys)
  {
    hide Run, Outcomes, FreesAll;
    outs := Replay(m, ops);
    m.NativeDestory();
  }

  /** The registrations `Init` makes. */
  function Defaults(js: Default, c: Option<Default>): seq<Op> {
    [Register(js.loader, js.destroy)] + if c.Some? then [Register(c.value.loader, c.value.destroy)] else []
  }

  lemma DefaultsRun(host: Host, s: State, js: Default, c: Option<Default>)
    requires s.reg.types == Types([], map[])
    ensures var w := Registered(s.reg.types, host.moduleType(js.loader), js.loader, js.destroy);
      Run(host, s, Defaults(js, c)) ==
        if c.None? then s.(reg := s.reg.(types := w))
        else
          var key := host.moduleType(c.value.loader);
          State(s.reg.(types := Registered(w, key, c.value.loader, c.value.destroy)), s.freed + Replaced(w, key))
  {
    hide Registered;
    var first := Do(host, s, Register(js.loader, js.destroy));
    assert first.freed == s.freed && first.reg.calls == s.reg.calls;
    assert Run(host, s, Defaults(js, c)) == Run(host, first, Defaults(js, c)[1..]);
    if c.Some? {
      assert Defaults(js, c)[1..] == [Register(c.value.loader, c.value.destroy)];
      assert Defaults(js, c)[1..][1..] == [];
      assert Run(host, first, Defaults(js, c)[1..]) == Do(host, first, Register(c.value.loader, c.value.destroy));
    } else {
      assert Defaults(js, c)[1..] == [];
    }
  }

  lemma {:induction false} RunAppend(host: Host, s: State, a: seq<Op>, b: seq<Op>)
    requires s.Valid()
    ensures Run(host, s, a + b) == Run(host, Run(host, s, a), b)
    decreases |a|
  {
    if a == [] {
      assert a + b == b;
    } else {
      assert (a + b)[0] == a[0] && (a + b)[1..] == a[1..] + b;
      RunAppend(host, Do(host, s, a[0]), a[1..], b);
    }
  }

  /** What is freed by the end of a context's life. */
  lemma FreedInTheEnd(host: Host, s0: State, js: Default, c: Option<Default>, ops: seq<Op>)
    requires s0.reg.types == Types([], map[])
    ensures var s := Run(host, Run(host, s0, Defaults(js, c)), ops);
      forall destroy: nat, loader: nat :: destroy != 0 ==>
        multiset(s.freed + FreesAll(s.reg.types, s.reg.types.keys))[(destroy, loader)]
        == multiset(s0.freed)[(destroy, loader)] + Times(Defaults(js, c) + ops, destroy, loader)
  {
    RunAppend(host, s0, Defaults(js, c), ops);
    forall destroy: nat, loader: nat | destroy != 0
      ensures var s := Run(host, Run(host, s0, Defaults(js, c)), ops);
        multiset(s.freed + FreesAll(s.reg.types, s.reg.types.keys))[(destroy, loader)]
        == multiset(s0.freed)[(destroy, loader)] + Times(Defaults(js, c) + ops, destroy, loader)
    {
      FreedAsRegistered(host, s0, Defaults(js, c) + ops, destroy, loader);
    }
  }

  /**
   * From `init` to the finaliser: the imports return what they return on the registry as a value,
   * every loader is freed as often as it was registered with a function to free it, the registry is
   * gone and the stack is as found. Where the context was set up already, `init` throws, frees no
   * loader, and no registry is left.
   */
  method Session(m: Module, kgImport: nat, nativeDestory: nat, js: Default, c: Option<Default>, ops: seq<Op>)
    returns (ok: bool, outs: seq<Result>)
    requires m.Valid() && js.loader != 0 && (c.Some? ==> c.value.loader != 0)
    requires forall op <- ops :: op.Register? ==> op.loader != 0
    modifies m, m.ctx
    ensures m.Valid() && !m.Ready() && ok == !old(m.Ready())
    ensures m.Globals() == old(m.Globals())[IMPORT := Foreign(kgImport)]
    ensures !ok ==> m.freed == old(m.freed)
    ensures ok ==>
      && m.ctx.stack == old(m.ctx.stack)
      && outs == Outcomes(m.host, Run(m.host, Fresh(old(m.calls), old(m.freed)), Defaults(js, c)), ops)
      && forall destroy: nat, loader: nat :: destroy != 0 ==>
           multiset(m.freed)[(destroy, loader)]
           == multiset(old(m.freed))[(destroy, loader)] + Times(Defaults(js, c) + ops, destroy, loader)
  {
    hide Run, Outcomes, Module.Valid, Module.GetTypes, Defaults, Times, FreesAll, Registered, Replaced;
    outs := [];
    ghost var s0 := Fresh(m.calls, m.freed);
    DefaultsRun(m.host, s0, js, c);
    FreedInTheEnd(m.host, s0, js, c, ops);
    ok := m.Init(kgImport, nativeDestory, js, c);
    if ok {
      outs := ReplayToEnd(m, ops);
    }
  }
}

/** What imports come to, one by one and over whole runs of imports and registrations. */
module RegistryRuns {
  import opened Duktape
  import opened Options
  import opened Registry
  import opened SearchPaths

  /** A loader's search for a package: its places in turn. */
  datatype Quest = Quest(loader: nat, pkg: string, places: seq<string>)

  /** The registry when the `i`-th place is asked, if none before it decides. */
  function Before(host: Host, s: Reg, q: Quest, depth: nat, i: nat): (r: Reg)
    requires s.types.Valid() && i <= |q.places|
    ensures RegGrows(s, r)
    decreases i, 0
  {
    if i == 0 then s else AnswerAt(host, s, q, depth, i - 1).1
  }

  /** The answer at the `i`-th place, and the registry after it. */
  function AnswerAt(host: Host, s: Reg, q: Quest, depth: nat, i: nat): (r: (Answer, Reg))
    requires s.types.Valid() && i < |q.places|
    ensures RegGrows(s, r.1) && r.1.calls > s.calls
    decreases i, 1
  {
    var before := Before(host, s, q, depth, i);
    var r := Loaded(host, before, q.loader, host.modulePath(q.loader, q.places[i], q.pkg), depth);
    GrowsFurther(s, before, r.1);
    r
  }

  const NO_SUCH_MODULE := Answer(false, Undefined)

  /** The first `n` places have nothing to offer. */
  predicate Barren(host: Host, s: Reg, q: Quest, depth: nat, n: nat)
    requires s.types.Valid() && n <= |q.places|
  {
    forall i :: 0 <= i < n ==> AnswerAt(host, s, q, depth, i).0 == NO_SUCH_MODULE
  }

  /** The `n`-th place is the first whose answer is not "no such module". */
  predicate FirstAnswer(host: Host, s: Reg, q: Quest, depth: nat, n: nat)
    requires s.types.Valid()
  {
    n < |q.places| && AnswerAt(host, s, q, depth, n).0 != NO_SUCH_MODULE && Barren(host, s, q, depth, n)
  }

  /** The places behind the first, asked after it. */
  lemma {:induction false} AnswerNext(host: Host, s: Reg, q: Quest, depth: nat, i: nat)
    requires s.types.Valid() && 1 <= i <= |q.places|
    ensures var s1, q1 := AnswerAt(host, s, q, depth, 0).1, q.(places := q.places[1..]);
      && Before(host, s, q, depth, i) == Before(host, s1, q1, depth, i - 1)
      && (i < |q.places| ==> AnswerAt(host, s, q, depth, i) == AnswerAt(host, s1, q1, depth, i - 1))
    decreases i
  {
    hide Loaded, Grows;
    if i > 1 {
      AnswerNext(host, s, q, depth, i - 1);
    }
  }

  lemma BarrenNext(host: Host, s: Reg, q: Quest, depth: nat, n: nat)
    requires s.types.Valid() && 1 <= n <= |q.places| && AnswerAt(host, s, q, depth, 0).0 == NO_SUCH_MODULE
    requires Barren(host, AnswerAt(host, s, q, depth, 0).1, q.(places := q.places[1..]), depth, n - 1)
    ensures Barren(host, s, q, depth, n)
  {
    hide AnswerAt, Grows;
    forall i | 0 <= i < n
      ensures AnswerAt(host, s, q, depth, i).0 == NO_SUCH_MODULE
    {
      if i > 0 {
        AnswerNext(host, s, q, depth, i);
      }
    }
  }

  /**
   * The search ends at the first place not blank whose answer is not "no such module"; without such a
   * place every one of them has been asked.
   */
  lemma {:induction false} SearchFirst(host: Host, s: Reg, loader: nat, pkg: string, dirs: seq<string>, depth: nat)
    returns (n: nat)
    requires s.types.Valid()
    ensures var (found, s') := Search(host, s, loader, pkg, dirs, depth);
      var q := Quest(loader, pkg, Places(dirs));
      if found.Some? then FirstAnswer(host, s, q, depth, n) && AnswerAt(host, s, q, depth, n) == (found.value, s')
      else n == |q.places| && Barren(host, s, q, depth, n) && s' == Before(host, s, q, depth, n)
    decreases |dirs|
  {
    hide Loaded, Grows, Trim, Types.Valid;
    n := 0;
    if dirs != [] {
      var q := Quest(loader, pkg, Places(dirs));
      if Trim(dirs[0]) == [] {
        n := SearchFirst(host, s, loader, pkg, dirs[1..], depth);
      } else {
        var (a, s1) := AnswerAt(host, s, q, depth, 0);
        if a == NO_SUCH_MODULE {
          n := SearchFirst(host, s1, loader, pkg, dirs[1..], depth);
          n := n + 1;
          assert q.places[1..] == Places(dirs[1..]);
          BarrenNext(host, s, q, depth, n);
          AnswerNext(host, s, q, depth, n);
        }
      }
    }
  }

  // What an import comes to.

  /** The module is kept by its type. */
  predicate Keeps(e: Entry, pkg: string) {
    e.libs.Some? && pkg in e.libs.value
  }

  /** The module `pkg` is kept under the type `key`, as `v`. */
  predicate Cached(w: Types, key: string, pkg: string, v: Value) {
    key in w.entries && Keeps(w.entries[key], pkg) && w.entries[key].libs.value[pkg] == v
  }

  /** Importing from the type means asking its loader. */
  predicate Asked(e: Entry, pkg: string) {
    e.libs.Some? && pkg !in e.libs.value && Address(e.loader) != 0
  }

  /** The search of the loader of a type. */
  function QuestOf(host: Host, e: Entry, pkg: string): Quest {
    Quest(Address(e.loader), pkg, Places(Dirs(host, Address(e.loader))))
  }

  /** The `n`-th answer of the loader of a type is the first that is not "no such module". */
  predicate Decides(host: Host, s: Reg, key: string, pkg: string, depth: nat, n: nat)
    requires s.types.Valid() && key in s.types.entries
  {
    FirstAnswer(host, s, QuestOf(host, s.types.entries[key], pkg), depth, n)
  }

  /** The answer, and the registry after what the loader did to give it. */
  function LoaderAnswer(host: Host, s: Reg, key: string, pkg: string, depth: nat, n: nat): (r: (Answer, Reg))
    requires s.types.Valid() && key in s.types.entries && n < |QuestOf(host, s.types.entries[key], pkg).places|
    ensures RegGrows(s, r.1) && r.1.calls > s.calls
  {
    AnswerAt(host, s, QuestOf(host, s.types.entries[key], pkg), depth, n)
  }

  /** The registry once all places of a type's loader have been asked in vain. */
  function AllAsked(host: Host, s: Reg, key: string, pkg: string, depth: nat): (r: Reg)
    requires s.types.Valid() && key in s.types.entries
    ensures RegGrows(s, r)
  {
    var q := QuestOf(host, s.types.entries[key], pkg);
    Before(host, s, q, depth, |q.places|)
  }

  /** What becomes of a loader's answer: a module is kept, in place of any kept meanwhile. */
  function Settled(s: Reg, a: Answer, s1: Reg, key: string, pkg: string): (r: Reg)
    requires s.types.Valid() && RegGrows(s, s1) && key in s.types.entries && Asked(s.types.entries[key], pkg)
    ensures RegGrows(s, r)
  {
    if a.ok then KeepingGrows(s, s1, key, pkg, a.value); s1.(types := Keeping(s1.types, key, pkg, a.value)) else s1
  }

  /** What a type offers: a module it keeps, or the first answer of its loader, kept only if it is a module. */
  lemma TryReturns(host: Host, s: Reg, key: string, pkg: string, depth: nat)
    requires s.types.Valid() && key in s.types.entries
    ensures var (tried, s') := Try(host, s, key, pkg, depth);
      var e := s.types.entries[key];
      && (Keeps(e, pkg) ==> (tried, s') == (Found(e.libs.value[pkg]), s))
      && (!Keeps(e, pkg) && !Asked(e, pkg) ==> !tried.Found? && s' == s)
      && (Asked(e, pkg) ==>
            && (tried == Missing <==> forall n :: !Decides(host, s, key, pkg, depth, n))
            && (tried == Missing ==> s' == AllAsked(host, s, key, pkg, depth))
            && forall n :: Decides(host, s, key, pkg, depth, n) ==>
                 var (a, s1) := LoaderAnswer(host, s, key, pkg, depth, n);
                 (tried, s') == (Found(a.value), Settled(s, a, s1, key, pkg)))
  {
    hide Search, AnswerAt, Before, Grows;
    var e := s.types.entries[key];
    if Asked(e, pkg) {
      var p := Address(e.loader);
      var m := SearchFirst(host, s, p, pkg, Dirs(host, p), depth);
      forall n | Decides(host, s, key, pkg, depth, n)
        ensures Search(host, s, p, pkg, Dirs(host, p), depth).0.Some? && n == m
      {
        FirstOnly(host, s, QuestOf(host, e, pkg), depth, n, m);
      }
      if Search(host, s, p, pkg, Dirs(host, p), depth).0.Some? {
        assert Decides(host, s, key, pkg, depth, m);
      }
    }
  }

  lemma FirstOnly(host: Host, s: Reg, q: Quest, depth: nat, n: nat, m: nat)
    requires s.types.Valid() && FirstAnswer(host, s, q, depth, n)
    requires FirstAnswer(host, s, q, depth, m) || (m == |q.places| && Barren(host, s, q, depth, m))
    ensures FirstAnswer(host, s, q, depth, m) && n == m
  {
  }

  /** A typed import ends with `r` and leaves `s'`: each outcome occurs exactly when it should. */
  ghost predicate TypedOutcome(host: Host, s: Reg, key: string, pkg: string, depth: nat, r: Result, s': Reg)
    requires s.types.Valid()
  {
    && (r == Thrown(NoLoader(key)) <==> key !in s.types.entries)
    && (r == Thrown(NoLoader(key)) || r == Thrown(NotLibs(key)) || r == Thrown(NotLoader(key)) ==> s' == s)
    && (key in s.types.entries ==>
          var e := s.types.entries[key];
          && (r == Thrown(NotLibs(key)) <==> e.libs.None?)
          && (r == Thrown(NotLoader(key)) <==> e.libs.Some? && !Keeps(e, pkg) && Address(e.loader) == 0)
          && (Keeps(e, pkg) ==> (r, s') == (Returned(e.libs.value[pkg]), s))
          && (r == Thrown(NoLoaderModule(key, pkg)) <==>
                Asked(e, pkg) && forall n :: !Decides(host, s, key, pkg, depth, n))
          && (r == Thrown(NoLoaderModule(key, pkg)) ==> s' == AllAsked(host, s, key, pkg, depth))
          && (Asked(e, pkg) ==> forall n :: Decides(host, s, key, pkg, depth, n) ==>
                var (a, s1) := LoaderAnswer(host, s, key, pkg, depth, n);
                (r, s') == (Returned(a.value), Settled(s, a, s1, key, pkg))))
  }

  /** Exactly when each outcome of a typed import occurs, and the registry it leaves. */
  lemma TypedReturns(host: Host, s: Reg, key: string, pkg: string, depth: nat)
    requires s.types.Valid()
    ensures var (r, s') := Typed(host, s, key, pkg, depth); TypedOutcome(host, s, key, pkg, depth, r, s')
  {
    hide Search, Settled, LoaderAnswer, AllAsked, Decides, RegGrows, Types.Valid;
    if key in s.types.entries {
      TryReturns(host, s, key, pkg, depth);
    }
  }

  /**
   * A typed import that asks the loader returns a value it does not keep exactly when the first answer
   * other than "no such module" is an error, and no import made meanwhile kept that very value.
   */
  lemma ErrorPassedOn(host: Host, s: Reg, key: string, pkg: string, depth: nat)
    requires s.types.Valid() && key in s.types.entries && Asked(s.types.entries[key], pkg)
    ensures var (r, s') := Typed(host, s, key, pkg, depth);
      (r.Returned? && !Cached(s'.types, key, pkg, r.value)) <==>
        exists n :: Decides(host, s, key, pkg, depth, n) &&
          var (a, s1) := LoaderAnswer(host, s, key, pkg, depth, n); !a.ok && !Cached(s1.types, key, pkg, a.value)
  {
    hide Typed, LoaderAnswer, AllAsked, Decides;
    TypedReturns(host, s, key, pkg, depth);
  }

  /** A module kept is returned, and nothing changes. */
  lemma TypedKept(host: Host, s: Reg, key: string, pkg: string, depth: nat)
    requires s.types.Valid()
    ensures forall v :: Cached(s.types, key, pkg, v) ==> Typed(host, s, key, pkg, depth) == (Returned(v), s)
  {
    hide Search;
  }

  /** A module returned was kept before, or a loader was called for it. */
  lemma ReturnedHow(host: Host, s: Reg, key: string, pkg: string, depth: nat)
    requires s.types.Valid() && Typed(host, s, key, pkg, depth).0.Returned?
    ensures var (r, s') := Typed(host, s, key, pkg, depth);
      && key in s.types.entries && s.types.entries[key].libs.Some?
      && if Keeps(s.types.entries[key], pkg)
         then (r, s') == (Returned(s.types.entries[key].libs.value[pkg]), s)
         else s'.calls > s.calls
  {
    hide Typed, AllAsked, Grows;
    TypedReturns(host, s, key, pkg, depth);
    if Asked(s.types.entries[key], pkg) {
      var n :| Decides(host, s, key, pkg, depth, n);
      var (a, s1) := LoaderAnswer(host, s, key, pkg, depth, n);
      assert Settled(s, a, s1, key, pkg).calls == s1.calls > s.calls;
    }
  }

  /** An import that returned is repeated without a loader call exactly when it kept what it returned. */
  lemma KeptIsFree(host: Host, s: Reg, key: string, pkg: string, depth: nat)
    requires s.types.Valid() && Typed(host, s, key, pkg, depth).0.Returned?
    ensures var (r, s') := Typed(host, s, key, pkg, depth);
      Typed(host, s', key, pkg, depth) == (r, s') <==> Cached(s'.types, key, pkg, r.value)
  {
    var (r, s') := Typed(host, s, key, pkg, depth);
    hide Typed, Grows;
    ReturnedHow(host, s, key, pkg, depth);
    TypedKept(host, s', key, pkg, depth);
    if Typed(host, s', key, pkg, depth).0.Returned? {
      ReturnedHow(host, s', key, pkg, depth);
    }
  }

  /**
   * The places a loader is asked at, in terms of the path in its environment: the pieces between the
   * flags that are not blank, trimmed and in order; none where there is no path.
   */
  lemma PlacesOfPath(host: Host, e: Entry, pkg: string, pieces: seq<string>)
    requires pieces != [] && forall piece <- pieces :: FLAG !in piece
    ensures var env := host.searchPath(Address(e.loader));
      && (env == Some(Glued(pieces, FLAG)) ==> QuestOf(host, e, pkg).places == Places(pieces))
      && (env == None ==> QuestOf(host, e, pkg).places == [])
  {
    PathPlaces(pieces, FLAG);
  }

  /** A search path of one place. */
  lemma OnePlace()
    ensures Places(Split(Trim("d"), FLAG)) == ["d"]
  {
    PathPlaces(["d"], FLAG);
    TrimOnly([], "d", []);
    PlacesOne("d");
  }

  /** A loader that answers its first call with an error and every later one with a module. */
  const FICKLE := Host(
    _ => "js",
    _ => Some("d"),
    (_, lib, pkg) => pkg,
    _ => 0,
    (_, results) => None,
    (load: Load, results) => if load.call == 0 then Answer(false, Text("error")) else Answer(true, Object(1)),
    1000)

  /** One type, its loader being 1. */
  const JS_TYPES := Registered(Types([], map[]), "js", 1, 1)

  lemma JsTypes()
    ensures JS_TYPES.Valid() && "js" in JS_TYPES.entries && Asked(JS_TYPES.entries["js"], "m")
  {
  }

  /** With one place to look at, what the loader answers there is its answer. */
  lemma OnePlaceAnswers(host: Host, s: Reg, key: string, pkg: string, depth: nat, lib: string)
    requires s.types.Valid() && key in s.types.entries
    requires QuestOf(host, s.types.entries[key], pkg).places == [lib]
    requires var p := Address(s.types.entries[key].loader);
      Loaded(host, s, p, host.modulePath(p, lib, pkg), depth).0 != NO_SUCH_MODULE
    ensures var p := Address(s.types.entries[key].loader);
      Decides(host, s, key, pkg, depth, 0)
      && LoaderAnswer(host, s, key, pkg, depth, 0) == Loaded(host, s, p, host.modulePath(p, lib, pkg), depth)
  {
    hide Loaded, Places, Dirs, Grows;
  }

  /** What the fickle loader answers its call number `calls`. */
  lemma FickleAnswer(calls: nat)
    ensures Decides(FICKLE, Reg(JS_TYPES, calls), "js", "m", 999, 0)
    ensures LoaderAnswer(FICKLE, Reg(JS_TYPES, calls), "js", "m", 999, 0)
         == (FICKLE.answer(Load(1, "m", calls), []), Reg(JS_TYPES, calls + 1))
  {
    hide Nested, Split, Trim, Places, Decides, LoaderAnswer, Grows, Types.Valid;
    OnePlace();
    JsTypes();
    OnePlaceAnswers(FICKLE, Reg(JS_TYPES, calls), "js", "m", 999, "d");
  }

  lemma FickleImport(calls: nat)
    ensures var a, s1 := FICKLE.answer(Load(1, "m", calls), []), Reg(JS_TYPES, calls + 1);
      Typed(FICKLE, Reg(JS_TYPES, calls), "js", "m", 999) ==
        (Returned(a.value), if a.ok then s1.(types := Keeping(JS_TYPES, "js", "m", a.value)) else s1)
  {
    hide Typed, LoaderAnswer, Decides, AllAsked, RegGrows, Grows, Keeping, Types.Valid, Registered, Asked;
    JsTypes();
    FickleAnswer(calls);
    TypedReturns(FICKLE, Reg(JS_TYPES, calls), "js", "m", 999);
  }

  /** Two imports in a row: the first returns the error as if it were the module, the second the module. */
  lemma ErrorThenModule()
    ensures var first, second := Reg(JS_TYPES, 0), Reg(JS_TYPES, 1);
      && Typed(FICKLE, first, "js", "m", 999) == (Returned(Text("error")), second)
      && Typed(FICKLE, second, "js", "m", 999) == (Returned(Object(1)), Reg(Keeping(JS_TYPES, "js", "m", Object(1)), 2))
  {
    hide Typed, RegGrows, Grows, Keeping, Types.Valid, Registered;
    JsTypes();
    FickleImport(0);
    FickleImport(1);
  }

  /** With one type only, naming it or not makes no difference to what is found. */
  lemma OneType(host: Host, s: Reg, key: string, pkg: string, depth: nat, v: Value, s': Reg)
    requires s.types.Valid() && s.types.keys == [key] && Typed(host, s, key, pkg, depth) == (Returned(v), s')
    ensures Imported(host, s, Request(pkg, None), depth) == (Returned(v), s')
  {
    hide Try, Grows;
    assert key in s.types.keys;
  }

  /** The same two imports without a type. */
  lemma UntypedErrorThenModule()
    ensures var first, second := Reg(JS_TYPES, 0), Reg(JS_TYPES, 1);
      && Imported(FICKLE, first, Request("m", None), 999) == (Returned(Text("error")), second)
      && Imported(FICKLE, second, Request("m", None), 999)
         == (Returned(Object(1)), Reg(Keeping(JS_TYPES, "js", "m", Object(1)), 2))
  {
    hide Typed, Imported, Keeping, Grows;
    JsTypes();
    ErrorThenModule();
    OneType(FICKLE, Reg(JS_TYPES, 0), "js", "m", 999, Text("error"), Reg(JS_TYPES, 1));
    OneType(FICKLE, Reg(JS_TYPES, 1), "js", "m", 999, Object(1), Reg(Keeping(JS_TYPES, "js", "m", Object(1)), 2));
  }

  // Imports within imports.

  /**
   * What happens while a module is being loaded: it imports one module after another, each as it decides
   * from the results so far; `regs` are the registries before, between and after.
   */
  ghost predicate Transcript(host: Host, load: Load, depth: nat, results: seq<Result>, regs: seq<Reg>) {
    && |regs| == |results| + 1 && |results| <= host.asks(load) && (forall s <- regs :: s.types.Valid())
    && forall i :: 0 <= i < |results| ==>
         && host.next(load, results[..i]).Some?
         && (results[i], regs[i + 1]) == Nested(host, regs[i], host.next(load, results[..i]).value, depth)
  }

  lemma TranscriptNext(host: Host, load: Load, depth: nat, results: seq<Result>, regs: seq<Reg>)
    requires Transcript(host, load, depth, results, regs)
    requires |results| < host.asks(load) && host.next(load, results).Some?
    ensures var (result, s) := Nested(host, regs[|results|], host.next(load, results).value, depth);
      Transcript(host, load, depth, results + [result], regs + [s])
  {
    hide Nested, Types.Valid, Grows;
    var (result, s) := Nested(host, regs[|results|], host.next(load, results).value, depth);
    var more := results + [result];
    assert more[..|results|] == results;
    assert forall i :: 0 <= i < |results| ==> more[..i] == results[..i];
  }

  lemma {:induction false} PerformGoes(host: Host, load: Load, depth: nat, results: seq<Result>, regs: seq<Reg>)
    returns (all: seq<Result>, regs': seq<Reg>)
    requires Transcript(host, load, depth, results, regs)
    ensures Transcript(host, load, depth, all, regs') && results <= all && regs <= regs'
    ensures |all| == host.asks(load) || host.next(load, all) == None
    ensures Perform(host, regs[|results|], load, results, depth) == (host.answer(load, all), regs'[|all|])
    decreases host.asks(load) - |results|
  {
    hide Nested, Types.Valid, Grows;
    all, regs' := results, regs;
    if |results| < host.asks(load) && host.next(load, results).Some? {
      var (result, s) := Nested(host, regs[|results|], host.next(load, results).value, depth);
      TranscriptNext(host, load, depth, results, regs);
      all, regs' := PerformGoes(host, load, depth, results + [result], regs + [s]);
    }
  }

  /** A loader call ends when the module imports nothing more, with an answer made from all it imported. */
  lemma LoadedInTurn(host: Host, s: Reg, loader: nat, path: string, depth: nat)
    returns (results: seq<Result>, regs: seq<Reg>)
    requires s.types.Valid()
    ensures var load := Load(loader, path, s.calls);
      && Transcript(host, load, depth, results, regs) && regs[0] == s.(calls := s.calls + 1)
      && (|results| == host.asks(load) || host.next(load, results) == None)
      && Loaded(host, s, loader, path, depth) == (host.answer(load, results), regs[|results|])
  {
    hide Perform;
    results, regs := PerformGoes(host, Load(loader, path, s.calls), depth, [], [s.(calls := s.calls + 1)]);
  }

  /** What an import within a loader call kept is kept when that call ends. */
  lemma NestedStays(host: Host, s: Reg, load: Load, results: seq<Result>, depth: nat,
      key: string, pkg: string, v: Value)
    requires s.types.Valid() && |results| < host.asks(load) && host.next(load, results).Some?
    requires Cached(Nested(host, s, host.next(load, results).value, depth).1.types, key, pkg, v)
    ensures Cached(Perform(host, s, load, results, depth).1.types, key, pkg, v)
  {
    hide Nested;
    var (result, s1) := Nested(host, s, host.next(load, results).value, depth);
    CachedGrows(s1, Perform(host, s1, load, results + [result], depth).1, key, pkg, v);
  }

  lemma CachedGrows(s: Reg, s': Reg, key: string, pkg: string, v: Value)
    requires RegGrows(s, s') && Cached(s.types, key, pkg, v)
    ensures Cached(s'.types, key, pkg, v)
  {
    assert EntryGrows(s.types.entries[key], s'.types.entries[key]);
  }

  /**
   * What was kept when the loader answered is kept when its import ends, exactly unless that import
   * keeps another module under the same type and name: the enclosing import has the last word.
   */
  lemma EnclosingWins(host: Host, s: Reg, key: string, pkg: string, depth: nat, n: nat, k: string, p: string, v: Value)
    requires s.types.Valid() && key in s.types.entries && Asked(s.types.entries[key], pkg)
    requires Decides(host, s, key, pkg, depth, n)
    requires Cached(LoaderAnswer(host, s, key, pkg, depth, n).1.types, k, p, v)
    ensures var a := LoaderAnswer(host, s, key, pkg, depth, n).0;
      Cached(Typed(host, s, key, pkg, depth).1.types, k, p, v) <==> !(a.ok && k == key && p == pkg) || a.value == v
  {
    hide Typed, LoaderAnswer, Decides, Grows;
    TypedReturns(host, s, key, pkg, depth);
  }

  /** A module that imports itself, once, while it is being loaded. */
  const SELFISH := Host(
    _ => "js",
    _ => Some("d"),
    (_, lib, pkg) => pkg,
    (load: Load) => if load.call == 0 then 1 else 0,
    (_, results) => Some(Request("m", Some("js"))),
    (load: Load, results) => Answer(true, Object(if load.call == 0 then 2 else 1)),
    1000)

  /** The loader call, with the import inside it if it is the first. */
  lemma SelfishLoaded(calls: nat, depth: nat)
    requires calls < 2
    ensures JS_TYPES.Valid()
    ensures Loaded(SELFISH, Reg(JS_TYPES, calls), 1, "m", depth) ==
      if calls == 1 then (Answer(true, Object(1)), Reg(JS_TYPES, 2))
      else (Answer(true, Object(2)), Nested(SELFISH, Reg(JS_TYPES, 1), Request("m", Some("js")), depth).1)
  {
    hide Nested, Registered, Grows, Types.Valid;
    JsTypes();
    var load, s1 := Load(1, "m", calls), Reg(JS_TYPES, calls + 1);
    if calls == 0 {
      var (result, s2) := Nested(SELFISH, s1, Request("m", Some("js")), depth);
      assert Perform(SELFISH, s2, load, [] + [result], depth) == (Answer(true, Object(2)), s2);
    }
  }

  lemma SelfishAnswer(calls: nat, depth: nat)
    requires calls < 2
    ensures Decides(SELFISH, Reg(JS_TYPES, calls), "js", "m", depth, 0)
    ensures LoaderAnswer(SELFISH, Reg(JS_TYPES, calls), "js", "m", depth, 0)
         == Loaded(SELFISH, Reg(JS_TYPES, calls), 1, "m", depth)
  {
    hide Nested, Loaded, Split, Trim, Places, Decides, LoaderAnswer, Grows, Types.Valid;
    OnePlace();
    JsTypes();
    SelfishLoaded(calls, depth);
    OnePlaceAnswers(SELFISH, Reg(JS_TYPES, calls), "js", "m", depth, "d");
  }

  lemma KeepingTwice(w: Types, key: string, pkg: string, a: Value, b: Value)
    requires key in w.entries && w.entries[key].libs.Some?
    ensures Keeping(Keeping(w, key, pkg, a), key, pkg, b) == Keeping(w, key, pkg, b)
  {
    var e := w.entries[key];
    assert e.libs.value[pkg := a][pkg := b] == e.libs.value[pkg := b];
    var f, g := e.(libs := Some(e.libs.value[pkg := a])), e.(libs := Some(e.libs.value[pkg := b]));
    assert w.entries[key := f][key := g] == w.entries[key := g];
  }

  /** The import inside: the module is kept, for the time being. */
  lemma ImportedFirst()
    ensures Nested(SELFISH, Reg(JS_TYPES, 1), Request("m", Some("js")), 999)
         == (Returned(Object(1)), Reg(Keeping(JS_TYPES, "js", "m", Object(1)), 2))
  {
    hide Typed, Loaded, LoaderAnswer, Decides, AllAsked, Grows, Keeping, Types.Valid, Registered;
    JsTypes();
    SelfishAnswer(1, 998);
    SelfishLoaded(1, 998);
    TypedReturns(SELFISH, Reg(JS_TYPES, 1), "js", "m", 998);
  }

  /** The module it gets is not the one everybody gets later: the one loaded last replaces it. */
  lemma ImportedTwice()
    ensures Nested(SELFISH, Reg(JS_TYPES, 1), Request("m", Some("js")), 999)
         == (Returned(Object(1)), Reg(Keeping(JS_TYPES, "js", "m", Object(1)), 2))
    ensures Typed(SELFISH, Reg(JS_TYPES, 0), "js", "m", 999)
         == (Returned(Object(2)), Reg(Keeping(JS_TYPES, "js", "m", Object(2)), 2))
  {
    hide Typed, Nested, Loaded, LoaderAnswer, Decides, AllAsked, Grows, Keeping, Types.Valid, Registered;
    JsTypes();
    ImportedFirst();
    SelfishAnswer(0, 999);
    SelfishLoaded(0, 999);
    KeepingTwice(JS_TYPES, "js", "m", Object(1), Object(2));
    TypedReturns(SELFISH, Reg(JS_TYPES, 0), "js", "m", 999);
  }

  // Memoised imports.

  datatype Op =
    | Import(request: Request)
    | Register(loader: nat, destroy: nat)

  datatype State = State(reg: Reg, freed: seq<(nat, nat)>) {
    ghost predicate Valid() {
      reg.types.Valid()
    }
  }

  function Do(host: Host, s: State, op: Op): (s': State)
    requires s.Valid()
    ensures s'.Valid()
  {
    match op
    case Import(request) => s.(reg := Imported(host, s.reg, request, host.limit).1)
    case Register(loader, destroy) =>
      var w, key := s.reg.types, host.moduleType(loader);
      State(s.reg.(types := Registered(w, key, loader, destroy)), s.freed + Replaced(w, key))
  }

  function Run(host: Host, s: State, ops: seq<Op>): (s': State)
    requires s.Valid()
    ensures s'.Valid()
    decreases |ops|
  {
    if ops == [] then s
    else
      Run(host, Do(host, s, ops[0]), ops[1..])
  }

  /**
   * A loader registered is the one the imports of its type ask from then on, for every module anew; the
   * other types, and the order of all, stay as they are.
   */
  lemma RegisteredAsks(host: Host, s: State, loader: nat, destroy: nat, pkg: string)
    requires s.Valid() && loader != 0
    ensures var w, w', key := s.reg.types, Do(host, s, Register(loader, destroy)).reg.types, host.moduleType(loader);
      && key in w'.entries && Asked(w'.entries[key], pkg) && QuestOf(host, w'.entries[key], pkg).loader == loader
      && w.keys <= w'.keys && (key in w.entries ==> w'.keys == w.keys)
      && forall k :: k != key ==>
           (k in w'.entries <==> k in w.entries) && (k in w.entries ==> w'.entries[k] == w.entries[k])
  {
  }

  /** No run removes a type or changes the order of types. */
  lemma {:induction false} RunKeys(host: Host, s: State, ops: seq<Op>)
    requires s.Valid()
    ensures s.reg.types.keys <= Run(host, s, ops).reg.types.keys
    decreases |ops|
  {
    if ops != [] {
      hide Imported, Types.Valid;
      RunKeys(host, Do(host, s, ops[0]), ops[1..]);
    }
  }

  /** A loaded module stays, whatever is imported or registered, until its type is registered again. */
  lemma {:induction false} CachedStays(host: Host, s: State, ops: seq<Op>, key: string, pkg: string, v: Value)
    requires s.Valid() && Cached(s.reg.types, key, pkg, v)
    requires forall op <- ops :: op.Register? ==> host.moduleType(op.loader) != key
    ensures Cached(Run(host, s, ops).reg.types, key, pkg, v)
    decreases |ops|
  {
    if ops != [] {
      hide Imported, Grows;
      match ops[0] {
        case Import(request) =>
          CachedGrows(s.reg, Imported(host, s.reg, request, host.limit).1, key, pkg, v);
        case Register(loader, destroy) =>
          assert ops[0] in ops;
      }
      CachedStays(host, Do(host, s, ops[0]), ops[1..], key, pkg, v);
    }
  }

  /**
   * Once a typed import has kept a module, importing it again after any run of imports, and of
   * registrations of other types, returns the identical value and calls no loader.
   */
  lemma ImportMemoised(host: Host, s: State, ops: seq<Op>, key: string, pkg: string, depth: nat)
    requires s.Valid()
    requires forall op <- ops :: op.Register? ==> host.moduleType(op.loader) != key
    requires var (r, s') := Typed(host, s.reg, key, pkg, host.limit); r.Returned? && Cached(s'.types, key, pkg, r.value)
    ensures var later := Run(host, Do(host, s, Import(Request(pkg, Some(key)))), ops);
      Typed(host, later.reg, key, pkg, depth) == (Typed(host, s.reg, key, pkg, host.limit).0, later.reg)
  {
    hide Typed;
    var r := Typed(host, s.reg, key, pkg, host.limit).0;
    var after := Do(host, s, Import(Request(pkg, Some(key))));
    CachedStays(host, after, ops, key, pkg, r.value);
    TypedKept(host, Run(host, after, ops).reg, key, pkg, depth);
  }

  // Untyped imports.

  /** The registry when the `n`-th type is tried, if none before it offers the module. */
  function BeforeType(host: Host, s: Reg, keys: seq<string>, pkg: string, depth: nat, n: nat): (r: Reg)
    requires s.types.Valid() && n <= |keys| && forall k <- keys :: k in s.types.entries
    ensures RegGrows(s, r)
    decreases n, 0
  {
    if n == 0 then s else TryAt(host, s, keys, pkg, depth, n - 1).1
  }

  /** What the `n`-th type offers, if none before it offers the module, and the registry after that. */
  function TryAt(host: Host, s: Reg, keys: seq<string>, pkg: string, depth: nat, n: nat): (r: (Tried, Reg))
    requires s.types.Valid() && n < |keys| && forall k <- keys :: k in s.types.entries
    ensures RegGrows(s, r.1)
    decreases n, 1
  {
    var before := BeforeType(host, s, keys, pkg, depth, n);
    var r := Try(host, before, keys[n], pkg, depth);
    GrowsFurther(s, before, r.1);
    r
  }

  /** The first `n` types do not offer the module. */
  predicate NoOffer(host: Host, s: Reg, keys: seq<string>, pkg: string, depth: nat, n: nat)
    requires s.types.Valid() && n <= |keys| && forall k <- keys :: k in s.types.entries
  {
    forall m :: 0 <= m < n ==> !TryAt(host, s, keys, pkg, depth, m).0.Found?
  }

  /** The `n`-th type is the first to offer the module. */
  predicate FirstOffer(host: Host, s: Reg, keys: seq<string>, pkg: string, depth: nat, n: nat)
    requires s.types.Valid() && forall k <- keys :: k in s.types.entries
  {
    n < |keys| && TryAt(host, s, keys, pkg, depth, n).0.Found? && NoOffer(host, s, keys, pkg, depth, n)
  }

  /** The types behind the first, tried after it. */
  lemma {:induction false} TryAtNext(host: Host, s: Reg, keys: seq<string>, pkg: string, depth: nat, n: nat)
    requires s.types.Valid() && 1 <= n <= |keys| && forall k <- keys :: k in s.types.entries
    ensures var s1 := TryAt(host, s, keys, pkg, depth, 0).1;
      && BeforeType(host, s, keys, pkg, depth, n) == BeforeType(host, s1, keys[1..], pkg, depth, n - 1)
      && (n < |keys| ==> TryAt(host, s, keys, pkg, depth, n) == TryAt(host, s1, keys[1..], pkg, depth, n - 1))
    decreases n
  {
    hide Try;
    if n > 1 {
      TryAtNext(host, s, keys, pkg, depth, n - 1);
    }
  }

  lemma NoOfferNext(host: Host, s: Reg, keys: seq<string>, pkg: string, depth: nat, n: nat)
    requires s.types.Valid() && 1 <= n <= |keys| && forall k <- keys :: k in s.types.entries
    requires !TryAt(host, s, keys, pkg, depth, 0).0.Found?
    requires NoOffer(host, TryAt(host, s, keys, pkg, depth, 0).1, keys[1..], pkg, depth, n - 1)
    ensures NoOffer(host, s, keys, pkg, depth, n)
  {
    hide TryAt;
    forall m | 0 <= m < n
      ensures !TryAt(host, s, keys, pkg, depth, m).0.Found?
    {
      if m > 0 {
        TryAtNext(host, s, keys, pkg, depth, m);
      }
    }
  }

  /** How far an untyped import goes: to the first type that offers the module, or to the end. */
  lemma {:induction false} UntypedGoes(host: Host, s: Reg, keys: seq<string>, pkg: string, depth: nat) returns (n: nat)
    requires s.types.Valid() && forall k <- keys :: k in s.types.entries
    ensures var (r, s') := Untyped(host, s, keys, pkg, depth);
      if r.Returned?
      then FirstOffer(host, s, keys, pkg, depth, n) && TryAt(host, s, keys, pkg, depth, n) == (Found(r.value), s')
      else && n == |keys| && NoOffer(host, s, keys, pkg, depth, n)
           && (r, s') == (Thrown(NoModule(pkg)), BeforeType(host, s, keys, pkg, depth, n))
    decreases |keys|
  {
    hide Try, EntryGrows, Types.Valid;
    n := 0;
    if keys != [] {
      var (tried, s1) := TryAt(host, s, keys, pkg, depth, 0);
      if !tried.Found? {
        n := UntypedGoes(host, s1, keys[1..], pkg, depth);
        n := n + 1;
        NoOfferNext(host, s, keys, pkg, depth, n);
        TryAtNext(host, s, keys, pkg, depth, n);
      }
    }
  }

  lemma FirstOfferOnly(host: Host, s: Reg, keys: seq<string>, pkg: string, depth: nat, n: nat, m: nat)
    requires s.types.Valid() && (forall k <- keys :: k in s.types.entries) && FirstOffer(host, s, keys, pkg, depth, n)
    requires FirstOffer(host, s, keys, pkg, depth, m) || (m == |keys| && NoOffer(host, s, keys, pkg, depth, m))
    ensures FirstOffer(host, s, keys, pkg, depth, m) && n == m
  {
  }

  /**
   * An untyped import over the types `keys` ends with `r` and leaves `s'`: it returns what the first type,
   * in enumeration order, offers that offers the module, and throws exactly when none does. Nothing
   * changes but by what the types do that are tried.
   */
  ghost predicate UntypedOutcome(host: Host, s: Reg, keys: seq<string>, pkg: string, depth: nat, r: Result, s': Reg)
    requires s.types.Valid() && forall k <- keys :: k in s.types.entries
  {
    && (r.Returned? <==> exists n: nat :: FirstOffer(host, s, keys, pkg, depth, n))
    && (forall n: nat :: FirstOffer(host, s, keys, pkg, depth, n) ==>
          var (tried, after) := TryAt(host, s, keys, pkg, depth, n); (r, s') == (Returned(tried.value), after))
    && (r.Thrown? <==> NoOffer(host, s, keys, pkg, depth, |keys|))
    && (r.Thrown? ==> (r, s') == (Thrown(NoModule(pkg)), BeforeType(host, s, keys, pkg, depth, |keys|)))
  }

  lemma UntypedReturns(host: Host, s: Reg, keys: seq<string>, pkg: string, depth: nat)
    requires s.types.Valid() && forall k <- keys :: k in s.types.entries
    ensures var (r, s') := Untyped(host, s, keys, pkg, depth); UntypedOutcome(host, s, keys, pkg, depth, r, s')
  {
    hide Untyped, TryAt, BeforeType;
    var m := UntypedGoes(host, s, keys, pkg, depth);
    forall n: nat | FirstOffer(host, s, keys, pkg, depth, n)
      ensures Untyped(host, s, keys, pkg, depth).0.Returned? && n == m
    {
      FirstOfferOnly(host, s, keys, pkg, depth, n, m);
    }
  }

  /** What `kg_import` comes to: with a type, its outcome; without, that of all types in enumeration order. */
  ghost predicate ImportOutcome(host: Host, s: Reg, request: Request, depth: nat, r: Result, s': Reg)
    requires s.types.Valid()
  {
    match request.key
    case Some(key) => TypedOutcome(host, s, key, request.pkg, depth, r, s')
    case None => UntypedOutcome(host, s, s.types.keys, request.pkg, depth, r, s')
  }

  lemma ImportReturns(host: Host, s: Reg, request: Request, depth: nat)
    requires s.types.Valid()
    ensures var (r, s') := Imported(host, s, request, depth); ImportOutcome(host, s, request, depth, r, s')
  {
    hide Typed, Untyped, TypedOutcome, UntypedOutcome;
    match request.key
    case Some(key) => TypedReturns(host, s, key, request.pkg, depth);
    case None => UntypedReturns(host, s, s.types.keys, request.pkg, depth);
  }

  /** There is no other outcome. */
  lemma OutcomeUnique(host: Host, s: Reg, request: Request, depth: nat, r: Result, s': Reg)
    requires s.types.Valid() && ImportOutcome(host, s, request, depth, r, s')
    ensures (r, s') == Imported(host, s, request, depth)
  {
    hide Typed, Untyped, FirstOffer, NoOffer, TryAt, BeforeType, LoaderAnswer, Decides, AllAsked, Settled, Grows;
    ImportReturns(host, s, request, depth);
  }

  /** An import inside a loader call comes to the same, on a deeper level, unless it is too deep. */
  lemma NestedReturns(host: Host, s: Reg, request: Request, depth: nat)
    requires s.types.Valid()
    ensures var (r, s') := Nested(host, s, request, depth);
      if depth == 0 then (r, s') == (Thrown(TooDeep), s) else ImportOutcome(host, s, request, depth - 1, r, s')
  {
    hide Imported, ImportOutcome;
    if depth > 0 {
      ImportReturns(host, s, request, depth - 1);
    }
  }

  /** The first answer of the loader of a type leaves the value answered among the modules kept. */
  ghost predicate KeptAnswer(host: Host, s: Reg, key: string, pkg: string, depth: nat)
    requires s.types.Valid() && key in s.types.entries
  {
    exists n :: Decides(host, s, key, pkg, depth, n) &&
      var (a, s1) := LoaderAnswer(host, s, key, pkg, depth, n); a.ok || Cached(s1.types, key, pkg, a.value)
  }

  /** What a type offers is kept by it, unless it is the error its loader just answered. */
  lemma TryKeeps(host: Host, s: Reg, key: string, pkg: string, depth: nat)
    requires s.types.Valid() && key in s.types.entries && Try(host, s, key, pkg, depth).0.Found?
    ensures var (tried, s') := Try(host, s, key, pkg, depth);
      Cached(s'.types, key, pkg, tried.value) <==>
        Keeps(s.types.entries[key], pkg) || KeptAnswer(host, s, key, pkg, depth)
  {
    hide Try, LoaderAnswer, Decides, AllAsked, Grows, Types.Valid;
    TryReturns(host, s, key, pkg, depth);
    if Asked(s.types.entries[key], pkg) {
      var i :| Decides(host, s, key, pkg, depth, i);
      DecidesOnce(host, s, key, pkg, depth, i);
    }
  }

  lemma DecidesOnce(host: Host, s: Reg, key: string, pkg: string, depth: nat, i: nat)
    requires s.types.Valid() && key in s.types.entries && Decides(host, s, key, pkg, depth, i)
    ensures forall n :: Decides(host, s, key, pkg, depth, n) ==> n == i
  {
    forall n | Decides(host, s, key, pkg, depth, n)
      ensures n == i
    {
      FirstOnly(host, s, QuestOf(host, s.types.entries[key], pkg), depth, n, i);
    }
  }

  /**
   * What an untyped import returns is kept under the type that offered it, unless it is the error a
   * loader just answered.
   */
  lemma UntypedKeeps(host: Host, s: Reg, keys: seq<string>, pkg: string, depth: nat, n: nat)
    requires s.types.Valid() && (forall k <- keys :: k in s.types.entries) && FirstOffer(host, s, keys, pkg, depth, n)
    ensures var (r, s') := Untyped(host, s, keys, pkg, depth);
      var before := BeforeType(host, s, keys, pkg, depth, n);
      && keys[n] in before.types.entries && r.Returned?
      && (Cached(s'.types, keys[n], pkg, r.value) <==>
            Keeps(before.types.entries[keys[n]], pkg) || KeptAnswer(host, before, keys[n], pkg, depth))
  {
    var before := BeforeType(host, s, keys, pkg, depth, n);
    assert keys[n] in keys && keys[n] in before.types.entries;
    assert TryAt(host, s, keys, pkg, depth, n) == Try(host, before, keys[n], pkg, depth);
    hide Untyped, BeforeType, TryAt, Try, KeptAnswer, Cached, Keeps, Grows, Types.Valid;
    UntypedReturns(host, s, keys, pkg, depth);
    TryKeeps(host, before, keys[n], pkg, depth);
  }

  /**
   * A module an untyped import kept under a type is what every later typed import of that type
   * returns, without a loader call, after any run that does not register the type again.
   */
  lemma UntypedMemoised(host: Host, s: State, ops: seq<Op>, pkg: string, n: nat, depth: nat)
    requires s.Valid() && FirstOffer(host, s.reg, s.reg.types.keys, pkg, host.limit, n)
    requires forall op <- ops :: op.Register? ==> host.moduleType(op.loader) != s.reg.types.keys[n]
    requires var (r, s') := Untyped(host, s.reg, s.reg.types.keys, pkg, host.limit);
      r.Returned? && Cached(s'.types, s.reg.types.keys[n], pkg, r.value)
    ensures var later := Run(host, Do(host, s, Import(Request(pkg, None))), ops);
      Typed(host, later.reg, s.reg.types.keys[n], pkg, depth)
      == (Untyped(host, s.reg, s.reg.types.keys, pkg, host.limit).0, later.reg)
  {
    hide Typed, Untyped;
    var r := Untyped(host, s.reg, s.reg.types.keys, pkg, host.limit).0;
    var after := Do(host, s, Import(Request(pkg, None)));
    CachedStays(host, after, ops, s.reg.types.keys[n], pkg, r.value);
    TypedKept(host, Run(host, after, ops).reg, s.reg.types.keys[n], pkg, depth);
  }

  /** A module kept under the `n`-th type is what an untyped import gets that comes as far as that. */
  lemma KeptOffer(host: Host, t: Reg, keys: seq<string>, pkg: string, depth: nat, n: nat, v: Value)
    requires t.types.Valid() && (forall k <- keys :: k in t.types.entries)
    requires n < |keys| && Cached(t.types, keys[n], pkg, v)
    ensures TryAt(host, t, keys, pkg, depth, n).0 == Found(v)
  {
    hide Try, Cached, Grows, BeforeType;
    var before := BeforeType(host, t, keys, pkg, depth, n);
    CachedGrows(t, before, keys[n], pkg, v);
    CachedTried(host, before, keys[n], pkg, depth, v);
  }

  lemma CachedTried(host: Host, s: Reg, key: string, pkg: string, depth: nat, v: Value)
    requires s.types.Valid() && Cached(s.types, key, pkg, v)
    ensures key in s.types.entries && Try(host, s, key, pkg, depth) == (Found(v), s)
  {
    hide Search;
  }

  /**
   * A module kept under a type is what an untyped import returns exactly unless a type before that one
   * offers something else.
   */
  lemma KeptReturned(host: Host, t: Reg, pkg: string, depth: nat, n: nat, v: Value)
    requires t.types.Valid() && n < |t.types.keys| && Cached(t.types, t.types.keys[n], pkg, v)
    ensures Imported(host, t, Request(pkg, None), depth).0 == Returned(v) <==>
      forall m: nat :: m < n && FirstOffer(host, t, t.types.keys, pkg, depth, m) ==>
        TryAt(host, t, t.types.keys, pkg, depth, m).0 == Found(v)
  {
    hide Imported, TryAt, BeforeType, Cached, Grows;
    KeptOffer(host, t, t.types.keys, pkg, depth, n, v);
    ImportReturns(host, t, Request(pkg, None), depth);
    var (r, t') := Imported(host, t, Request(pkg, None), depth);
    assert !NoOffer(host, t, t.types.keys, pkg, depth, |t.types.keys|);
    var m: nat :| FirstOffer(host, t, t.types.keys, pkg, depth, m);
    assert m <= n && r == Returned(TryAt(host, t, t.types.keys, pkg, depth, m).0.value);
    forall k: nat | FirstOffer(host, t, t.types.keys, pkg, depth, k)
      ensures k == m
    {
      FirstOfferOnly(host, t, t.types.keys, pkg, depth, k, m);
    }
  }

  /** What an untyped import kept stays kept by the same type, of the same rank, until that is registered again. */
  lemma UntypedStays(host: Host, s: State, ops: seq<Op>, pkg: string, n: nat)
    requires s.Valid() && n < |s.reg.types.keys|
    requires forall op <- ops :: op.Register? ==> host.moduleType(op.loader) != s.reg.types.keys[n]
    requires var (r, s') := Imported(host, s.reg, Request(pkg, None), host.limit);
      r.Returned? && Cached(s'.types, s.reg.types.keys[n], pkg, r.value)
    ensures var w := Run(host, Do(host, s, Import(Request(pkg, None))), ops).reg.types;
      && n < |w.keys| && w.keys[n] == s.reg.types.keys[n]
      && Cached(w, w.keys[n], pkg, Imported(host, s.reg, Request(pkg, None), host.limit).0.value)
  {
    hide Imported, Cached, Run, Types.Valid;
    var r := Imported(host, s.reg, Request(pkg, None), host.limit).0;
    var after := Do(host, s, Import(Request(pkg, None)));
    CachedStays(host, after, ops, s.reg.types.keys[n], pkg, r.value);
    RunKeys(host, after, ops);
  }

  // Loaders that import nothing while they load, and answer the same whenever they are asked.

  ghost predicate Plain(host: Host) {
    forall load :: host.asks(load) == 0
  }

  ghost predicate Stable(host: Host) {
    forall p, path, i, j :: host.answer(Load(p, path, i), []) == host.answer(Load(p, path, j), [])
  }

  lemma LoadedPlain(host: Host, s: Reg, loader: nat, path: string, depth: nat)
    requires s.types.Valid() && Plain(host)
    ensures Loaded(host, s, loader, path, depth)
         == (host.answer(Load(loader, path, s.calls), []), s.(calls := s.calls + 1))
  {
    hide Nested;
    assert host.asks(Load(loader, path, s.calls)) == 0;
  }

  lemma {:induction false} SearchStable(host: Host, s: Reg, t: Reg, loader: nat,
      pkg: string, dirs: seq<string>, depth: nat)
    requires s.types.Valid() && t.types.Valid() && Plain(host) && Stable(host)
    ensures var (found, s') := Search(host, s, loader, pkg, dirs, depth);
      Search(host, t, loader, pkg, dirs, depth).0 == found && s'.types == s.types
    decreases |dirs|
  {
    hide Loaded, Plain, Grows, Types.Valid;
    if dirs != [] && Trim(dirs[0]) == [] {
      SearchStable(host, s, t, loader, pkg, dirs[1..], depth);
    } else if dirs != [] {
      var path := host.modulePath(loader, Trim(dirs[0]), pkg);
      LoadedPlain(host, s, loader, path, depth);
      LoadedPlain(host, t, loader, path, depth);
      assert host.answer(Load(loader, path, s.calls), []) == host.answer(Load(loader, path, t.calls), []);
      hide Stable;
      SearchStable(host, s.(calls := s.calls + 1), t.(calls := t.calls + 1), loader, pkg, dirs[1..], depth);
    }
  }

  /** What such a type offers, and what it is afterwards; only the type itself matters. */
  ghost function Offer(host: Host, e: Entry, pkg: string, depth: nat): (Tried, Entry) {
    if e.libs.None? then (WithoutLibs, e)
    else if pkg in e.libs.value then (Found(e.libs.value[pkg]), e)
    else if Address(e.loader) == 0 then (WithoutLoader, e)
    else
      match Search(host, Reg(Types([], map[]), 0), Address(e.loader), pkg, Dirs(host, Address(e.loader)), depth).0
      case None => (Missing, e)
      case Some(a) => (Found(a.value), if a.ok then e.(libs := Some(e.libs.value[pkg := a.value])) else e)
  }

  lemma OfferAgain(host: Host, e: Entry, pkg: string, depth: nat)
    ensures var (tried, e') := Offer(host, e, pkg, depth);
      Offer(host, e', pkg, depth) == (tried, e') && (!tried.Found? ==> e' == e)
  {
    hide Search;
  }

  lemma TryOffers(host: Host, s: Reg, key: string, pkg: string, depth: nat)
    requires s.types.Valid() && key in s.types.entries && Plain(host) && Stable(host)
    ensures var (tried, e') := Offer(host, s.types.entries[key], pkg, depth);
      var (tried', s') := Try(host, s, key, pkg, depth);
      tried' == tried && s'.types == s.types.(entries := s.types.entries[key := e'])
  {
    hide Search, RegGrows, Plain, Stable, Dirs;
    var e := s.types.entries[key];
    assert s.types.entries[key := e] == s.types.entries;
    SearchStable(host, s, Reg(Types([], map[]), 0), Address(e.loader), pkg, Dirs(host, Address(e.loader)), depth);
  }

  /** With such loaders an untyped import repeated returns the same and changes nothing more. */
  lemma {:induction false} UntypedIdempotent(host: Host, s: Reg, t: Reg, keys: seq<string>, pkg: string, depth: nat)
    requires s.types.Valid() && (forall k <- keys :: k in s.types.entries) && Plain(host) && Stable(host)
    requires forall a, b :: 0 <= a < b < |keys| ==> keys[a] != keys[b]
    requires t.types == Untyped(host, s, keys, pkg, depth).1.types
    ensures var (r, s') := Untyped(host, s, keys, pkg, depth);
      && (forall k :: k in s.types.entries && k !in keys ==> s'.types.entries[k] == s.types.entries[k])
      && Untyped(host, t, keys, pkg, depth).0 == r && Untyped(host, t, keys, pkg, depth).1.types == t.types
    decreases |keys|
  {
    hide Try, Offer, Plain, Stable, EntryGrows, Types.Valid;
    if keys != [] {
      var (tried, s1) := Try(host, s, keys[0], pkg, depth);
      var e := s.types.entries[keys[0]];
      TryOffers(host, s, keys[0], pkg, depth);
      TryOffers(host, t, keys[0], pkg, depth);
      OfferAgain(host, e, pkg, depth);
      assert s.types.entries[keys[0] := e] == s.types.entries;
      assert t.types.entries[keys[0] := t.types.entries[keys[0]]] == t.types.entries;
      if !tried.Found? {
        assert keys[0] !in keys[1..];
        UntypedIdempotent(host, s1, t, keys[1..], pkg, depth);
        UntypedIdempotent(host, s1, Try(host, t, keys[0], pkg, depth).1, keys[1..], pkg, depth);
      }
    }
  }

  lemma TypedAgain(host: Host, s: Reg, t: Reg, key: string, pkg: string, depth: nat)
    requires s.types.Valid() && Plain(host) && Stable(host)
    requires t.types == Typed(host, s, key, pkg, depth).1.types
    ensures var (r, s') := Typed(host, t, key, pkg, depth);
      r == Typed(host, s, key, pkg, depth).0 && s'.types == t.types
  {
    hide Try, Offer, Plain, Stable, Grows;
    if key in s.types.entries {
      TryOffers(host, s, key, pkg, depth);
      TryOffers(host, t, key, pkg, depth);
      OfferAgain(host, s.types.entries[key], pkg, depth);
    }
  }

  /** With such loaders any import repeated returns the same and changes nothing more. */
  lemma ImportAgain(host: Host, s: Reg, t: Reg, request: Request, depth: nat)
    requires s.types.Valid() && Plain(host) && Stable(host)
    requires t.types == Imported(host, s, request, depth).1.types
    ensures var (r, s') := Imported(host, t, request, depth);
      r == Imported(host, s, request, depth).0 && s'.types == t.types
  {
    hide Typed, Untyped, Plain, Stable, EntryGrows;
    match request.key
    case None => UntypedIdempotent(host, s, t, s.types.keys, request.pkg, depth);
    case Some(key) => TypedAgain(host, s, t, key, request.pkg, depth);
  }
}

/** The module registry as a value: what importing, registering and the finaliser mean. */
module Registry {
  import opened Duktape
  import opened Options
  import opened SearchPaths

  /** One module type: its loader, the function that frees the loader, and the modules loaded so far. */
  datatype Entry = Entry(loader: Option<Value>, destroy: Option<Value>, libs: Option<map<string, Value>>)

  /** All module types, in enumeration order. */
  datatype Types = Types(keys: seq<string>, entries: map<string, Entry>) {

    ghost predicate Valid() {
      && (forall k <- keys :: k in entries) && (forall k <- entries :: k in keys)
      && forall i, j :: 0 <= i < j < |keys| ==> keys[i] != keys[j]
    }
  }

  datatype Error =
    | NoModuleName | NoModules
    | NotLoader(key: string) | NotLibs(key: string) | NoLoader(key: string)
    | NoLoaderModule(key: string, pkg: string) | NoModule(pkg: string)
    | TooDeep    // thrown by the engine: too many native calls inside one another

  datatype Result = Returned(value: Value) | Thrown(error: Error)

  /** What a loader answers: whether it loaded a module, and the value it left on the stack. */
  datatype Answer = Answer(ok: bool, value: Value)

  /** One call of a loader; `call` tells the calls for one path apart. */
  datatype Load = Load(loader: nat, path: string, call: nat)

  /** An import: `kg_import(pkg)` or `kg_import(pkg, key)`. */
  datatype Request = Request(pkg: string, key: Option<string>)

  /**
   * The world outside: what the loaders say of themselves, the environment they search, and what they
   * do when they load. A module may import others while it is being loaded: `next` is its next import
   * and `answer` its answer, given the results of its imports so far, of which there are `asks` at most.
   * The engine lets `limit` native calls run inside one another.
   */
  datatype Host = Host(
    moduleType: nat -> string,
    searchPath: nat -> Option<string>,
    modulePath: (nat, string, string) -> string,
    asks: Load -> nat,
    next: (Load, seq<Result>) -> Option<Request>,
    answer: (Load, seq<Result>) -> Answer,
    limit: nat)

  // The search path.

  const FLAG := ':'

  function Dirs(host: Host, loader: nat): seq<string> {
    match host.searchPath(loader)
    case None => []
    case Some(env) => Split(Trim(env), FLAG)
  }

  // Importing.

  /** The registry as an import sees it: the module types, and the loader calls made so far. */
  datatype Reg = Reg(types: Types, calls: nat)

  function Address(v: Option<Value>): nat {
    if v.Some? && v.value.Pointer? then v.value.p else 0
  }

  ghost predicate EntryGrows(e: Entry, e': Entry) {
    && e'.loader == e.loader && e'.destroy == e.destroy && e'.libs.Some? == e.libs.Some?
    && (e.libs.Some? ==> forall pkg <- e.libs.value :: pkg in e'.libs.value && e'.libs.value[pkg] == e.libs.value[pkg])
  }

  /** Nothing changes but modules being added to libraries. */
  ghost predicate Grows(w: Types, w': Types) {
    && w'.keys == w.keys && w'.entries.Keys == w.entries.Keys
    && forall k <- w.entries :: EntryGrows(w.entries[k], w'.entries[k])
  }

  ghost predicate RegGrows(s: Reg, s': Reg) {
    s'.types.Valid() && Grows(s.types, s'.types) && s'.calls >= s.calls
  }

  lemma GrowsFurther(s: Reg, s1: Reg, s2: Reg)
    requires RegGrows(s, s1) && RegGrows(s1, s2)
    ensures RegGrows(s, s2)
  {
    forall k | k in s.types.entries
      ensures EntryGrows(s.types.entries[k], s2.types.entries[k])
    {
      assert EntryGrows(s.types.entries[k], s1.types.entries[k]);
      assert EntryGrows(s1.types.entries[k], s2.types.entries[k]);
    }
  }

  /** The registry with one more module in the libraries of a type. */
  function Keeping(w: Types, key: string, pkg: string, v: Value): Types
    requires key in w.entries && w.entries[key].libs.Some?
  {
    var e := w.entries[key];
    w.(entries := w.entries[key := e.(libs := Some(e.libs.value[pkg := v]))])
  }

  /** Keeping a module that a type did not have before is growth. */
  lemma KeepingGrows(s: Reg, s1: Reg, key: string, pkg: string, v: Value)
    requires RegGrows(s, s1) && key in s.types.entries
    requires s.types.entries[key].libs.Some? && pkg !in s.types.entries[key].libs.value
    ensures s1.types.entries[key].libs.Some?
    ensures RegGrows(s, s1.(types := Keeping(s1.types, key, pkg, v)))
  {
    assert EntryGrows(s.types.entries[key], s1.types.entries[key]);
  }

  datatype Tried = WithoutLibs | WithoutLoader | Missing | Found(value: Value)

  /**
   * An import by a module that is being loaded. `depth` is how many more native calls the engine
   * lets run inside one another.
   */
  function Nested(host: Host, s: Reg, request: Request, depth: nat): (r: (Result, Reg))
    requires s.types.Valid()
    ensures RegGrows(s, r.1)
    decreases depth, 0
  {
    if depth == 0 then (Thrown(TooDeep), s) else Imported(host, s, request, depth - 1)
  }

  /** What a loader does from the results of its imports so far to its answer. */
  function Perform(host: Host, s: Reg, load: Load, results: seq<Result>, depth: nat): (r: (Answer, Reg))
    requires s.types.Valid()
    ensures RegGrows(s, r.1)
    decreases depth, 1, host.asks(load) - |results|
  {
    var request := host.next(load, results);
    if request.None? || |results| >= host.asks(load) then (host.answer(load, results), s)
    else
      var (result, s1) := Nested(host, s, request.value, depth);
      var (a, s2) := Perform(host, s1, load, results + [result], depth);
      GrowsFurther(s, s1, s2);
      (a, s2)
  }

  /** One loader call. */
  function Loaded(host: Host, s: Reg, loader: nat, path: string, depth: nat): (r: (Answer, Reg))
    requires s.types.Valid()
    ensures RegGrows(s, r.1) && r.1.calls > s.calls
    decreases depth, 2
  {
    Perform(host, s.(calls := s.calls + 1), Load(loader, path, s.calls), [], depth)
  }

  /** The first answer from the directories given other than "no such module". */
  function Search(host: Host, s: Reg, loader: nat, pkg: string, dirs: seq<string>, depth: nat)
      : (r: (Option<Answer>, Reg))
    requires s.types.Valid()
    ensures RegGrows(s, r.1)
    decreases depth, 3, |dirs|
  {
    if dirs == [] then (None, s)
    else
      var lib := Trim(dirs[0]);
      if lib == [] then Search(host, s, loader, pkg, dirs[1..], depth)
      else
        var (a, s1) := Loaded(host, s, loader, host.modulePath(loader, lib, pkg), depth);
        if a.ok || a.value != Undefined then (Some(a), s1)
        else
          var (found, s2) := Search(host, s1, loader, pkg, dirs[1..], depth);
          GrowsFurther(s, s1, s2);
          (found, s2)
  }

  /** Looks a module up in one type, asking its loader if need be; only a success is kept. */
  function Try(host: Host, s: Reg, key: string, pkg: string, depth: nat): (r: (Tried, Reg))
    requires s.types.Valid() && key in s.types.entries
    ensures RegGrows(s, r.1)
    decreases depth, 4
  {
    var e := s.types.entries[key];
    if e.libs.None? then (WithoutLibs, s)
    else if pkg in e.libs.value then (Found(e.libs.value[pkg]), s)
    else if Address(e.loader) == 0 then (WithoutLoader, s)
    else
      match Search(host, s, Address(e.loader), pkg, Dirs(host, Address(e.loader)), depth)
      case (None, s1) => (Missing, s1)
      case (Some(a), s1) =>
        if !a.ok then (Found(a.value), s1)
        else
          KeepingGrows(s, s1, key, pkg, a.value);
          (Found(a.value), s1.(types := Keeping(s1.types, key, pkg, a.value)))
  }

  /** `kg_import(pkg, key)`. */
  function Typed(host: Host, s: Reg, key: string, pkg: string, depth: nat): (r: (Result, Reg))
    requires s.types.Valid()
    ensures RegGrows(s, r.1)
    decreases depth, 5
  {
    if key !in s.types.entries then (Thrown(NoLoader(key)), s)
    else
      match Try(host, s, key, pkg, depth)
      case (WithoutLibs, s1) => (Thrown(NotLibs(key)), s1)
      case (WithoutLoader, s1) => (Thrown(NotLoader(key)), s1)
      case (Missing, s1) => (Thrown(NoLoaderModule(key, pkg)), s1)
      case (Found(v), s1) => (Returned(v), s1)
  }

  /** `kg_import(pkg)`: the types in turn, passing over those that have nothing to offer. */
  function Untyped(host: Host, s: Reg, keys: seq<string>, pkg: string, depth: nat): (r: (Result, Reg))
    requires s.types.Valid() && forall k <- keys :: k in s.types.entries
    ensures RegGrows(s, r.1)
    decreases depth, 5, |keys|
  {
    if keys == [] then (Thrown(NoModule(pkg)), s)
    else
      var (tried, s1) := Try(host, s, keys[0], pkg, depth);
      if tried.Found? then (Returned(tried.value), s1)
      else
        var (result, s2) := Untyped(host, s1, keys[1..], pkg, depth);
        GrowsFurther(s, s1, s2);
        (result, s2)
  }

  /** Either. */
  function Imported(host: Host, s: Reg, request: Request, depth: nat): (r: (Result, Reg))
    requires s.types.Valid()
    ensures RegGrows(s, r.1)
    decreases depth, 6
  {
    match request.key
    case Some(key) => Typed(host, s, key, request.pkg, depth)
    case None => Untyped(host, s, s.types.keys, request.pkg, depth)
  }

  // Registering.

  /** The call that frees an entry's loader, if it has a function for that. */
  function Frees(e: Entry): seq<(nat, nat)> {
    if Address(e.destroy) != 0 then [(Address(e.destroy), Address(e.loader))] else []
  }

  function NewEntry(loader: nat, destroy: nat): Entry {
    Entry(Some(Pointer(loader)), Some(Pointer(destroy)), Some(map[]))
  }

  /** A new type takes the place of one of the same name, keeping its rank. */
  function Registered(w: Types, key: string, loader: nat, destroy: nat): Types {
    Types(if key in w.entries then w.keys else w.keys + [key], w.entries[key := NewEntry(loader, destroy)])
  }

  /** What registering frees: the loader replaced. */
  function Replaced(w: Types, key: string): seq<(nat, nat)> {
    if key in w.entries then Frees(w.entries[key]) else []
  }

  /** What the finaliser frees: every loader, in enumeration order. */
  function FreesAll(w: Types, keys: seq<string>): seq<(nat, nat)>
    requires forall k <- keys :: k in w.entries
  {
    if keys == [] then [] else Frees(w.entries[keys[0]]) + FreesAll(w, keys[1..])
  }
}

/** The `Store` class (vuex.js:98-135) and the imperative `installModule`
    (vuex.js:52-96) that fills it: the constructor sets up empty tables and the
    module tree, installation walks the tree, and `commit`/`dispatch` run the
    handlers registered under a name. */
module Vuex {
  import opened Common
  import opened Entries
  import opened StateTree
  import opened Modules
  import opened Install

  /** One call of a configured function: `fn.call(receiver, first, ...args)`. */
  datatype Invocation = Invocation(fn: FnId, receiver: Target, first: Target, args: seq<Value>)

  /** `this.mutations[type]` (or `this.actions[type]`) is `undefined`, so
      `.forEach` throws. */
  datatype CallError = UnknownType(name: Key)

  /** Reading a getter: its function and the value it is applied to. */
  datatype GetterCall = GetterCall(fn: FnId, arg: Value)

  /** `options.state || {}`. */
  function InitialState(options: RawModule): Value
  {
    if Truthy(options.state) then options.state else Obj(map[])
  }

  /** The store right after vuex.js:100-103: the root state and empty tables. */
  function InitialTables(options: RawModule): Tables
  {
    Tables(InitialState(options), map[], map[], map[])
  }

  /** What calling a pushed wrapper does: `fn.call(store, first, ...args)`. */
  function Run(h: Handler, args: seq<Value>): Invocation
  {
    Invocation(h.fn, TheStore, h.first, args)
  }

  /** `hs.forEach(h => h(...args))`, as the calls it makes. */
  function Calls(hs: seq<Handler>, args: seq<Value>): seq<Invocation>
    decreases |hs|
  {
    if hs == [] then [] else Calls(hs[..|hs| - 1], args) + [Run(hs[|hs| - 1], args)]
  }

  /** `store.getters[name]`: `undefined` when no module declared it; otherwise
      the getter's function applied to its module's slice. An object slice is
      read at the module's path, which holds the module's state object as long
      as nothing replaces that property after installation. */
  function ReadGetter(t: Tables, name: Key): Option<GetterCall>
  {
    if name !in t.getters then None
    else
      var g := t.getters[name];
      match g.slice
      case Live(p) => Some(GetterCall(g.fn, Walk(t.state, p).GetOr(Undefined)))
      case Fixed(v) => Some(GetterCall(g.fn, v))
  }

  class Store {
    /** The root state object (`_vm.state`). */
    var state: Value
    var getters: map<Key, Getter>
    var mutations: Table
    var actions: Table
    var modules: ModuleCollection

    function Current(): Tables
      reads this
    {
      Tables(state, getters, mutations, actions)
    }

    /** vuex.js:99-111: the root state, three empty tables and the module tree
        built from `options`. Installation follows in `NewStore`. */
    constructor (options: RawModule)
      ensures Current() == InitialTables(options)
      ensures fresh(modules) && modules.root == Some(Build(options))
    {
      state := InitialState(options);
      getters := map[];
      mutations := map[];
      actions := map[];
      modules := new ModuleCollection(options);
    }

    /** `commit(type, ...rest)`: every mutation handler registered under
        `type` runs once, in registration order; an unknown type throws. */
    method Commit(typ: Key, args: seq<Value>) returns (r: Result<seq<Invocation>, CallError>)
      ensures r.Failure? <==> typ !in mutations
      ensures r.Failure? ==> r.error == UnknownType(typ)
      ensures r.Success? ==> r.value == Calls(mutations[typ], args)
    {
      if typ !in mutations {
        return Failure(UnknownType(typ));
      }
      var calls := RunHandlers(mutations[typ], args);
      return Success(calls);
    }

    /** `dispatch(type, ...rest)`: the same over the action handlers. */
    method Dispatch(typ: Key, args: seq<Value>) returns (r: Result<seq<Invocation>, CallError>)
      ensures r.Failure? <==> typ !in actions
      ensures r.Failure? ==> r.error == UnknownType(typ)
      ensures r.Success? ==> r.value == Calls(actions[typ], args)
    {
      if typ !in actions {
        return Failure(UnknownType(typ));
      }
      var calls := RunHandlers(actions[typ], args);
      return Success(calls);
    }
  }

  /** The `forEach(h => h(...rest))` shared by `commit` and `dispatch`. */
  method RunHandlers(hs: seq<Handler>, args: seq<Value>) returns (calls: seq<Invocation>)
    ensures calls == Calls(hs, args)
  {
    calls := [];
    var i := 0;
    while i < |hs|
      invariant i <= |hs|
      invariant calls == Calls(hs[..i], args)
    {
      assert hs[..i + 1][..i] == hs[..i];
      calls := calls + [Run(hs[i], args)];
      i := i + 1;
    }
    assert hs[..|hs|] == hs;
  }

  /** `installModule(store, store.state, path, n)`. */
  method InstallModule(store: Store, path: seq<Key>, n: Node) returns (out: Outcome<InstallError>)
    modifies store
    ensures store.modules == old(store.modules)
    ensures InstallSpec(old(store.Current()), path, n) == if out.Pass? then Success(store.Current()) else Failure(out.error)
    decreases n, 1
  {
    if path != [] {
      var mounted := MountSlice(store.state, path, n.state);
      if mounted.Failure? {
        return Fail(mounted.error);
      }
      store.state := mounted.value;
    }
    out := DefineModuleGetters(store, n.raw.getters, SliceOf(path, n.state));
    if out.Fail? {
      return;
    }
    PushActions(store, n.raw.actions);
    PushMutations(store, n.raw.mutations);
    out := InstallChildModules(store, path, n);
  }

  /** The `forEach` over a module's `getters` (vuex.js:61-70). */
  method DefineModuleGetters(store: Store, decls: seq<(Key, FnId)>, slice: Slice) returns (out: Outcome<InstallError>)
    modifies store
    ensures store.state == old(store.state) && store.modules == old(store.modules)
    ensures store.mutations == old(store.mutations) && store.actions == old(store.actions)
    ensures DefineGetters(old(store.getters), BindGetters(decls, slice)) ==
      if out.Pass? then Success(store.getters) else Failure(out.error)
  {
    var i := 0;
    while i < |decls|
      invariant i <= |decls|
      invariant store.state == old(store.state) && store.modules == old(store.modules)
      invariant store.mutations == old(store.mutations) && store.actions == old(store.actions)
      invariant DefineGetters(old(store.getters), BindGetters(decls, slice)) ==
        DefineGetters(store.getters, BindGetters(decls[i..], slice))
    {
      var name, fn := decls[i].0, decls[i].1;
      DropFirst(decls, i);
      if name in store.getters {
        return Fail(GetterRedefined(name));
      }
      store.getters := store.getters[name := Getter(fn, slice)];
      i := i + 1;
    }
    assert decls[i..] == [];
    return Pass;
  }

  /** The `forEach` over a module's `actions` (vuex.js:72-80). */
  method PushActions(store: Store, decls: seq<(Key, FnId)>)
    modifies store
    ensures store.state == old(store.state) && store.modules == old(store.modules)
    ensures store.getters == old(store.getters) && store.mutations == old(store.mutations)
    ensures store.actions == AddHandlers(old(store.actions), decls, TheStore)
  {
    var i := 0;
    while i < |decls|
      invariant i <= |decls|
      invariant store.state == old(store.state) && store.modules == old(store.modules)
      invariant store.getters == old(store.getters) && store.mutations == old(store.mutations)
      invariant AddHandlers(old(store.actions), decls, TheStore) == AddHandlers(store.actions, decls[i..], TheStore)
    {
      var name, fn := decls[i].0, decls[i].1;
      DropFirst(decls, i);
      ghost var before := store.actions;
      if name !in store.actions {
        store.actions := store.actions[name := []];
      }
      store.actions := store.actions[name := store.actions[name] + [Handler(fn, TheStore)]];
      assert store.actions == AddHandler(before, name, Handler(fn, TheStore));
      i := i + 1;
    }
  }

  /** The `forEach` over a module's `mutations` (vuex.js:81-88). */
  method PushMutations(store: Store, decls: seq<(Key, FnId)>)
    modifies store
    ensures store.state == old(store.state) && store.modules == old(store.modules)
    ensures store.getters == old(store.getters) && store.actions == old(store.actions)
    ensures store.mutations == AddHandlers(old(store.mutations), decls, RootState)
  {
    var i := 0;
    while i < |decls|
      invariant i <= |decls|
      invariant store.state == old(store.state) && store.modules == old(store.modules)
      invariant store.getters == old(store.getters) && store.actions == old(store.actions)
      invariant AddHandlers(old(store.mutations), decls, RootState) == AddHandlers(store.mutations, decls[i..], RootState)
    {
      var name, fn := decls[i].0, decls[i].1;
      DropFirst(decls, i);
      ghost var before := store.mutations;
      if name !in store.mutations {
        store.mutations := store.mutations[name := []];
      }
      store.mutations := store.mutations[name := store.mutations[name] + [Handler(fn, RootState)]];
      assert store.mutations == AddHandler(before, name, Handler(fn, RootState));
      i := i + 1;
    }
  }

  /** The `forEach` over `n._children` (vuex.js:89-95): each child is
      installed at `path` extended by its name, in order. */
  method InstallChildModules(store: Store, path: seq<Key>, n: Node) returns (out: Outcome<InstallError>)
    modifies store
    ensures store.modules == old(store.modules)
    ensures InstallChildren(old(store.Current()), path, n, 0) == if out.Pass? then Success(store.Current()) else Failure(out.error)
    decreases n, 0
  {
    var i := 0;
    while i < |n.children|
      invariant i <= |n.children|
      invariant store.modules == old(store.modules)
      invariant InstallChildren(old(store.Current()), path, n, 0) == InstallChildren(store.Current(), path, n, i)
    {
      var name, child := n.children[i].0, n.children[i].1;
      assert n.children[i] in n.children;
      out := InstallModule(store, path + [name], child);
      if out.Fail? {
        return;
      }
      i := i + 1;
    }
    return Pass;
  }

  /** `new Store(options)`: the constructor, then
      `installModule(this, state, [], this.modules.root)`, which may throw. */
  method NewStore(options: RawModule) returns (r: Result<Store, InstallError>)
    ensures r.Success? <==> InstallSpec(InitialTables(options), [], Build(options)).Success?
    ensures r.Success? ==> fresh(r.value) && r.value.Current() == InstallSpec(InitialTables(options), [], Build(options)).value
    ensures r.Success? ==> r.value.modules.root == Some(Build(options))
    ensures r.Failure? ==> r.error == InstallSpec(InitialTables(options), [], Build(options)).error
  {
    var store := new Store(options);
    var out := InstallModule(store, [], store.modules.root.value);
    if out.Fail? {
      return Failure(out.error);
    }
    return Success(store);
  }

  /** `forEach` calls every handler exactly once, in list order, each with the
      store as `this`, its bound first argument, then the caller's arguments. */
  lemma {:induction false} CallsEach(hs: seq<Handler>, args: seq<Value>)
    ensures |Calls(hs, args)| == |hs|
    ensures forall i :: 0 <= i < |hs| ==>
      Calls(hs, args)[i] == Invocation(hs[i].fn, TheStore, hs[i].first, args)
    decreases |hs|
  {
    if hs != [] {
      var init := hs[..|hs| - 1];
      CallsEach(init, args);
      assert forall i :: 0 <= i < |init| ==> init[i] == hs[i];
    }
  }

  /** The tables after `new Store(options)`, when it does not throw. */
  function Installed(options: RawModule): Result<Tables, InstallError>
  {
    InstallSpec(InitialTables(options), [], Build(options))
  }

  /** `new Store(options)` throws exactly when some module with nested
      modules has a state that is not an object (at the root: `options.state
      || {}`), or two modules declare the same getter name. */
  lemma StoreBuilds(options: RawModule)
    ensures Installed(options).Success? <==>
      && Mountable(InitialState(options), Build(options))
      && Distinct(Keys(GetterDecls([], Build(options))))
  {
    InstallCharacterized(InitialTables(options), [], Build(options));
    GettersDefinedIff(map[], GetterDecls([], Build(options)));
  }

  /** After `new Store(options)`, the root state is `options.state || {}` with
      every module's state mounted, and the module at configuration path `q`
      has its own state, with its descendants' mounted, at `q`; the root
      module's state is never mounted anywhere. */
  lemma {:induction false} StoreStateMirrorsConfig(options: RawModule, q: seq<Key>, m: RawModule)
    requires WellFormed(options) && Installed(options).Success?
    requires q != [] && ConfigAt(options, q) == Some(m)
    ensures Installed(options).value.state == Filled(InitialState(options), Build(options))
    ensures Walk(Installed(options).value.state, q) == Some(Filled(m.state, Build(m)))
  {
    var root := Build(options);
    InstallCharacterized(InitialTables(options), [], root);
    BuildFindsConfig(options, q);
    BuildDistinct(options);
    StateMirrorsModules(InitialState(options), root, q, Build(m));
  }

  /** After `new Store(options)`, `mutations[name]` holds one handler per
      mutation named `name` across all modules, in pre-order of the
      configuration, each passing the root state; `actions[name]` likewise,
      each passing the store. A name is in a table exactly when some module
      declares it. */
  lemma {:induction false} StoreHandlersFollowConfig(options: RawModule, name: Key)
    requires WellFormed(options) && Installed(options).Success?
    ensures Lookup(Installed(options).value.mutations, name) == Matching(ConfigDecls(options, Mutations), name, RootState)
    ensures name in Installed(options).value.mutations <==> name in Keys(ConfigDecls(options, Mutations))
    ensures Lookup(Installed(options).value.actions, name) == Matching(ConfigDecls(options, Actions), name, TheStore)
    ensures name in Installed(options).value.actions <==> name in Keys(ConfigDecls(options, Actions))
  {
    var root := Build(options);
    InstallCharacterized(InitialTables(options), [], root);
    DeclsFollowConfig(options, Mutations);
    DeclsFollowConfig(options, Actions);
    HandlersAccumulate(map[], Decls(root, Mutations), RootState, name);
    HandlersAccumulate(map[], Decls(root, Actions), TheStore, name);
  }

  /** `commit(type, ...args)` on a store built from `options` fails exactly
      when no module declares a mutation `type`; otherwise its i-th call is
      the i-th such mutation, in pre-order, on the store with the root state
      and then the arguments. */
  lemma CommitOnBuiltStore(options: RawModule, s: Store, typ: Key, args: seq<Value>)
    requires WellFormed(options) && Installed(options).Success?
    requires s.Current() == Installed(options).value
    ensures typ in s.mutations <==> typ in Keys(ConfigDecls(options, Mutations))
    ensures typ in s.mutations ==>
      var hs := Matching(ConfigDecls(options, Mutations), typ, RootState);
      && |Calls(s.mutations[typ], args)| == |hs|
      && forall i :: 0 <= i < |hs| ==> Calls(s.mutations[typ], args)[i] == Invocation(hs[i].fn, TheStore, RootState, args)
  {
    StoreHandlersFollowConfig(options, typ);
    if typ in s.mutations {
      var hs := Matching(ConfigDecls(options, Mutations), typ, RootState);
      CallsEach(hs, args);
      forall i | 0 <= i < |hs|
        ensures Calls(hs, args)[i] == Invocation(hs[i].fn, TheStore, RootState, args)
      {
        MatchingBinds(ConfigDecls(options, Mutations), typ, RootState, i);
      }
    }
  }

  /** `dispatch(type, ...args)` on a store built from `options` fails exactly
      when no module declares an action `type`; otherwise its i-th call is the
      i-th such action, in pre-order, on the store with the store and then
      the arguments. */
  lemma DispatchOnBuiltStore(options: RawModule, s: Store, typ: Key, args: seq<Value>)
    requires WellFormed(options) && Installed(options).Success?
    requires s.Current() == Installed(options).value
    ensures typ in s.actions <==> typ in Keys(ConfigDecls(options, Actions))
    ensures typ in s.actions ==>
      var hs := Matching(ConfigDecls(options, Actions), typ, TheStore);
      && |Calls(s.actions[typ], args)| == |hs|
      && forall i :: 0 <= i < |hs| ==> Calls(s.actions[typ], args)[i] == Invocation(hs[i].fn, TheStore, TheStore, args)
  {
    StoreHandlersFollowConfig(options, typ);
    if typ in s.actions {
      var hs := Matching(ConfigDecls(options, Actions), typ, TheStore);
      CallsEach(hs, args);
      forall i | 0 <= i < |hs|
        ensures Calls(hs, args)[i] == Invocation(hs[i].fn, TheStore, TheStore, args)
      {
        MatchingBinds(ConfigDecls(options, Actions), typ, TheStore, i);
      }
    }
  }

  /** After `new Store(options)`, reading a getter declared by the module at
      configuration path `q` applies its function to that module's own state:
      the object it declared, as mounted and filled, or the primitive it
      declared. */
  lemma {:induction false} GetterSeesOwnState(options: RawModule, q: seq<Key>, m: RawModule, i: nat)
    requires WellFormed(options) && Installed(options).Success?
    requires ConfigAt(options, q) == Some(m) && i < |m.getters|
    ensures ReadGetter(Installed(options).value, m.getters[i].0) ==
      Some(GetterCall(m.getters[i].1, if m.state.Obj? then Filled(m.state, Build(m)) else m.state))
  {
    var root, t := Build(options), Installed(options).value;
    var decls := GetterDecls([], root);
    InstallCharacterized(InitialTables(options), [], root);
    BuildFindsConfig(options, q);
    GetterDeclared([], root, q, Build(m), i);
    assert [] + q == q;
    var entry := (m.getters[i].0, Getter(m.getters[i].1, SliceOf(q, m.state)));
    var j :| 0 <= j < |decls| && decls[j] == entry;
    GettersDefinedValue(map[], decls);
    assert t.getters[entry.0] == entry.1;
    if m.state.Obj? {
      if q == [] {
        assert m == options;
      } else {
        BuildDistinct(options);
        StateMirrorsModules(InitialState(options), root, q, Build(m));
      }
    }
  }

  /** `{state: {count: 0}, mutations: {inc}, modules: {a: {state: {x: 1},
      getters: {getX}}}}`, with `inc` as function 1 and `getX` as function 2. */
  function Example(): RawModule
  {
    var a := RawModule(Obj(map["x" := Num(1)]), [("getX", 2)], [], [], []);
    RawModule(Obj(map["count" := Num(0)]), [], [("inc", 1)], [], [("a", a)])
  }

  /** The module tree of `Example()`: the root with the single child `a`. */
  lemma ExampleTree()
    ensures WellFormed(Example())
    ensures Build(Example()) == Node(Example(), [("a", Build(Example().modules[0].1))], Example().state)
    ensures Build(Example().modules[0].1) == Node(Example().modules[0].1, [], Obj(map["x" := Num(1)]))
  {
    var raw := Example();
    var a := raw.modules[0].1;
    assert Build(a) == Node(a, [], a.state);
    assert Children(raw, 1) == Put([], "a", Build(a));
    assert WellFormed(a);
  }

  /** The declarations of `Example()` in installation order. */
  lemma ExampleDecls()
    ensures GetterDecls([], Build(Example())) == [("getX", Getter(2, Live(["a"])))]
    ensures Decls(Build(Example()), Mutations) == [("inc", 1)]
    ensures Decls(Build(Example()), Actions) == []
  {
    var raw := Example();
    var child, root := Build(raw.modules[0].1), Build(raw);
    ExampleTree();
    assert GetterDecls(["a"], child) == [("getX", Getter(2, Live(["a"])))];
    assert [] + ["a"] == ["a"];
    assert ChildGetterDecls([], root, 0) == GetterDecls(["a"], child) + ChildGetterDecls([], root, 1);
    assert Decls(child, Mutations) == [] && Decls(child, Actions) == [];
  }

  /** The root state of the store built from `Example()`: `a`'s state is
      mounted under `a`. */
  lemma ExampleState()
    ensures Mountable(InitialState(Example()), Build(Example()))
    ensures Filled(InitialState(Example()), Build(Example())) ==
      Obj(map["count" := Num(0), "a" := Obj(map["x" := Num(1)])])
  {
    var raw := Example();
    var child, root := Build(raw.modules[0].1), Build(raw);
    ExampleTree();
    assert Mountable(child.state, child);
    assert Filled(child.state, child) == Obj(map["x" := Num(1)]);
    assert FillFrom(InitialState(raw), root, 0) == FillFrom(SetProp(InitialState(raw), "a", Filled(child.state, child)), root, 1);
  }

  /** Registering `Example()`'s one mutation into empty tables. */
  lemma ExampleMutations()
    ensures AddHandlers(map[], [("inc", 1)], RootState) == map["inc" := [Handler(1, RootState)]]
  {
    var h := Handler(1, RootState);
    var incs: seq<(Key, FnId)> := [("inc", 1)];
    var empty: Table := map[];
    assert incs[1..] == [];
    assert Lookup(empty, "inc") == [];
    assert [] + [h] == [h];
    assert AddHandler(empty, "inc", h) == map["inc" := [h]];
  }

  /** The store built from `Example()`: `a`'s state is mounted under `a`,
      `getX` reads `a`'s state, and `inc` has one handler, passed the root
      state. */
  lemma ExampleStore()
    ensures Installed(Example()).Success?
    ensures Installed(Example()).value.state == Obj(map["count" := Num(0), "a" := Obj(map["x" := Num(1)])])
    ensures ReadGetter(Installed(Example()).value, "getX") == Some(GetterCall(2, Obj(map["x" := Num(1)])))
    ensures Installed(Example()).value.mutations == map["inc" := [Handler(1, RootState)]]
    ensures Installed(Example()).value.actions == map[]
  {
    var raw := Example();
    var a := raw.modules[0].1;
    ExampleTree();
    ExampleDecls();
    ExampleState();
    StoreBuilds(raw);
    InstallCharacterized(InitialTables(raw), [], Build(raw));
    ExampleMutations();
    assert ConfigAt(raw, ["a"]) == Some(a);
    GetterSeesOwnState(raw, ["a"], a, 0);
  }
}

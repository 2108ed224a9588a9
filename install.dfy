/** What `installModule` (vuex.js:52-96) does to the store: the tables it
    fills (`getters`, `mutations`, `actions`) and the root state it mounts the
    module slices into, as functions of the tables before the call. The
    imperative walk that performs these updates is `Vuex.InstallModule`. */
module Install {
  import opened Common
  import opened Entries
  import opened StateTree
  import opened Modules

  /** What a handler passes as the first argument of its function. */
  datatype Target = RootState | TheStore

  /** A wrapper pushed onto `store.mutations[name]` or `store.actions[name]`:
      it calls `fn` with the store as `this` and `first` before the caller's
      arguments. */
  datatype Handler = Handler(fn: FnId, first: Target)

  /** The value a getter passes to its function: the module's `state` object,
      which is the object mounted at `path` of the root state during
      installation, or, when the module's state is not an object, that fixed
      primitive or `undefined`. */
  datatype Slice = Live(path: seq<Key>) | Fixed(value: Value)

  /** The accessor `get() { return fn(rootModule.state) }`. */
  datatype Getter = Getter(fn: FnId, slice: Slice)

  /** `store.mutations` or `store.actions`: name to the handlers pushed so far. */
  type Table = map<Key, seq<Handler>>

  /** The parts of the store that installation changes. */
  datatype Tables = Tables(state: Value, getters: map<Key, Getter>, mutations: Table, actions: Table)

  /** Why installation throws: `Vue.set` on a parent slice that is not an
      object, or `Object.defineProperty` on a getter name already defined
      (the first definition is not configurable). */
  datatype InstallError = MountFailed(path: seq<Key>) | GetterRedefined(name: Key)

  /** The two handler tables and the configuration field each is filled from. */
  datatype Kind = Mutations | Actions

  function Own(raw: RawModule, kind: Kind): seq<(Key, FnId)>
  {
    match kind
    case Mutations => raw.mutations
    case Actions => raw.actions
  }

  /** `t[name]`, `[]` for a name never registered. */
  function Lookup(t: Table, name: Key): seq<Handler>
  {
    if name in t then t[name] else []
  }

  /** `let entry = t[name] || (t[name] = []); entry.push(h)`. */
  function AddHandler(t: Table, name: Key, h: Handler): Table
  {
    t[name := Lookup(t, name) + [h]]
  }

  /** The `forEach` over a module's `mutations` or `actions` (vuex.js:72-88):
      one handler appended per declaration, in declaration order. */
  function AddHandlers(t: Table, decls: seq<(Key, FnId)>, first: Target): Table
    decreases |decls|
  {
    if decls == [] then t
    else AddHandlers(AddHandler(t, decls[0].0, Handler(decls[0].1, first)), decls[1..], first)
  }

  /** Reference definition: one handler for each declaration named `name`, in
      declaration order. */
  function Matching(decls: seq<(Key, FnId)>, name: Key, first: Target): seq<Handler>
    decreases |decls|
  {
    if decls == [] then []
    else (if decls[0].0 == name then [Handler(decls[0].1, first)] else []) + Matching(decls[1..], name, first)
  }

  /** `Object.defineProperty(store.getters, name, {get})` for each declaration
      in order; the first name already defined throws. */
  function DefineGetters(g: map<Key, Getter>, decls: seq<(Key, Getter)>): Result<map<Key, Getter>, InstallError>
    decreases |decls|
  {
    if decls == [] then Success(g)
    else if decls[0].0 in g then Failure(GetterRedefined(decls[0].0))
    else DefineGetters(g[decls[0].0 := decls[0].1], decls[1..])
  }

  /** What a getter of the module at `path` with state `st` reads. */
  function SliceOf(path: seq<Key>, st: Value): Slice
  {
    if st.Obj? then Live(path) else Fixed(st)
  }

  /** A module's own getter declarations, each bound to the module's slice. */
  function BindGetters(decls: seq<(Key, FnId)>, slice: Slice): (r: seq<(Key, Getter)>)
    ensures |r| == |decls|
    ensures forall i :: 0 <= i < |decls| ==> r[i] == (decls[i].0, Getter(decls[i].1, slice))
    decreases |decls|
  {
    if decls == [] then []
    else [(decls[0].0, Getter(decls[0].1, slice))] + BindGetters(decls[1..], slice)
  }

  function OwnGetters(path: seq<Key>, n: Node): seq<(Key, Getter)>
  {
    BindGetters(n.raw.getters, SliceOf(path, n.state))
  }

  /** `Vue.set(parent, last, slice)` after the walk to the parent (vuex.js:54-59). */
  function MountSlice(state: Value, path: seq<Key>, slice: Value): Result<Value, InstallError>
    requires path != []
  {
    match Mount(state, path, slice)
    case None => Failure(MountFailed(path))
    case Some(s) => Success(s)
  }

  /** `installModule(store, rootState, path, n)` from tables `t`: mount the
      slice (not for the root), define the getters, push the actions and the
      mutations, then install the children in `_children` order. */
  function InstallSpec(t: Tables, path: seq<Key>, n: Node): Result<Tables, InstallError>
    decreases n, 1
  {
    var state :- if path == [] then Success(t.state) else MountSlice(t.state, path, n.state);
    var getters :- DefineGetters(t.getters, OwnGetters(path, n));
    var actions := AddHandlers(t.actions, n.raw.actions, TheStore);
    var mutations := AddHandlers(t.mutations, n.raw.mutations, RootState);
    InstallChildren(Tables(state, getters, mutations, actions), path, n, 0)
  }

  /** The `forEach` over `n._children` from the `i`-th child on. */
  function InstallChildren(t: Tables, path: seq<Key>, n: Node, i: nat): Result<Tables, InstallError>
    requires i <= |n.children|
    decreases n, 0, |n.children| - i
  {
    if i == |n.children| then Success(t)
    else
      assert n.children[i] in n.children;
      var t' :- InstallSpec(t, path + [n.children[i].0], n.children[i].1);
      InstallChildren(t', path, n, i + 1)
  }

  /** Handler declarations of the subtree at `n` in installation order:
      a module before its children, siblings in `_children` order. */
  function Decls(n: Node, kind: Kind): seq<(Key, FnId)>
    decreases n, 1
  {
    Own(n.raw, kind) + ChildDecls(n, kind, 0)
  }

  function ChildDecls(n: Node, kind: Kind, i: nat): seq<(Key, FnId)>
    requires i <= |n.children|
    decreases n, 0, |n.children| - i
  {
    if i == |n.children| then []
    else
      assert n.children[i] in n.children;
      Decls(n.children[i].1, kind) + ChildDecls(n, kind, i + 1)
  }

  /** Getter declarations of the subtree at `n`, mounted at `path`, each bound
      to its module's slice, in installation order. */
  function GetterDecls(path: seq<Key>, n: Node): seq<(Key, Getter)>
    decreases n, 1
  {
    OwnGetters(path, n) + ChildGetterDecls(path, n, 0)
  }

  function ChildGetterDecls(path: seq<Key>, n: Node, i: nat): seq<(Key, Getter)>
    requires i <= |n.children|
    decreases n, 0, |n.children| - i
  {
    if i == |n.children| then []
    else
      assert n.children[i] in n.children;
      GetterDecls(path + [n.children[i].0], n.children[i].1) + ChildGetterDecls(path, n, i + 1)
  }

  /** Every module that has children has an object slice to mount them into. */
  predicate Mountable(v: Value, n: Node)
    decreases n
  {
    && (n.children != [] ==> v.Obj?)
    && forall j :: 0 <= j < |n.children| ==> assert n.children[j] in n.children; Mountable(n.children[j].1.state, n.children[j].1)
  }

  /** The children from the `i`-th on can all be mounted below slice `w`. */
  predicate ChildrenFit(w: Value, n: Node, i: nat)
    requires i <= |n.children|
  {
    && (i < |n.children| ==> w.Obj?)
    && forall j :: i <= j < |n.children| ==> Mountable(n.children[j].1.state, n.children[j].1)
  }

  /** Slice `v` of module `n` once the slices of all its descendants are
      mounted into it. */
  function Filled(v: Value, n: Node): Value
    decreases n, 1
  {
    FillFrom(v, n, 0)
  }

  function FillFrom(w: Value, n: Node, i: nat): Value
    requires i <= |n.children|
    decreases n, 0, |n.children| - i
  {
    if i == |n.children| || !w.Obj? then w
    else
      assert n.children[i] in n.children;
      FillFrom(SetProp(w, n.children[i].0, Filled(n.children[i].1.state, n.children[i].1)), n, i + 1)
  }

  /** Pushing never removes or reorders: a name's handlers after the
      declarations are its handlers before, followed by one handler per
      declaration of that name, in order; a name is in the table exactly when
      it was before or is declared. */
  lemma {:induction false} HandlersAccumulate(t: Table, decls: seq<(Key, FnId)>, first: Target, name: Key)
    ensures Lookup(AddHandlers(t, decls, first), name) == Lookup(t, name) + Matching(decls, name, first)
    ensures name in AddHandlers(t, decls, first) <==> name in t || name in Keys(decls)
    decreases |decls|
  {
    if decls != [] {
      var t' := AddHandler(t, decls[0].0, Handler(decls[0].1, first));
      HandlersAccumulate(t', decls[1..], first, name);
      assert Keys(decls) == [decls[0].0] + Keys(decls[1..]);
    }
  }

  /** A name has no matching handler exactly when nothing declares it. */
  lemma {:induction false} MatchingEmpty(decls: seq<(Key, FnId)>, name: Key, first: Target)
    ensures Matching(decls, name, first) == [] <==> name !in Keys(decls)
    decreases |decls|
  {
    if decls != [] {
      MatchingEmpty(decls[1..], name, first);
      assert Keys(decls) == [decls[0].0] + Keys(decls[1..]);
    }
  }

  /** One more declaration adds one handler at the end when it is named
      `name`, and none otherwise: the handlers follow the declarations in
      order. */
  lemma {:induction false} MatchingSnoc(decls: seq<(Key, FnId)>, d: (Key, FnId), name: Key, first: Target)
    ensures Matching(decls + [d], name, first) ==
      Matching(decls, name, first) + (if d.0 == name then [Handler(d.1, first)] else [])
    decreases |decls|
  {
    var last := if d.0 == name then [Handler(d.1, first)] else [];
    if decls == [] {
      assert [d][1..] == [];
      assert Matching([d], name, first) == last + Matching([], name, first);
    } else {
      var head := if decls[0].0 == name then [Handler(decls[0].1, first)] else [];
      var rest := decls[1..];
      assert (decls + [d])[0] == decls[0];
      assert (decls + [d])[1..] == rest + [d];
      assert Matching(decls + [d], name, first) == head + Matching(rest + [d], name, first);
      MatchingSnoc(rest, d, name, first);
      assert Matching(decls, name, first) == head + Matching(rest, name, first);
      assert head + (Matching(rest, name, first) + last) == (head + Matching(rest, name, first)) + last;
    }
  }

  /** Every matching handler calls a function declared under `name` and
      passes `first`. */
  lemma {:induction false} MatchingBinds(decls: seq<(Key, FnId)>, name: Key, first: Target, i: nat)
    requires i < |Matching(decls, name, first)|
    ensures Matching(decls, name, first)[i].first == first
    ensures (name, Matching(decls, name, first)[i].fn) in decls
    decreases |decls|
  {
    if decls[0].0 == name && i == 0 {
    } else {
      var j := if decls[0].0 == name then i - 1 else i;
      MatchingBinds(decls[1..], name, first, j);
      var x := (name, Matching(decls[1..], name, first)[j].fn);
      var k :| 0 <= k < |decls[1..]| && decls[1..][k] == x;
      assert decls[k + 1] == x;
    }
  }

  /** Pushing the declarations of `a + b` is pushing those of `a`, then `b`. */
  lemma {:induction false} AddHandlersAppend(t: Table, a: seq<(Key, FnId)>, b: seq<(Key, FnId)>, first: Target)
    ensures AddHandlers(t, a + b, first) == AddHandlers(AddHandlers(t, a, first), b, first)
    decreases |a|
  {
    if a == [] {
      assert a + b == b;
    } else {
      assert (a + b)[0] == a[0] && (a + b)[1..] == a[1..] + b;
      AddHandlersAppend(AddHandler(t, a[0].0, Handler(a[0].1, first)), a[1..], b, first);
    }
  }

  /** Defining getters succeeds exactly when the declared names are distinct
      and none of them is defined yet. */
  lemma {:induction false} GettersDefinedIff(g: map<Key, Getter>, decls: seq<(Key, Getter)>)
    ensures DefineGetters(g, decls).Success? <==>
      Distinct(Keys(decls)) && forall k :: k in Keys(decls) ==> k !in g
    decreases |decls|
  {
    if decls != [] {
      var k, rest := decls[0].0, decls[1..];
      assert Keys(decls) == [k] + Keys(rest);
      DistinctCons(k, Keys(rest));
      GettersDefinedIff(g[k := decls[0].1], rest);
    }
  }

  /** After defining getters, every declared name reads its own declaration,
      earlier getters are kept, and nothing else is defined. */
  lemma {:induction false} GettersDefinedValue(g: map<Key, Getter>, decls: seq<(Key, Getter)>)
    requires DefineGetters(g, decls).Success?
    ensures forall k :: k in DefineGetters(g, decls).value <==> k in g || k in Keys(decls)
    ensures forall k :: k in g ==> k in DefineGetters(g, decls).value && DefineGetters(g, decls).value[k] == g[k]
    ensures forall i :: 0 <= i < |decls| ==>
      decls[i].0 in DefineGetters(g, decls).value && DefineGetters(g, decls).value[decls[i].0] == decls[i].1
    decreases |decls|
  {
    if decls != [] {
      var k, rest := decls[0].0, decls[1..];
      assert Keys(decls) == [k] + Keys(rest);
      GettersDefinedValue(g[k := decls[0].1], rest);
      assert forall i :: 0 < i < |decls| ==> decls[i] == rest[i - 1];
    }
  }

  /** Defining the getters of `a + b` is defining those of `a`, then `b`;
      a failure in `a` stops before `b`. */
  lemma {:induction false} DefineGettersAppend(g: map<Key, Getter>, a: seq<(Key, Getter)>, b: seq<(Key, Getter)>)
    ensures DefineGetters(g, a + b) ==
      match DefineGetters(g, a)
      case Failure(e) => Failure(e)
      case Success(g') => DefineGetters(g', b)
    decreases |a|
  {
    if a == [] {
      assert a + b == b;
    } else {
      assert (a + b)[0] == a[0] && (a + b)[1..] == a[1..] + b;
      if a[0].0 !in g {
        DefineGettersAppend(g[a[0].0 := a[0].1], a[1..], b);
      }
    }
  }

  /** Installing `n` at `path` succeeds exactly when its slice can be mounted
      (not needed at the root), every module below it that has children has an
      object slice, and no getter name of the subtree is defined twice or
      already defined. Then the root state has the filled slice at `path`, and
      the getters and the pushed handlers are those of the subtree's
      declarations in installation order. */
  lemma {:induction false} InstallCharacterized(t: Tables, path: seq<Key>, n: Node)
    ensures var base := if path == [] then t.state else n.state;
      InstallSpec(t, path, n).Success? <==>
        && (path == [] || CanMount(t.state, path))
        && Mountable(base, n)
        && DefineGetters(t.getters, GetterDecls(path, n)).Success?
    ensures var base := if path == [] then t.state else n.state;
      InstallSpec(t, path, n).Success? ==> InstallSpec(t, path, n).value == Tables(
        SetAt(t.state, path, Filled(base, n)),
        DefineGetters(t.getters, GetterDecls(path, n)).value,
        AddHandlers(t.mutations, Decls(n, Mutations), RootState),
        AddHandlers(t.actions, Decls(n, Actions), TheStore))
    decreases n, 1
  {
    var base := if path == [] then t.state else n.state;
    if path == [] || CanMount(t.state, path) {
      var own := OwnGetters(path, n);
      DefineGettersAppend(t.getters, own, ChildGetterDecls(path, n, 0));
      AddHandlersAppend(t.mutations, n.raw.mutations, ChildDecls(n, Mutations, 0), RootState);
      AddHandlersAppend(t.actions, n.raw.actions, ChildDecls(n, Actions, 0), TheStore);
      if DefineGetters(t.getters, own).Success? {
        var t1 := Tables(
          SetAt(t.state, path, base),
          DefineGetters(t.getters, own).value,
          AddHandlers(t.mutations, n.raw.mutations, RootState),
          AddHandlers(t.actions, n.raw.actions, TheStore));
        assert InstallSpec(t, path, n) == InstallChildren(t1, path, n, 0);
        InstallChildrenCharacterized(t1, t.state, path, base, n, 0);
      }
    }
  }

  /** The children loop, from the `i`-th child on, while the slice at `path`
      is `w`: it succeeds exactly when the remaining children fit below `w`
      and their getters can be defined; then the slice at `path` is `w` with
      the remaining children's filled slices mounted. */
  lemma {:induction false} InstallChildrenCharacterized(t: Tables, s0: Value, path: seq<Key>, w: Value, n: Node, i: nat)
    requires i <= |n.children|
    requires path == [] || CanMount(s0, path)
    requires t.state == SetAt(s0, path, w)
    ensures InstallChildren(t, path, n, i).Success? <==>
      ChildrenFit(w, n, i) && DefineGetters(t.getters, ChildGetterDecls(path, n, i)).Success?
    ensures InstallChildren(t, path, n, i).Success? ==> InstallChildren(t, path, n, i).value == Tables(
      SetAt(s0, path, FillFrom(w, n, i)),
      DefineGetters(t.getters, ChildGetterDecls(path, n, i)).value,
      AddHandlers(t.mutations, ChildDecls(n, Mutations, i), RootState),
      AddHandlers(t.actions, ChildDecls(n, Actions, i), TheStore))
    decreases n, 0, |n.children| - i
  {
    if i < |n.children| {
      var k, c := n.children[i].0, n.children[i].1;
      assert n.children[i] in n.children;
      var q := path + [k];
      assert ButLast(q) == path;
      var r := InstallSpec(t, q, c);
      assert InstallChildren(t, path, n, i) == if r.Failure? then Failure(r.error) else InstallChildren(r.value, path, n, i + 1);
      assert ChildGetterDecls(path, n, i) == GetterDecls(q, c) + ChildGetterDecls(path, n, i + 1);
      assert ChildDecls(n, Mutations, i) == Decls(c, Mutations) + ChildDecls(n, Mutations, i + 1);
      assert ChildDecls(n, Actions, i) == Decls(c, Actions) + ChildDecls(n, Actions, i + 1);
      MountBelow(s0, path, w, k);
      InstallCharacterized(t, q, c);
      DefineGettersAppend(t.getters, GetterDecls(q, c), ChildGetterDecls(path, n, i + 1));
      if r.Success? {
        AddHandlersAppend(t.mutations, Decls(c, Mutations), ChildDecls(n, Mutations, i + 1), RootState);
        AddHandlersAppend(t.actions, Decls(c, Actions), ChildDecls(n, Actions, i + 1), TheStore);
        var w' := SetProp(w, k, Filled(c.state, c));
        MountedBelow(s0, path, w, k, Filled(c.state, c));
        InstallChildrenCharacterized(r.value, s0, path, w', n, i + 1);
        ChildrenFitStep(w, n, i);
      } else {
        ChildrenFitStep(w, n, i);
      }
    }
  }

  /** A child of the slice `w` at `path` can be mounted exactly when `w` is an
      object. */
  lemma MountBelow(s0: Value, path: seq<Key>, w: Value, k: Key)
    requires path == [] || CanMount(s0, path)
    ensures ButLast(path + [k]) == path
    ensures CanMount(SetAt(s0, path, w), path + [k]) <==> w.Obj?
  {
    assert ButLast(path + [k]) == path;
    WalkSetAtSelf(s0, path, w);
  }

  /** Mounting child `k` with slice `x` below the object slice `w` at `path`
      is writing `w` with property `k` at `path`. */
  lemma MountedBelow(s0: Value, path: seq<Key>, w: Value, k: Key, x: Value)
    requires path == [] || CanMount(s0, path)
    requires w.Obj?
    ensures SetAt(SetAt(s0, path, w), path + [k], x) == SetAt(s0, path, SetProp(w, k, x))
  {
    WalkSetAtSelf(s0, path, w);
    SetAtExtend(SetAt(s0, path, w), path, k, x);
    SetAtTwice(s0, path, w, SetProp(w, k, x));
  }

  lemma ChildrenFitStep(w: Value, n: Node, i: nat)
    requires i < |n.children|
    ensures ChildrenFit(w, n, i) <==>
      && w.Obj?
      && Mountable(n.children[i].1.state, n.children[i].1)
      && (w.Obj? ==> ChildrenFit(SetProp(w, n.children[i].0, Filled(n.children[i].1.state, n.children[i].1)), n, i + 1))
    ensures w.Obj? ==>
      FillFrom(w, n, i) == FillFrom(SetProp(w, n.children[i].0, Filled(n.children[i].1.state, n.children[i].1)), n, i + 1)
  {
  }

  /** Mounting the later children never touches a property none of them is
      named after. */
  lemma {:induction false} FillFromKeeps(w: Value, n: Node, i: nat, k: Key)
    requires i <= |n.children| && w.Obj? && k in w.props
    requires forall j :: i <= j < |n.children| ==> n.children[j].0 != k
    ensures FillFrom(w, n, i).Obj? && k in FillFrom(w, n, i).props
    ensures FillFrom(w, n, i).props[k] == w.props[k]
    decreases |n.children| - i
  {
    if i < |n.children| {
      FillFromKeeps(SetProp(w, n.children[i].0, Filled(n.children[i].1.state, n.children[i].1)), n, i + 1, k);
    }
  }

  /** In a filled object slice, each child's name holds that child's filled
      slice. */
  lemma {:induction false} FillFromChild(w: Value, n: Node, i: nat, j: nat)
    requires i <= j < |n.children| && w.Obj? && Distinct(Keys(n.children))
    ensures FillFrom(w, n, i).Obj? && n.children[j].0 in FillFrom(w, n, i).props
    ensures FillFrom(w, n, i).props[n.children[j].0] == Filled(n.children[j].1.state, n.children[j].1)
    decreases |n.children| - i
  {
    var w' := SetProp(w, n.children[i].0, Filled(n.children[i].1.state, n.children[i].1));
    if i == j {
      forall m | j + 1 <= m < |n.children|
        ensures n.children[m].0 != n.children[j].0
      {
        assert Keys(n.children)[m] != Keys(n.children)[j];
      }
      FillFromKeeps(w', n, j + 1, n.children[j].0);
    } else {
      FillFromChild(w', n, i + 1, j);
    }
  }

  /** The state tree mirrors the module tree: the module found at `q` below
      `n` has its own filled slice at `q` of `n`'s filled slice. */
  lemma {:induction false} StateMirrorsModules(v: Value, n: Node, q: seq<Key>, m: Node)
    requires Mountable(v, n) && DistinctTree(n)
    requires q != [] && Find(n, q) == Some(m)
    ensures Walk(Filled(v, n), q) == Some(Filled(m.state, m))
    decreases |q|
  {
    var c := Get(n.children, q[0]).value;
    var j :| 0 <= j < |n.children| && n.children[j] == (q[0], c);
    assert n.children[j] in n.children;
    FillFromChild(v, n, 0, j);
    assert Prop(Filled(v, n), q[0]) == Some(Filled(c.state, c));
    if q[1..] != [] {
      StateMirrorsModules(c.state, c, q[1..], m);
    }
  }

  lemma {:induction false} ChildGetterDeclsContain(path: seq<Key>, n: Node, i: nat, j: nat, x: (Key, Getter))
    requires i <= j < |n.children|
    requires x in GetterDecls(path + [n.children[j].0], n.children[j].1)
    ensures x in ChildGetterDecls(path, n, i)
    decreases |n.children| - i
  {
    if i < j {
      ChildGetterDeclsContain(path, n, i + 1, j, x);
    }
  }

  lemma AppendFirst(p: seq<Key>, q: seq<Key>)
    requires q != []
    ensures p + [q[0]] + q[1..] == p + q
  {
    assert [q[0]] + q[1..] == q;
  }

  /** Each getter declared by the module found at `q` below `n` is among the
      subtree's getter declarations, bound to that module's own slice. */
  lemma {:induction false} GetterDeclared(path: seq<Key>, n: Node, q: seq<Key>, m: Node, i: nat)
    requires Find(n, q) == Some(m) && i < |m.raw.getters|
    ensures (m.raw.getters[i].0, Getter(m.raw.getters[i].1, SliceOf(path + q, m.state))) in GetterDecls(path, n)
    decreases |q|
  {
    var x := (m.raw.getters[i].0, Getter(m.raw.getters[i].1, SliceOf(path + q, m.state)));
    assert GetterDecls(path, n) == OwnGetters(path, n) + ChildGetterDecls(path, n, 0);
    if q == [] {
      assert m == n && path + q == path;
      assert OwnGetters(path, n)[i] == x;
    } else {
      var c := Get(n.children, q[0]).value;
      assert Find(c, q[1..]) == Some(m);
      var j :| 0 <= j < |n.children| && n.children[j] == (q[0], c);
      GetterDeclared(path + [q[0]], c, q[1..], m, i);
      AppendFirst(path, q);
      ChildGetterDeclsContain(path, n, 0, j, x);
    }
  }

  /** Handler declarations of a configuration in pre-order: a module's own,
      then each nested module's in configuration order. */
  function ConfigDecls(raw: RawModule, kind: Kind): seq<(Key, FnId)>
    decreases raw, 1
  {
    Own(raw, kind) + ConfigChildDecls(raw, kind, 0)
  }

  function ConfigChildDecls(raw: RawModule, kind: Kind, i: nat): seq<(Key, FnId)>
    requires i <= |raw.modules|
    decreases raw, 0, |raw.modules| - i
  {
    if i == |raw.modules| then []
    else
      assert raw.modules[i] in raw.modules;
      ConfigDecls(raw.modules[i].1, kind) + ConfigChildDecls(raw, kind, i + 1)
  }

  /** Installation order is the configuration's pre-order: a parent's
      declarations before its nested modules', siblings in configuration
      order. */
  lemma {:induction false} DeclsFollowConfig(raw: RawModule, kind: Kind)
    requires WellFormed(raw)
    ensures Decls(Build(raw), kind) == ConfigDecls(raw, kind)
    decreases raw, 1
  {
    ChildrenInOrder(raw, |raw.modules|);
    ChildDeclsFollowConfig(raw, kind, 0);
  }

  lemma {:induction false} ChildDeclsFollowConfig(raw: RawModule, kind: Kind, i: nat)
    requires WellFormed(raw) && i <= |raw.modules|
    requires |Build(raw).children| == |raw.modules|
    requires forall j :: 0 <= j < |raw.modules| ==> Build(raw).children[j] == (raw.modules[j].0, Build(raw.modules[j].1))
    ensures ChildDecls(Build(raw), kind, i) == ConfigChildDecls(raw, kind, i)
    decreases raw, 0, |raw.modules| - i
  {
    if i < |raw.modules| {
      assert raw.modules[i] in raw.modules;
      DeclsFollowConfig(raw.modules[i].1, kind);
      ChildDeclsFollowConfig(raw, kind, i + 1);
    }
  }
}

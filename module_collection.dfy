/** `ModuleCollection` (vuex.js:3-33): turns the nested configuration object
    into a tree of module nodes, one `register` call per module, parents first. */
module Modules {
  import opened Common
  import opened Entries
  import opened StateTree

  /** Identity of a function supplied by the configuration (a getter, mutation
      or action body); the model never runs it. */
  type FnId = nat

  /** A module's configuration object `{state, getters, mutations, actions,
      modules}`; a field that is absent reads as `undefined` or as no entries. */
  datatype RawModule = RawModule(
    state: Value,
    getters: seq<(Key, FnId)>,
    mutations: seq<(Key, FnId)>,
    actions: seq<(Key, FnId)>,
    modules: seq<(Key, RawModule)>)

  /** A registered module `{_raw, _children, state}`. */
  datatype Node = Node(raw: RawModule, children: seq<(Key, Node)>, state: Value)

  /** The nested `modules` objects are JavaScript objects: no child name twice
      at any level. */
  predicate WellFormed(raw: RawModule)
  {
    && Distinct(Keys(raw.modules))
    && forall e :: e in raw.modules ==> WellFormed(e.1)
  }

  /** The configuration reached by following `modules` along `path`. */
  function ConfigAt(raw: RawModule, path: seq<Key>): Option<RawModule>
    decreases |path|
  {
    if path == [] then Some(raw)
    else match Get(raw.modules, path[0])
      case None => None
      case Some(m) => ConfigAt(m, path[1..])
  }

  /** `path.reduce((root, current) => root._children[current], n)`, `None`
      where a segment is missing (the next step, or the assignment after the
      walk, reads a property of `undefined` and throws). */
  function Find(n: Node, path: seq<Key>): Option<Node>
    decreases |path|
  {
    if path == [] then Some(n)
    else match Get(n.children, path[0])
      case None => None
      case Some(c) => Find(c, path[1..])
  }

  /** The tree `n` after `parent._children[path[path.length - 1]] = x`, where
      `parent` is the node at all but the last segment of `path`. */
  function Graft(n: Node, path: seq<Key>, x: Node): Node
    requires path != []
    decreases |path|
  {
    if |path| == 1 then n.(children := Put(n.children, path[0], x))
    else match Get(n.children, path[0])
      case None => n
      case Some(c) => n.(children := Put(n.children, path[0], Graft(c, path[1..], x)))
  }

  /** The root after a successful `register(path, ...)` placed `x`. */
  function Attach(root: Option<Node>, path: seq<Key>, x: Node): Node
    requires path == [] || root.Some?
  {
    if path == [] then x else Graft(root.value, path, x)
  }

  /** The node that `register` builds for `raw`, once all of `raw.modules` are
      registered below it. */
  function Build(raw: RawModule): Node
  {
    Node(raw, Children(raw, |raw.modules|), raw.state)
  }

  /** `raw`'s node while its first `i` nested modules are registered. */
  function Partial(raw: RawModule, i: nat): Node
    requires i <= |raw.modules|
  {
    Node(raw, Children(raw, i), raw.state)
  }

  /** `_children` of `raw`'s node after the first `i` nested modules are
      registered: one entry per distinct name, each the node built for a
      nested configuration under that name. */
  function Children(raw: RawModule, i: nat): seq<(Key, Node)>
    requires i <= |raw.modules|
    decreases raw, i
  {
    if i == 0 then []
    else Put(Children(raw, i - 1), raw.modules[i - 1].0, Build(raw.modules[i - 1].1))
  }

  /** Child names are distinct at every level of the tree. */
  predicate DistinctTree(n: Node)
  {
    && Distinct(Keys(n.children))
    && forall e :: e in n.children ==> DistinctTree(e.1)
  }

  /** Placing `x` at `path` makes it the node found at `path` (and below it,
      `x`'s own subtree); nodes on other branches are found as before. */
  lemma {:induction false} FindGraft(n: Node, path: seq<Key>, x: Node, q: seq<Key>)
    requires path != [] && Find(n, ButLast(path)).Some?
    ensures path <= q ==> Find(Graft(n, path, x), q) == Find(x, q[|path|..])
    ensures !(path <= q) && !(q <= path) ==> Find(Graft(n, path, x), q) == Find(n, q)
    decreases |path|
  {
    if q != [] {
      var k, rest := path[0], path[1..];
      if |path| == 1 {
        assert q[|path|..] == q[1..];
        PutGet(n.children, k, x);
        if q[0] != k {
          PutOther(n.children, k, x, q[0]);
        }
      } else {
        assert ButLast(path)[0] == k && ButLast(path)[1..] == ButLast(rest);
        var c := Get(n.children, k).value;
        PutGet(n.children, k, Graft(c, rest, x));
        if q[0] != k {
          PutOther(n.children, k, Graft(c, rest, x), q[0]);
        } else {
          assert path <= q <==> rest <= q[1..];
          assert q <= path <==> q[1..] <= rest;
          FindGraft(c, rest, x, q[1..]);
          if path <= q {
            assert q[|path|..] == q[1..][|rest|..];
          }
        }
      }
    }
  }

  /** Registering a child under a node just placed at `path` is the same as
      having placed that node with the child already in its `_children`. */
  lemma {:induction false} GraftExtend(n: Node, path: seq<Key>, x: Node, k: Key, y: Node)
    requires path != [] && Find(n, ButLast(path)).Some?
    ensures Graft(Graft(n, path, x), path + [k], y) == Graft(n, path, x.(children := Put(x.children, k, y)))
    decreases |path|
  {
    var p0 := path[0];
    assert (path + [k])[0] == p0 && (path + [k])[1..] == path[1..] + [k];
    if |path| == 1 {
      assert path[1..] + [k] == [k];
      PutGet(n.children, p0, x);
      PutTwice(n.children, p0, x, x.(children := Put(x.children, k, y)));
    } else {
      assert ButLast(path)[0] == p0 && ButLast(path)[1..] == ButLast(path[1..]);
      var c := Get(n.children, p0).value;
      PutGet(n.children, p0, Graft(c, path[1..], x));
      GraftExtend(c, path[1..], x, k, y);
      PutTwice(n.children, p0, Graft(c, path[1..], x), Graft(c, path[1..], x.(children := Put(x.children, k, y))));
    }
  }

  /** Each child entry is a nested configuration's name with the node built
      for it. */
  lemma {:induction false} ChildrenAreBuilt(raw: RawModule, i: nat, e: (Key, Node))
    requires i <= |raw.modules| && e in Children(raw, i)
    ensures exists j :: 0 <= j < i && e == (raw.modules[j].0, Build(raw.modules[j].1))
    decreases i
  {
    var k := i - 1;
    var prev := Children(raw, k);
    var last := (raw.modules[k].0, Build(raw.modules[k].1));
    if e == last {
      assert 0 <= k < i;
    } else {
      PutEntries(prev, last.0, last.1, e);
      ChildrenAreBuilt(raw, k, e);
    }
  }

  lemma {:induction false} ChildrenDistinct(raw: RawModule, i: nat)
    requires i <= |raw.modules|
    ensures Distinct(Keys(Children(raw, i)))
  {
    if i > 0 {
      ChildrenDistinct(raw, i - 1);
      PutKeepsDistinct(Children(raw, i - 1), raw.modules[i - 1].0, Build(raw.modules[i - 1].1));
    }
  }

  /** With distinct names, the `_children` of `raw`'s node are its nested
      configurations in configuration order, each with the node built for it. */
  lemma {:induction false} ChildrenInOrder(raw: RawModule, i: nat)
    requires i <= |raw.modules| && Distinct(Keys(raw.modules))
    ensures |Children(raw, i)| == i
    ensures forall j :: 0 <= j < i ==> Children(raw, i)[j] == (raw.modules[j].0, Build(raw.modules[j].1))
  {
    if i > 0 {
      var prev := Children(raw, i - 1);
      var k := raw.modules[i - 1].0;
      ChildrenInOrder(raw, i - 1);
      assert k !in Keys(prev) by {
        forall j | 0 <= j < |prev|
          ensures Keys(prev)[j] != k
        {
          assert Keys(prev)[j] == Keys(raw.modules)[j];
          assert Keys(raw.modules)[i - 1] == k;
        }
      }
      PutNew(prev, k, Build(raw.modules[i - 1].1));
    }
  }

  /** The built tree never has two children of one node under the same name. */
  lemma {:induction false} BuildDistinct(raw: RawModule)
    ensures DistinctTree(Build(raw))
    decreases raw
  {
    var n := Build(raw);
    ChildrenDistinct(raw, |raw.modules|);
    forall e | e in n.children
      ensures DistinctTree(e.1)
    {
      ChildrenAreBuilt(raw, |raw.modules|, e);
      var j :| 0 <= j < |raw.modules| && e == (raw.modules[j].0, Build(raw.modules[j].1));
      BuildDistinct(raw.modules[j].1);
    }
  }

  lemma {:induction false} ChildrenGet(raw: RawModule, i: nat, k: Key)
    requires i <= |raw.modules| && Distinct(Keys(raw.modules))
    ensures Get(Children(raw, i), k) == match Get(raw.modules[..i], k) case None => None case Some(m) => Some(Build(m))
  {
    if i > 0 {
      var prefix, last := raw.modules[..i - 1], raw.modules[i - 1];
      ChildrenGet(raw, i - 1, k);
      PrefixSnoc(raw.modules, i);
      GetAppend(prefix, last.0, last.1, k);
      PutGet(Children(raw, i - 1), last.0, Build(last.1));
      if k != last.0 {
        PutOther(Children(raw, i - 1), last.0, Build(last.1), k);
      } else {
        NotInEarlierKeys(raw.modules, i - 1);
      }
    }
  }

  lemma NotInEarlierKeys<V>(d: seq<(Key, V)>, i: nat)
    requires Distinct(Keys(d)) && i < |d|
    ensures d[i].0 !in Keys(d[..i])
  {
  }

  /** Every nested configuration is reachable in the built tree along its
      configuration path, as the node built for it, and no other path leads
      to a node. */
  lemma {:induction false} BuildFindsConfig(raw: RawModule, path: seq<Key>)
    requires WellFormed(raw)
    ensures Find(Build(raw), path) == match ConfigAt(raw, path) case None => None case Some(m) => Some(Build(m))
    decreases |path|
  {
    if path != [] {
      ChildrenGet(raw, |raw.modules|, path[0]);
      assert raw.modules[..|raw.modules|] == raw.modules;
      match Get(raw.modules, path[0])
      case None =>
      case Some(m) =>
        BuildFindsConfig(m, path[1..]);
    }
  }

  /** `root` holds `raw`'s node, with its first `i` nested modules registered,
      at `path` of `base`. */
  ghost predicate Placed(root: Option<Node>, base: Option<Node>, path: seq<Key>, raw: RawModule, i: nat)
  {
    && i <= |raw.modules|
    && (path != [] ==> base.Some? && Find(base.value, ButLast(path)).Some?)
    && root == Some(Attach(base, path, Partial(raw, i)))
  }

  /** One turn of `register`'s loop over `raw.modules`: the parent lookup for
      the `i`-th nested module finds `raw`'s node, and registering it there
      gives `raw`'s node with one more child. */
  lemma RegisterStep(base: Option<Node>, path: seq<Key>, raw: RawModule, i: nat)
    requires i < |raw.modules|
    requires path != [] ==> base.Some? && Find(base.value, ButLast(path)).Some?
    ensures Find(Attach(base, path, Partial(raw, i)), path) == Some(Partial(raw, i))
    ensures ButLast(path + [raw.modules[i].0]) == path
    ensures Graft(Attach(base, path, Partial(raw, i)), path + [raw.modules[i].0], Build(raw.modules[i].1))
         == Attach(base, path, Partial(raw, i + 1))
  {
    var name, child := raw.modules[i].0, raw.modules[i].1;
    if path == [] {
      assert [] + [name] == [name];
    } else {
      FindGraft(base.value, path, Partial(raw, i), path);
      assert path[|path|..] == [];
      GraftExtend(base.value, path, Partial(raw, i), name, Build(child));
    }
  }

  class ModuleCollection {
    /** `this.root`: `None` until the first `register([], ...)`. */
    var root: Option<Node>

    /** `new ModuleCollection(options)`: registers the whole configuration as
        the root. */
    constructor (options: RawModule)
      ensures root == Some(Build(options))
    {
      root := None;
      new;
      var ok := Register([], options);
    }

    /** `register(path, rawModule)`: a fresh node for `raw` (its raw
        configuration, no children, `state = raw.state`) becomes the root when
        `path` is empty and is otherwise stored in the `_children` of the node
        at all but the last segment of `path`, under the last segment; then
        `raw.modules` are registered below it, in order. It throws when there
        is no such parent node. */
    method Register(path: seq<Key>, raw: RawModule) returns (ok: bool)
      modifies this
      ensures ok <==> path == [] || (old(root).Some? && Find(old(root).value, ButLast(path)).Some?)
      ensures ok ==> root == Some(Attach(old(root), path, Build(raw)))
      ensures !ok ==> root == old(root)
      decreases raw, 1
    {
      var node := Node(raw, [], raw.state);
      if path == [] {
        root := Some(node);
      } else {
        if root.None? || Find(root.value, ButLast(path)).None? {
          return false;
        }
        root := Some(Graft(root.value, path, node));
      }
      assert node == Partial(raw, 0);
      // `forEach(rawModule.modules, ...)`: each nested module is registered
      // below the node just placed, in order.
      var i := 0;
      while i < |raw.modules|
        invariant Placed(root, old(root), path, raw, i)
        decreases |raw.modules| - i
      {
        RegisterModule(path, raw, i, old(root));
        i := i + 1;
      }
      assert Partial(raw, |raw.modules|) == Build(raw);
      ok := true;
    }

    /** The `forEach` callback: `this.register(path.concat(childName), module)`
        for the `i`-th nested module of `raw`. */
    method RegisterModule(path: seq<Key>, raw: RawModule, i: nat, ghost base: Option<Node>)
      requires i < |raw.modules| && Placed(root, base, path, raw, i)
      modifies this
      ensures Placed(root, base, path, raw, i + 1)
      decreases raw, 0
    {
      var name, child := raw.modules[i].0, raw.modules[i].1;
      RegisterStep(base, path, raw, i);
      var ok := Register(path + [name], child);
    }
  }
}

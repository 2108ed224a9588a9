/** The root state tree: the plain values that module state slices are made of,
    the property walk `path.reduce((o, k) => o[k], root)`, and mounting a slice
    with `Vue.set(parent, key, slice)` (vuex.js:54-59). */
module StateTree {
  import opened Common
  import opened Entries

  /** A JavaScript value as it can occur in a state tree: `undefined`, a number
      (standing for every primitive) or a plain object. */
  datatype Value = Undefined | Num(n: int) | Obj(props: map<Key, Value>)

  /** JavaScript truthiness, for `options.state || {}`. */
  predicate Truthy(v: Value)
  {
    !(v.Undefined? || v == Num(0))
  }

  /** Reading `v[k]`: a property of `undefined` throws (`None`); a number has no
      own properties and a missing property reads as `undefined`. */
  function Prop(v: Value, k: Key): (r: Option<Value>)
    ensures r.None? <==> v.Undefined?
    ensures r.Some? && r.value != Undefined ==> v.Obj? && k in v.props && r.value == v.props[k]
  {
    match v
    case Undefined => None
    case Num(_) => Some(Undefined)
    case Obj(m) => Some(if k in m then m[k] else Undefined)
  }

  /** `path.reduce((o, k) => o[k], v)`, `None` where the walk throws. */
  function Walk(v: Value, path: seq<Key>): Option<Value>
    decreases |path|
  {
    if path == [] then Some(v)
    else match Prop(v, path[0])
      case None => None
      case Some(c) => Walk(c, path[1..])
  }

  /** `Vue.set(v, k, x)` on an object: the property `k` now holds `x`,
      whether or not it existed before. */
  function SetProp(v: Value, k: Key, x: Value): Value
    requires v.Obj?
  {
    Obj(v.props[k := x])
  }

  /** The tree `v` with `x` written at `path`, every level above it an object
      (a level that is not an object is left as it is). */
  function SetAt(v: Value, path: seq<Key>, x: Value): Value
    decreases |path|
  {
    if path == [] then x
    else if v.Obj? then
      var child := if path[0] in v.props then v.props[path[0]] else Undefined;
      Obj(v.props[path[0] := SetAt(child, path[1..], x)])
    else v
  }

  /** The walk to the parent of `path` reaches an object, so `Vue.set` can
      add the property (it throws on `undefined` or a primitive). */
  predicate CanMount(root: Value, path: seq<Key>)
    requires path != []
  {
    match Walk(root, ButLast(path))
    case Some(Obj(_)) => true
    case _ => false
  }

  /** Mounting slice `x` of the module at `path` into the root state
      (vuex.js:55-58): fails unless the parent slice is an object; afterwards
      the walk along `path` reads `x`. */
  function Mount(root: Value, path: seq<Key>, x: Value): (r: Option<Value>)
    requires path != []
    ensures r.Some? <==> CanMount(root, path)
    ensures r.Some? ==> Walk(r.value, path) == Some(x)
  {
    if CanMount(root, path) then
      WalkSetAtSelf(root, path, x);
      Some(SetAt(root, path, x))
    else None
  }

  /** A walk that ends on an object went through objects all the way. */
  lemma WalkToObject(v: Value, path: seq<Key>)
    requires path != []
    requires Walk(v, path).Some? && Walk(v, path).value.Obj?
    ensures v.Obj? && path[0] in v.props && Walk(v.props[path[0]], path[1..]) == Walk(v, path)
  {
  }

  lemma {:induction false} WalkAppend(v: Value, a: seq<Key>, b: seq<Key>)
    ensures Walk(v, a + b) == match Walk(v, a) case None => None case Some(w) => Walk(w, b)
    decreases |a|
  {
    if a == [] {
      assert a + b == b;
    } else {
      assert (a + b)[0] == a[0] && (a + b)[1..] == a[1..] + b;
      match Prop(v, a[0])
      case None =>
      case Some(c) => WalkAppend(c, a[1..], b);
    }
  }

  /** After writing `x` at `path`, the walk along `path` reads `x`. */
  lemma {:induction false} WalkSetAtSelf(v: Value, path: seq<Key>, x: Value)
    requires path == [] || CanMount(v, path)
    ensures Walk(SetAt(v, path, x), path) == Some(x)
    decreases |path|
  {
    if path != [] {
      var k, rest := path[0], path[1..];
      if ButLast(path) == [] {
        assert v.Obj?;
      } else {
        WalkToObject(v, ButLast(path));
        assert ButLast(path)[1..] == ButLast(rest);
      }
      var child := if k in v.props then v.props[k] else Undefined;
      if rest != [] {
        if ButLast(path) == [] {
          assert false;
        }
        assert Walk(child, ButLast(rest)) == Walk(v, ButLast(path));
        WalkSetAtSelf(child, rest, x);
      }
      assert Prop(SetAt(v, path, x), k) == Some(SetAt(child, rest, x));
    }
  }

  /** Writing twice at the same place keeps the second write. */
  lemma {:induction false} SetAtTwice(v: Value, path: seq<Key>, x: Value, y: Value)
    ensures SetAt(SetAt(v, path, x), path, y) == SetAt(v, path, y)
    decreases |path|
  {
    if path != [] && v.Obj? {
      var child := if path[0] in v.props then v.props[path[0]] else Undefined;
      var v1 := Obj(v.props[path[0] := SetAt(child, path[1..], x)]);
      assert SetAt(v, path, x) == v1;
      SetAtTwice(child, path[1..], x, y);
      assert SetAt(v1, path, y) == Obj(v1.props[path[0] := SetAt(SetAt(child, path[1..], x), path[1..], y)]);
    }
  }

  /** Writing one level below an object slice is writing the slice with one
      more property. */
  lemma {:induction false} SetAtExtend(v: Value, path: seq<Key>, k: Key, x: Value)
    requires Walk(v, path).Some? && Walk(v, path).value.Obj?
    ensures SetAt(v, path + [k], x) == SetAt(v, path, SetProp(Walk(v, path).value, k, x))
    decreases |path|
  {
    if path == [] {
      assert [k][1..] == [];
    } else {
      WalkToObject(v, path);
      assert (path + [k])[0] == path[0] && (path + [k])[1..] == path[1..] + [k];
      SetAtExtend(v.props[path[0]], path[1..], k, x);
    }
  }

  /** Mounting at `path` changes nothing outside the branch through `path`, and
      below `path` the tree is the mounted slice. */
  lemma {:induction false} WalkSetAtElsewhere(v: Value, path: seq<Key>, x: Value, q: seq<Key>)
    requires path == [] || CanMount(v, path)
    ensures path <= q ==> Walk(SetAt(v, path, x), q) == Walk(x, q[|path|..])
    ensures !(path <= q) && !(q <= path) ==> Walk(SetAt(v, path, x), q) == Walk(v, q)
    decreases |path|
  {
    if path != [] && q != [] {
      var k, rest := path[0], path[1..];
      if ButLast(path) == [] {
        assert v.Obj?;
      } else {
        WalkToObject(v, ButLast(path));
        assert ButLast(path)[1..] == ButLast(rest);
      }
      var child := if k in v.props then v.props[k] else Undefined;
      if q[0] != k {
        assert Prop(SetAt(v, path, x), q[0]) == Prop(v, q[0]);
      } else {
        assert Prop(SetAt(v, path, x), k) == Some(SetAt(child, rest, x));
        assert Walk(v, q) == Walk(child, q[1..]);
        assert path <= q <==> rest <= q[1..];
        assert q <= path <==> q[1..] <= rest;
        if rest != [] {
          assert Walk(child, ButLast(rest)) == Walk(v, ButLast(path));
        }
        WalkSetAtElsewhere(child, rest, x, q[1..]);
        if path <= q {
          assert q[|path|..] == q[1..][|rest|..];
        }
      }
    }
  }
}

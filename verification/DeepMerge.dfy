/** The in-place merge on objects in the heap, and the request builder that uses it. */
module DeepMerge {
  import opened Wrappers
  import opened ObjectTrees
  import opened RequestSequences

  datatype Value = Prim(p: Primitive) | Ref(o: Obj)

  /** An object: its properties, and the objects of the tree below it. */
  class Obj {
    var props: map<string, Value>
    ghost var repr: set<Obj>

    constructor ()
      ensures props == map[] && repr == {this}
    {
      props := map[];
      repr := {this};
    }
  }

  /** The object is the root of a tree in the heap, without sharing, that denotes t. */
  ghost predicate Denotes(o: Obj, t: Tree)
    reads o, o.repr
    decreases t
  {
    && t.Node?
    && o in o.repr
    && o.props.Keys == t.children.Keys
    && (forall k :: k in t.children ==>
          match o.props[k]
          case Prim(p) => t.children[k] == Leaf(p)
          case Ref(c) => c in o.repr && c.repr <= o.repr - {o} && Denotes(c, t.children[k]))
    && (forall k, l :: k in o.props && l in o.props && k != l && o.props[k].Ref? && o.props[l].Ref? ==>
          o.props[k].o.repr !! o.props[l].o.repr)
  }

  /** A child of a denoting object denotes its part of the tree, inside the object's footprint. */
  lemma ChildDenotes(o: Obj, t: Tree, k: string)
    requires Denotes(o, t) && k in t.children && t.children[k].Node?
    ensures o.props[k].Ref?
    ensures var c := o.props[k].o;
      c in o.repr && c in c.repr && c.repr <= o.repr - {o} && Denotes(c, t.children[k])
  {
  }

  // ---------------------------------------------------------------- one property

  /** Writes a primitive, or a new object that denotes v. */
  method Put(target: Obj, k: string, x: Value, ghost t: Tree, ghost v: Tree)
    requires Denotes(target, t)
    requires match x
             case Prim(p) => v == Leaf(p)
             case Ref(o) => Denotes(o, v) && o.repr !! target.repr
    modifies target
    ensures Denotes(target, Node(t.children[k := v]))
    ensures target.repr == old(target.repr) + if x.Ref? then x.o.repr else {}
  {
    target.props := target.props[k := x];
    if x.Ref? {
      target.repr := target.repr + x.o.repr;
    }
    forall l | l in t.children && l != k && target.props[l].Ref?
      ensures Denotes(target.props[l].o, t.children[l])
    {
      assert old(Denotes(target.props[l].o, t.children[l]));
    }
  }

  /** `target[key] = target[key] || {}`. */
  method EnsureProperty(target: Obj, k: string, ghost t: Tree) returns (ghost base: Tree)
    requires Denotes(target, t)
    modifies target
    ensures base == if k in t.children && Truthy(t.children[k]) then t.children[k] else Node(map[])
    ensures Denotes(target, Node(t.children[k := base]))
    ensures fresh(target.repr - old(target.repr))
  {
    if k in target.props && (target.props[k].Ref? || Truthy(Leaf(target.props[k].p))) {
      base := t.children[k];
      assert t.children[k := base] == t.children;
    } else {
      var o := new Obj();
      Put(target, k, Ref(o), t, Node(map[]));
      base := Node(map[]);
    }
  }

  /** Merging into a primitive: true when nothing inside the source is merged into undefined. */
  method MergeIntoPrimitive(source: Obj, ghost s: Tree) returns (ok: bool)
    requires Denotes(source, s)
    ensures ok <==> !ThrowsOnPrimitive(s.children)
  {
    var todo := source.props.Keys;
    while todo != {}
      invariant todo <= s.children.Keys
      invariant forall k :: k in s.children && k !in todo ==> !(s.children[k].Node? && s.children[k].children != map[])
      decreases todo
    {
      var k :| k in todo;
      var v := source.props[k];
      if v.Ref? {
        ChildDenotes(source, s, k);
        if v.o.props.Keys != {} {
          return false;
        }
      }
      todo := todo - {k};
    }
    return true;
  }

  /** Merges an object of the source into a property; false stands for a TypeError. */
  method MergeObject(target: Obj, source: Obj, k: string, ghost t: Tree, ghost s: Tree) returns (ok: bool)
    requires Denotes(target, t) && Denotes(source, s) && target.repr !! source.repr
    modifies target.repr
    ensures target in target.repr && fresh(target.repr - old(target.repr))
    ensures ok <==> MergeProperty(Find(t.children, k), s).Some?
    ensures ok ==> Denotes(target, Node(t.children[k := MergeProperty(Find(t.children, k), s).value]))
    decreases s, 4
  {
    ghost var base := EnsureProperty(target, k, t);
    ok := MergeOntoBase(target, source, k, Node(t.children[k := base]), s);
    BaseDecides(t.children, k, base, s);
  }

  lemma BaseDecides(t: Props, k: string, base: Tree, s: Tree)
    requires base == if k in t && Truthy(t[k]) then t[k] else Node(map[])
    ensures MergeProperty(Find(t, k), s) == MergeProperty(Some(base), s)
    ensures var r := MergeProperty(Some(base), s); r.Some? ==> t[k := base][k := r.value] == t[k := r.value]
  {
  }

  /** Merges an object into a property that is an object or a truthy primitive. */
  method MergeOntoBase(target: Obj, source: Obj, k: string, ghost t: Tree, ghost s: Tree) returns (ok: bool)
    requires Denotes(target, t) && Denotes(source, s) && target.repr !! source.repr
    requires k in t.children && Truthy(t.children[k])
    modifies target.repr
    ensures target in target.repr && fresh(target.repr - old(target.repr))
    ensures ok <==> MergeProperty(Some(t.children[k]), s).Some?
    ensures ok ==> Denotes(target, Node(t.children[k := MergeProperty(Some(t.children[k]), s).value]))
    decreases s, 3
  {
    if target.props[k].Prim? {
      ok := MergeIntoPrimitive(source, s);
      assert t.children[k := t.children[k]] == t.children;
    } else {
      ok := MergeChild(target, source, k, t, s);
    }
  }

  /** Merges one property of the source. */
  method MergeKey(target: Obj, source: Obj, k: string, ghost t: Tree, ghost s: Tree) returns (ok: bool)
    requires Denotes(target, t) && Denotes(source, s) && target.repr !! source.repr
    requires k in s.children
    modifies target.repr
    ensures target in target.repr && fresh(target.repr - old(target.repr))
    ensures Denotes(source, s) && target.repr !! source.repr
    ensures ok <==> MergeProperty(Find(t.children, k), s.children[k]).Some?
    ensures ok ==> Denotes(target, Node(t.children[k := MergeProperty(Find(t.children, k), s.children[k]).value]))
    decreases s, 0
  {
    var v := source.props[k];
    if v.Prim? {
      Put(target, k, v, t, Leaf(v.p));
      ok := true;
    } else {
      ChildDenotes(source, s, k);
      ok := MergeObject(target, v.o, k, t, s.children[k]);
    }
  }

  /** Property l holds its part of the tree and nothing of the footprint c. */
  ghost predicate Apart(o: Obj, t: Tree, l: string, c: set<Obj>)
    reads o, o.repr
  {
    && t.Node? && l in o.props && l in t.children
    && match o.props[l]
       case Prim(p) => t.children[l] == Leaf(p)
       case Ref(d) => d in o.repr && d.repr <= o.repr - {o} && Denotes(d, t.children[l]) && d.repr !! c
  }

  lemma Assemble(o: Obj, t: Tree, k: string, v: Tree)
    requires t.Node? && o in o.repr && k in t.children && o.props.Keys == t.children.Keys && o.props[k].Ref?
    requires var c := o.props[k].o; c in o.repr && c.repr <= o.repr - {o} && Denotes(c, v)
    requires forall l :: l in t.children && l != k ==> Apart(o, t, l, o.props[k].o.repr)
    requires forall l, m :: l in o.props && m in o.props && l != m && l != k && m != k ==>
      (o.props[l].Ref? && o.props[m].Ref? ==> o.props[l].o.repr !! o.props[m].o.repr)
    ensures Denotes(o, Node(t.children[k := v]))
  {
  }

  /** Merges into an object that is a property of the target. */
  method MergeChild(target: Obj, source: Obj, k: string, ghost t: Tree, ghost s: Tree) returns (ok: bool)
    requires Denotes(target, t) && Denotes(source, s) && target.repr !! source.repr
    requires k in t.children && t.children[k].Node?
    modifies target.repr
    ensures target in target.repr && fresh(target.repr - old(target.repr))
    ensures ok <==> MergeProps(t.children[k].children, s).Some?
    ensures ok ==> Denotes(target, Node(t.children[k := Node(MergeProps(t.children[k].children, s).value)]))
    decreases s, 2
  {
    ChildDenotes(target, t, k);
    var child := target.props[k].o;
    ok := Merge(child, source, t.children[k], s);
    target.repr := target.repr + child.repr;
    if ok {
      forall l | l in t.children && l != k ensures Apart(target, t, l, child.repr)
      {
        assert target.props[l].Ref? ==> old(Denotes(target.props[l].o, t.children[l]));
      }
      Assemble(target, t, k, Node(MergeProps(t.children[k].children, s).value));
    }
  }

  // ---------------------------------------------------------------- all properties

  /** The target's properties after some of the source's have been merged. */
  ghost function Merged(t: Props, s: Props, done: set<string>): Props
    requires done <= s.Keys && forall k :: k in done ==> MergeProperty(Find(t, k), s[k]).Some?
  {
    map k | k in t.Keys + done :: if k in done then MergeProperty(Find(t, k), s[k]).value else t[k]
  }

  lemma MergedStep(t: Props, s: Props, done: set<string>, k: string)
    requires done <= s.Keys && k in s && k !in done
    requires forall l :: l in done ==> MergeProperty(Find(t, l), s[l]).Some?
    ensures Find(Merged(t, s, done), k) == Find(t, k)
    ensures MergeProperty(Find(t, k), s[k]).Some? ==>
      Merged(t, s, done)[k := MergeProperty(Find(t, k), s[k]).value] == Merged(t, s, done + {k})
  {
  }

  /** Merges source into target in place; false stands for a TypeError. */
  method Merge(target: Obj, source: Obj, ghost t: Tree, ghost s: Tree) returns (ok: bool)
    requires Denotes(target, t) && Denotes(source, s) && target.repr !! source.repr
    modifies target.repr
    ensures target in target.repr && fresh(target.repr - old(target.repr))
    ensures Denotes(source, s) && target.repr !! source.repr
    ensures ok <==> MergeProps(t.children, s).Some?
    ensures ok ==> Denotes(target, Node(MergeProps(t.children, s).value))
    decreases s, 1
  {
    var todo := source.props.Keys;
    ghost var done := {};
    assert Merged(t.children, s.children, {}) == t.children;
    while todo != {}
      invariant todo !! done && todo + done == s.children.Keys
      invariant fresh(target.repr - old(target.repr)) && target in target.repr
      invariant target.repr !! source.repr && Denotes(source, s)
      invariant forall k :: k in done ==> MergeProperty(Find(t.children, k), s.children[k]).Some?
      invariant Denotes(target, Node(Merged(t.children, s.children, done)))
      decreases todo
    {
      var k :| k in todo;
      MergedStep(t.children, s.children, done, k);
      ok := MergeKey(target, source, k, Node(Merged(t.children, s.children, done)), s);
      if !ok {
        return;
      }
      todo := todo - {k};
      done := done + {k};
    }
    ok := true;
    assert Merged(t.children, s.children, done) == MergeProps(t.children, s).value;
  }

  // ---------------------------------------------------------------- building requests

  /** The JSON form of the properties seen so far. */
  ghost function JsonSome(m: Props, done: set<string>): Props {
    map k | k in done && k in m && m[k] != Leaf(Undefined) :: Json(m[k])
  }

  lemma JsonStep(m: Props, done: set<string>, k: string)
    requires k in m && k !in done
    ensures JsonSome(m, done + {k})
      == if m[k] == Leaf(Undefined) then JsonSome(m, done) else JsonSome(m, done)[k := Json(m[k])]
    ensures JsonSome(m, m.Keys) == Json(Node(m)).children
  {
  }

  /** JSON.stringify: the tree it writes out. */
  method Stringify(o: Obj, ghost t: Tree) returns (j: Tree)
    requires Denotes(o, t)
    ensures j == Json(t)
    decreases t
  {
    var m: Props := map[];
    var todo := o.props.Keys;
    ghost var done := {};
    while todo != {}
      invariant todo !! done && todo + done == t.children.Keys
      invariant m == JsonSome(t.children, done)
      decreases todo
    {
      var k :| k in todo;
      JsonStep(t.children, done, k);
      var v := o.props[k];
      if v.Ref? {
        ChildDenotes(o, t, k);
        var c := Stringify(v.o, t.children[k]);
        m := m[k := c];
      } else if v.p != Undefined {
        m := m[k := Leaf(v.p)];
      }
      todo := todo - {k};
      done := done + {k};
    }
    j := Node(m);
  }

  /** JSON.parse: new objects that denote the tree. */
  method Parse(t: Tree) returns (o: Obj)
    requires t.Node?
    ensures Denotes(o, t) && fresh(o.repr)
    decreases t
  {
    o := new Obj();
    var todo := t.children.Keys;
    ghost var done: Props := map[];
    while todo != {}
      invariant todo !! done.Keys && todo + done.Keys == t.children.Keys
      invariant forall k :: k in done ==> done[k] == t.children[k]
      invariant Denotes(o, Node(done)) && fresh(o.repr)
      decreases todo
    {
      var k :| k in todo;
      if t.children[k].Node? {
        var c := Parse(t.children[k]);
        Put(o, k, Ref(c), Node(done), t.children[k]);
      } else {
        Put(o, k, Prim(t.children[k].value), Node(done), t.children[k]);
      }
      todo := todo - {k};
      done := done[k := t.children[k]];
    }
    assert done == t.children;
  }

  /** Merges into the object and serialises it. */
  method MergeAndSend(base: Obj, source: Obj, ghost t: Tree, ghost s: Tree) returns (json: Option<Tree>)
    requires Denotes(base, t) && Denotes(source, s) && base.repr !! source.repr
    modifies base.repr
    ensures base in base.repr && fresh(base.repr - old(base.repr))
    ensures Denotes(source, s) && base.repr !! source.repr
    ensures json == Sent(t, s)
    ensures json.Some? ==> Denotes(base, Node(MergeProps(t.children, s).value))
  {
    var ok := Merge(base, source, t, s);
    if !ok {
      return None;
    }
    var j := Stringify(base, Node(MergeProps(t.children, s).value));
    json := Some(j);
  }

  /**
   * A request: `copy` is merged into a copy of the shared base, which stays as it is; `mod`, if any, is merged
   * into the base itself.
   */
  method RangeReq(base: Obj, copy: Option<Obj>, mod: Option<Obj>, ghost t: Tree, ghost s: Tree)
    returns (json: Option<Tree>)
    requires Denotes(base, t) && s.Node?
    requires copy.Some? ==> Denotes(copy.value, s) && base.repr !! copy.value.repr
    requires copy.None? && mod.Some? ==> Denotes(mod.value, s) && base.repr !! mod.value.repr
    modifies if copy.Some? then {} else base.repr
    ensures base in base.repr && fresh(base.repr - old(base.repr))
    ensures copy.Some? ==> Denotes(copy.value, s) && base.repr !! copy.value.repr
    ensures copy.None? && mod.Some? ==> Denotes(mod.value, s) && base.repr !! mod.value.repr
    ensures copy.Some? ==> Denotes(base, t) && json == Sent(Json(t), s)
    ensures copy.None? && mod.Some? ==> json == Sent(t, s)
    ensures copy.None? && mod.Some? && json.Some? ==> Denotes(base, Node(MergeProps(t.children, s).value))
    ensures copy.None? && mod.None? ==> Denotes(base, t) && json == Some(Json(t))
  {
    if copy.Some? {
      var text := Stringify(base, t);
      var own := Parse(text);
      json := MergeAndSend(own, copy.value, Json(t), s);
    } else if mod.Some? {
      json := MergeAndSend(base, mod.value, t, s);
    } else {
      var j := Stringify(base, t);
      json := Some(j);
    }
  }

  // ---------------------------------------------------------------- requests in turn

  /** The sources of the requests: separate trees in the heap, none of which shares anything with the base. */
  ghost predicate Sources(base: Obj, os: seq<Obj>, ss: seq<Tree>)
    reads base, os, set i, o | 0 <= i < |os| && o in os[i].repr :: o
  {
    |os| == |ss| && forall i :: 0 <= i < |os| ==> Denotes(os[i], ss[i]) && base.repr !! os[i].repr
  }

  /** The page's requests, one after the other, on objects in the heap. */
  method RequestsInTurn(base: Obj, mods: seq<Obj>, copy: Obj, ghost t: Tree, ghost ss: seq<Tree>, ghost s: Tree)
    returns (json: Option<Tree>)
    requires Denotes(base, t) && Sources(base, mods + [copy], ss + [s])
    requires AllNodes(ss) && s.Node?
    modifies base.repr
    ensures json == SentAfter(t.children, ss, s)
    ensures json.Some? ==> Denotes(base, Node(AfterMods(t.children, ss).value))
    decreases |mods|
  {
    if |mods| == 0 {
      assert (mods + [copy])[0] == copy && (ss + [s])[0] == s;
      json := RangeReq(base, Some(copy), None, t, s);
    } else {
      ghost var os, ts := mods + [copy], ss + [s];
      assert os[0] == mods[0] && ts[0] == ss[0];
      var first := RangeReq(base, None, Some(mods[0]), t, ss[0]);
      if first.None? {
        return None;
      }
      assert os[1..] == mods[1..] + [copy] && ts[1..] == ss[1..] + [s];
      forall i | 0 < i < |os| ensures Denotes(os[i], ts[i]) && base.repr !! os[i].repr {
        assert old(Denotes(os[i], ts[i]) && base.repr !! os[i].repr);
      }
      json := RequestsInTurn(base, mods[1..], copy, Node(MergeProps(t.children, ss[0]).value), ss[1..], s);
    }
  }
}

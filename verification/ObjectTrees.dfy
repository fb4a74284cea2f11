/** Merging trees of properties as values: what the script's merge computes, and the laws it obeys. */
module ObjectTrees {
  import opened Wrappers

  /** Values that are not objects. */
  datatype Primitive = Undefined | Null | Boolean(b: bool) | Number(n: int) | Text(s: string)

  datatype Tree = Leaf(value: Primitive) | Node(children: map<string, Tree>)

  type Props = map<string, Tree>

  predicate Truthy(t: Tree) {
    match t
    case Leaf(Undefined) => false
    case Leaf(Null) => false
    case Leaf(Boolean(b)) => b
    case Leaf(Number(n)) => n != 0
    case Leaf(Text(s)) => s != ""
    case Node(_) => true
  }

  lemma FalsyAre(t: Tree)
    ensures !Truthy(t)
      <==> t in {Leaf(Undefined), Leaf(Null), Leaf(Boolean(false)), Leaf(Number(0)), Leaf(Text(""))}
  {
  }

  // ---------------------------------------------------------------- what the script computes

  /**
   * Merging an object into a primitive writes nothing, but a non-empty object inside it is merged into
   * undefined, which throws.
   */
  predicate ThrowsOnPrimitive(s: Props) {
    exists k :: k in s && s[k].Node? && s[k].children != map[]
  }

  /** What becomes of one property; None when the merge throws. */
  function MergeProperty(t: Option<Tree>, s: Tree): Option<Tree>
    decreases s, 1
  {
    match s
    case Leaf(_) => Some(s)
    case Node(children) =>
      var base := if t.Some? && Truthy(t.value) then t.value else Node(map[]);
      if base.Leaf? then
        if ThrowsOnPrimitive(children) then None else Some(base)
      else
        var m := MergeProps(base.children, s);
        if m.None? then None else Some(Node(m.value))
  }

  /** The properties of a target after merging a source object into it; None when the merge throws. */
  function MergeProps(t: Props, s: Tree): Option<Props>
    requires s.Node?
    decreases s, 0
  {
    var m := s.children;
    if exists k :: k in m && MergeProperty(Find(t, k), m[k]).None? then None
    else Some(map k | k in t.Keys + m.Keys :: if k in m then MergeProperty(Find(t, k), m[k]).value else t[k])
  }

  /** What is left of a tree in its JSON form: properties that are undefined are dropped. */
  function Json(t: Tree): Tree {
    match t
    case Leaf(_) => t
    case Node(m) => Node(map k | k in m && m[k] != Leaf(Undefined) :: Json(m[k]))
  }

  /** What a request sends when the source s is merged into t; None stands for a TypeError. */
  ghost function Sent(t: Tree, s: Tree): Option<Tree>
    requires t.Node? && s.Node?
  {
    var m := MergeProps(t.children, s);
    if m.Some? then Some(Json(Node(m.value))) else None
  }

  // ---------------------------------------------------------------- the ideal

  /** The right-biased recursive merge: objects merge with objects, everything else is taken from the right. */
  function Merge(t: Tree, s: Tree): Tree
    decreases s
  {
    if t.Node? && s.Node? then
      Node(map k | k in t.children.Keys + s.children.Keys ::
        if k !in s.children then t.children[k]
        else if k !in t.children then s.children[k]
        else Merge(t.children[k], s.children[k]))
    else s
  }

  /** No object of the source meets a truthy primitive in the target. */
  predicate NoClash(t: Tree, s: Tree)
    decreases s
  {
    t.Node? && s.Node? ==>
      forall k :: k in t.children && k in s.children && s.children[k].Node? ==>
        !(t.children[k].Leaf? && Truthy(t.children[k])) && NoClash(t.children[k], s.children[k])
  }

  // ---------------------------------------------------------------- when the script meets the ideal

  /** The ideal for one property. */
  function MergeOnto(t: Option<Tree>, s: Tree): Tree {
    if t.Some? then Merge(t.value, s) else s
  }

  /** Nothing of the source is lost on a missing or falsy target, which becomes a copy of it. */
  lemma {:induction false} MergeIntoEmpty(s: Tree)
    requires s.Node?
    ensures MergeProps(map[], s) == Some(s.children)
    decreases s
  {
    forall k | k in s.children ensures MergeProperty(None, s.children[k]) == Some(s.children[k]) {
      if s.children[k].Node? {
        MergeIntoEmpty(s.children[k]);
      }
    }
    var none: Props := map[];
    assert forall k :: k in s.children ==> Find(none, k) == None;
    assert MergeProps(none, s).value == s.children;
  }

  predicate PropertyFits(t: Option<Tree>, s: Tree) {
    t.Some? && s.Node? ==> !(t.value.Leaf? && Truthy(t.value)) && NoClash(t.value, s)
  }

  lemma {:induction false} PropertyIdeal(t: Option<Tree>, s: Tree)
    ensures MergeProperty(t, s) == Some(MergeOnto(t, s)) <==> PropertyFits(t, s)
    decreases s, 1
  {
    if s.Node? {
      if t.Some? && t.value.Node? {
        MergeIsIdealIff(t.value.children, s);
        assert t.value == Node(t.value.children);
      } else {
        MergeIntoEmpty(s);
      }
    }
  }

  /** The script's merge is the right-biased merge exactly when no source object meets a truthy primitive. */
  lemma {:induction false} MergeIsIdealIff(t: Props, s: Tree)
    requires s.Node?
    ensures MergeProps(t, s) == Some(Merge(Node(t), s).children) <==> NoClash(Node(t), s)
    decreases s, 0
  {
    var m := s.children;
    var ideal := Merge(Node(t), s).children;
    forall k | k in m
      ensures MergeProperty(Find(t, k), m[k]) == Some(MergeOnto(Find(t, k), m[k])) <==> PropertyFits(Find(t, k), m[k])
    {
      PropertyIdeal(Find(t, k), m[k]);
    }
    if NoClash(Node(t), s) {
      forall k | k in m ensures PropertyFits(Find(t, k), m[k]) {
      }
      assert MergeProps(t, s).value == ideal;
    } else {
      var k :| k in t && k in m && m[k].Node? && !(!(t[k].Leaf? && Truthy(t[k])) && NoClash(t[k], m[k]));
      assert !PropertyFits(Find(t, k), m[k]);
      assert k in ideal && ideal[k] == MergeOnto(Find(t, k), m[k]);
    }
  }

  // ---------------------------------------------------------------- path by path

  /** What stands at the end of a path of properties. */
  function At(t: Tree, path: seq<string>): Option<Tree>
    decreases |path|
  {
    if |path| == 0 then Some(t)
    else if t.Node? && path[0] in t.children then At(t.children[path[0]], path[1..])
    else None
  }

  /** The path leaves the tree at an object that lacks the next property. */
  predicate Misses(t: Tree, path: seq<string>)
    decreases |path|
  {
    |path| > 0 && t.Node? && (path[0] in t.children ==> Misses(t.children[path[0]], path[1..]))
  }

  /** The merge has the primitives and objects of the right tree where that has any, and the left tree elsewhere. */
  lemma {:induction false} MergeAt(t: Tree, s: Tree, path: seq<string>)
    ensures var m, x := At(Merge(t, s), path), At(s, path);
      && (x.Some? && x.value.Leaf? ==> m == x)
      && (x.Some? && x.value.Node? ==> m.Some? && m.value.Node?)
      && (Misses(s, path) ==> m == At(t, path))
    decreases |path|
  {
    if |path| > 0 && t.Node? && s.Node? && path[0] in t.children && path[0] in s.children {
      MergeAt(t.children[path[0]], s.children[path[0]], path[1..]);
    } else if |path| > 0 && t.Node? && s.Node? && path[0] in s.children && Misses(s, path) {
      MissesNothing(s.children[path[0]], path[1..]);
    } else if |path| > 0 && t.Leaf? && Misses(s, path) {
      MissesNothing(s, path);
    }
  }

  lemma {:induction false} MissesNothing(t: Tree, path: seq<string>)
    requires Misses(t, path)
    ensures At(t, path) == None
    decreases |path|
  {
    if path[0] in t.children {
      MissesNothing(t.children[path[0]], path[1..]);
    }
  }

  /** At the path, an object of the source meets a truthy primitive of the target. */
  predicate ClashAt(t: Tree, s: Tree, path: seq<string>) {
    && At(t, path).Some? && At(t, path).value.Leaf? && Truthy(At(t, path).value)
    && At(s, path).Some? && At(s, path).value.Node?
  }

  /** At the path, an object of the source meets a truthy primitive, and its property k is a non-empty object. */
  predicate ThrowsBelow(t: Tree, s: Tree, path: seq<string>, k: string) {
    && ClashAt(t, s, path)
    && At(s, path + [k]).Some? && At(s, path + [k]).value.Node? && At(s, path + [k]).value.children.Keys != {}
  }

  /** The script throws exactly when there is such a place. */
  lemma {:induction false} ThrowsIff(t: Tree, s: Tree)
    requires t.Node? && s.Node?
    ensures MergeProps(t.children, s).None? <==> exists path, k :: ThrowsBelow(t, s, path, k)
  {
    var m := s.children;
    if MergeProps(t.children, s).None? {
      var k :| k in m && MergeProperty(Find(t.children, k), m[k]).None?;
      var path := ThrowsSome(t, s, k);
      var l :| l in At(s, path).value.children
        && At(s, path).value.children[l].Node? && At(s, path).value.children[l].children != map[];
      AtNext(s, path, l);
      assert ThrowsBelow(t, s, path, l);
    }
    if path, k :| ThrowsBelow(t, s, path, k) {
      AtNext(s, path, k);
      ThrowsAt(t, s, path);
    }
  }

  lemma {:induction false} AtNext(t: Tree, path: seq<string>, k: string)
    requires At(t, path).Some? && At(t, path).value.Node?
    ensures var c := At(t, path).value.children; At(t, path + [k]) == if k in c then Some(c[k]) else None
    decreases |path|
  {
    if |path| == 0 {
      assert path + [k] == [k] && [k][1..] == [];
    } else {
      assert (path + [k])[1..] == path[1..] + [k];
      AtNext(t.children[path[0]], path[1..], k);
    }
  }

  lemma {:induction false} ThrowsSome(t: Tree, s: Tree, k: string) returns (path: seq<string>)
    requires t.Node? && s.Node? && k in s.children && MergeProperty(Find(t.children, k), s.children[k]).None?
    ensures ClashAt(t, s, path) && ThrowsOnPrimitive(At(s, path).value.children)
    decreases s, 1
  {
    var c := s.children[k];
    if k in t.children && t.children[k].Node? {
      var l :| l in c.children && MergeProperty(Find(t.children[k].children, l), c.children[l]).None?;
      var rest := ThrowsSome(t.children[k], c, l);
      path := [k] + rest;
      assert path[1..] == rest;
    } else if k in t.children && Truthy(t.children[k]) {
      path := [k];
      assert path[1..] == [];
    } else {
      MergeIntoEmpty(c);
      assert false;
    }
  }

  lemma {:induction false} ThrowsAt(t: Tree, s: Tree, path: seq<string>)
    requires t.Node? && s.Node? && ClashAt(t, s, path) && ThrowsOnPrimitive(At(s, path).value.children)
    ensures MergeProps(t.children, s).None?
    decreases |path|
  {
    var k := path[0];
    if |path| == 1 {
      assert At(t, path) == Some(t.children[k]) && At(s, path) == Some(s.children[k]);
    } else {
      assert At(t.children[k], path[1..]) == At(t, path) && At(s.children[k], path[1..]) == At(s, path);
      ThrowsAt(t.children[k], s.children[k], path[1..]);
    }
    assert MergeProperty(Find(t.children, k), s.children[k]).None?;
  }

  /** Where it does not throw, the truthy primitive stays. */
  lemma {:induction false} ClashKeeps(t: Tree, s: Tree, path: seq<string>)
    requires t.Node? && s.Node? && ClashAt(t, s, path) && MergeProps(t.children, s).Some?
    ensures At(Node(MergeProps(t.children, s).value), path) == At(t, path)
    decreases |path|
  {
    var k := path[0];
    assert MergeProperty(Find(t.children, k), s.children[k]).Some?;
    if |path| == 1 {
      assert At(t, path) == Some(t.children[k]) && At(s, path) == Some(s.children[k]);
    } else {
      assert At(t.children[k], path[1..]) == At(t, path) && At(s.children[k], path[1..]) == At(s, path);
      ClashKeeps(t.children[k], s.children[k], path[1..]);
    }
  }

  // ---------------------------------------------------------------- laws

  lemma {:induction false} Idempotent(t: Tree)
    ensures Merge(t, t) == t
  {
    if t.Node? {
      forall k | k in t.children ensures Merge(t.children[k], t.children[k]) == t.children[k] {
        Idempotent(t.children[k]);
      }
    }
  }

  /** Every property path of a is one of c. */
  predicate Covered(a: Tree, c: Tree) {
    a.Node? && c.Node? ==>
      forall k :: k in a.children ==> k in c.children && Covered(a.children[k], c.children[k])
  }

  lemma {:induction false} MergeIsRightIff(a: Tree, c: Tree)
    ensures Merge(a, c) == c <==> Covered(a, c)
    decreases a
  {
    if a.Node? && c.Node? {
      var m := Merge(a, c).children;
      forall k | k in a.children && k in c.children
        ensures Merge(a.children[k], c.children[k]) == c.children[k] <==> Covered(a.children[k], c.children[k])
      {
        MergeIsRightIff(a.children[k], c.children[k]);
      }
      if Covered(a, c) {
        assert m == c.children;
      } else {
        var k :| k in a.children && !(k in c.children && Covered(a.children[k], c.children[k]));
        assert k in m;
      }
    }
  }

  /** Where b has a primitive between two objects, the earlier one brings nothing the later one lacks. */
  predicate NothingErased(a: Tree, b: Tree, c: Tree)
    decreases a
  {
    a.Node? && c.Node? ==>
      if b.Leaf? then Covered(a, c)
      else forall k :: k in a.children && k in b.children && k in c.children ==>
        NothingErased(a.children[k], b.children[k], c.children[k])
  }

  /** Merging is associative exactly where no primitive erases something. */
  lemma {:induction false} AssociativeIff(a: Tree, b: Tree, c: Tree)
    ensures Merge(Merge(a, b), c) == Merge(a, Merge(b, c)) <==> NothingErased(a, b, c)
    decreases a
  {
    if a.Node? && b.Node? && c.Node? {
      var l, r := Merge(Merge(a, b), c).children, Merge(a, Merge(b, c)).children;
      assert l.Keys == r.Keys;
      forall k | k in a.children && k in b.children && k in c.children
        ensures l[k] == r[k] <==> NothingErased(a.children[k], b.children[k], c.children[k])
      {
        AssociativeIff(a.children[k], b.children[k], c.children[k]);
      }
      assert forall k :: k in l && !(k in a.children && k in b.children && k in c.children) ==> l[k] == r[k];
    } else if a.Node? && c.Node? {
      MergeIsRightIff(a, c);
    }
  }

  /** Two trees agree, path by path, on what is an object. */
  predicate SameShape(a: Tree, b: Tree)
    decreases a
  {
    && a.Node? == b.Node?
    && (a.Node? ==> forall k :: k in a.children && k in b.children ==> SameShape(a.children[k], b.children[k]))
  }

  lemma {:induction false} SameShapeErasesNothing(a: Tree, b: Tree, c: Tree)
    requires SameShape(a, b)
    ensures NothingErased(a, b, c)
    decreases a
  {
    if a.Node? && c.Node? {
      forall k | k in a.children && k in b.children && k in c.children
        ensures NothingErased(a.children[k], b.children[k], c.children[k])
      {
        SameShapeErasesNothing(a.children[k], b.children[k], c.children[k]);
      }
    }
  }

  lemma {:induction false} SameShapeMerge(a: Tree, b: Tree, c: Tree)
    requires SameShape(a, b) && SameShape(a, c) && SameShape(b, c)
    ensures SameShape(Merge(a, b), c)
    decreases a
  {
    if a.Node? {
      var m := Merge(a, b).children;
      forall k | k in m && k in c.children ensures SameShape(m[k], c.children[k]) {
        if k in a.children && k in b.children {
          SameShapeMerge(a.children[k], b.children[k], c.children[k]);
        }
      }
    }
  }

  function MergeEach(base: Tree, mods: seq<Tree>): Tree
    decreases |mods|
  {
    if |mods| == 0 then base else MergeEach(Merge(base, mods[0]), mods[1..])
  }

  function MergeAll(mods: seq<Tree>, last: Tree): Tree {
    if |mods| == 0 then last else Merge(mods[0], MergeAll(mods[1..], last))
  }

  /** A tree and all others agree, path by path, on what is an object. */
  predicate OneShape(base: Tree, mods: seq<Tree>) {
    && (forall i :: 0 <= i < |mods| ==> SameShape(base, mods[i]))
    && (forall i, j :: 0 <= i < j < |mods| ==> SameShape(mods[i], mods[j]))
  }

  /** After the first of several merges there is still one shape. */
  lemma ShapeAfter(base: Tree, mods: seq<Tree>)
    requires |mods| > 0 && OneShape(base, mods)
    ensures OneShape(Merge(base, mods[0]), mods[1..])
  {
    var b, rest := Merge(base, mods[0]), mods[1..];
    forall i | 0 <= i < |rest| ensures SameShape(b, rest[i]) {
      SameShapeMerge(base, mods[0], mods[i + 1]);
    }
    forall i, j | 0 <= i < j < |rest| ensures SameShape(rest[i], rest[j]) {
      assert rest[i] == mods[i + 1] && rest[j] == mods[j + 1];
    }
  }

  /** Changes made one after the other are one change: all of them merged with each other first. */
  lemma {:induction false} ChangesCombine(base: Tree, mods: seq<Tree>, last: Tree)
    requires OneShape(base, mods)
    ensures Merge(MergeEach(base, mods), last) == Merge(base, MergeAll(mods, last))
    decreases |mods|
  {
    if |mods| > 0 {
      var rest := MergeAll(mods[1..], last);
      ShapeAfter(base, mods);
      ChangesCombine(Merge(base, mods[0]), mods[1..], last);
      SameShapeErasesNothing(base, mods[0], rest);
      AssociativeIff(base, mods[0], rest);
    }
  }
}

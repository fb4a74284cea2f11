/** Requests made one after the other on the shared base: `mod` requests that change it, then a `copy` request. */
module RequestSequences {
  import opened Wrappers
  import opened ObjectTrees

  predicate AllNodes(ss: seq<Tree>) {
    forall i :: 0 <= i < |ss| ==> ss[i].Node?
  }

  /** The base after a `mod` request for each tree, as the script merges; None when one of them throws. */
  ghost function AfterMods(t: Props, mods: seq<Tree>): Option<Props>
    requires AllNodes(mods)
    decreases |mods|
  {
    if |mods| == 0 then Some(t)
    else
      var m := MergeProps(t, mods[0]);
      if m.None? then None else AfterMods(m.value, mods[1..])
  }

  /** What the `copy` request sends after the `mod` requests. */
  ghost function SentAfter(t: Props, mods: seq<Tree>, copy: Tree): Option<Tree>
    requires AllNodes(mods) && copy.Node?
  {
    var b := AfterMods(t, mods);
    if b.None? then None else Sent(Json(Node(b.value)), copy)
  }

  // ---------------------------------------------------------------- shapes

  lemma {:induction false} SameShapeNoClash(t: Tree, s: Tree)
    requires SameShape(t, s)
    ensures NoClash(t, s)
    decreases s
  {
    if t.Node? {
      forall k | k in t.children && k in s.children ensures NoClash(t.children[k], s.children[k]) {
        SameShapeNoClash(t.children[k], s.children[k]);
      }
    }
  }

  /** On one shape the script's merge never throws and is the right-biased merge. */
  lemma ScriptMerges(t: Props, s: Tree)
    requires s.Node? && SameShape(Node(t), s)
    ensures MergeProps(t, s) == Some(Merge(Node(t), s).children)
  {
    SameShapeNoClash(Node(t), s);
    MergeIsIdealIff(t, s);
  }

  /** The script's base after all `mod` requests is the ideal one, and the last tree has its shape. */
  lemma {:induction false} ModsMerge(t: Props, mods: seq<Tree>, copy: Tree)
    requires AllNodes(mods) && OneShape(Node(t), mods + [copy])
    ensures MergeEach(Node(t), mods).Node? && SameShape(MergeEach(Node(t), mods), copy)
    ensures AfterMods(t, mods) == Some(MergeEach(Node(t), mods).children)
    decreases |mods|
  {
    var all := mods + [copy];
    if |mods| == 0 {
      assert all[0] == copy;
    } else {
      assert all[0] == mods[0] && all[1..] == mods[1..] + [copy];
      ScriptMerges(t, mods[0]);
      ShapeAfter(Node(t), all);
      ModsMerge(Merge(Node(t), mods[0]).children, mods[1..], copy);
    }
  }

  // ---------------------------------------------------------------- the JSON form

  /** No property anywhere is undefined. */
  predicate NoUndefined(t: Tree) {
    t.Node? ==> forall k :: k in t.children ==> t.children[k] != Leaf(Undefined) && NoUndefined(t.children[k])
  }

  /** The JSON form is the tree itself exactly when no property is undefined. */
  lemma {:induction false} JsonKeepsIff(t: Tree)
    ensures Json(t) == t <==> NoUndefined(t)
    decreases t
  {
    if t.Node? {
      var j := Json(t).children;
      forall k | k in t.children ensures Json(t.children[k]) == t.children[k] <==> NoUndefined(t.children[k]) {
        JsonKeepsIff(t.children[k]);
      }
      if NoUndefined(t) {
        assert j == t.children;
      } else {
        var k :| k in t.children && !(t.children[k] != Leaf(Undefined) && NoUndefined(t.children[k]));
        assert k in j ==> j[k] == Json(t.children[k]);
      }
    }
  }

  /** At every path the JSON form has what the tree has, but for the undefined properties. */
  lemma {:induction false} JsonAt(t: Tree, path: seq<string>)
    ensures var j, x := At(Json(t), path), At(t, path);
      && (j.Some? <==> x.Some? && (|path| > 0 ==> x.value != Leaf(Undefined)))
      && (j.Some? ==> j.value.Node? == x.value.Node? && (x.value.Leaf? ==> j == x))
    decreases |path|
  {
    if |path| > 0 && t.Node? && path[0] in t.children {
      JsonAt(t.children[path[0]], path[1..]);
      if t.children[path[0]] == Leaf(Undefined) && |path| > 1 {
        assert At(t, path) == None;
      }
    }
  }

  lemma {:induction false} SameShapeJson(t: Tree, s: Tree)
    requires SameShape(t, s)
    ensures SameShape(Json(t), s)
    decreases t
  {
    if t.Node? {
      var j := Json(t).children;
      forall k | k in j && k in s.children ensures SameShape(j[k], s.children[k]) {
        SameShapeJson(t.children[k], s.children[k]);
      }
    }
  }

  lemma {:induction false} JsonTwice(t: Tree)
    ensures Json(Json(t)) == Json(t)
    decreases t
  {
    if t.Node? {
      forall k | k in t.children ensures Json(Json(t.children[k])) == Json(t.children[k]) {
        JsonTwice(t.children[k]);
      }
    }
  }

  /** Copying the base through its JSON form first makes no difference to what is sent. */
  lemma {:induction false} JsonMerge(b: Tree, s: Tree)
    ensures Json(Merge(Json(b), s)) == Json(Merge(b, s))
    decreases b
  {
    if b.Node? && s.Node? {
      var l, r := Merge(Json(b), s).children, Merge(b, s).children;
      assert l.Keys <= r.Keys;
      forall k | k in r
        ensures r[k] != Leaf(Undefined) <==> k in l && l[k] != Leaf(Undefined)
        ensures k in l ==> Json(l[k]) == Json(r[k])
      {
        if k in b.children {
          JsonTwice(b.children[k]);
          if k in s.children {
            JsonMerge(b.children[k], s.children[k]);
          }
        }
      }
      assert Json(Node(l)).children == Json(Node(r)).children;
    }
  }

  // ---------------------------------------------------------------- main result

  /**
   * On trees of one shape no request throws, and a sequence of `mod` requests and a `copy` request sends the JSON
   * form of the base merged with all of them merged together.
   */
  lemma RequestsCombine(t: Props, mods: seq<Tree>, copy: Tree)
    requires AllNodes(mods) && copy.Node? && OneShape(Node(t), mods + [copy])
    ensures AfterMods(t, mods).Some?
    ensures SentAfter(t, mods, copy) == Some(Json(Merge(Node(t), MergeAll(mods, copy))))
  {
    var b := MergeEach(Node(t), mods);
    ModsMerge(t, mods, copy);
    SameShapeJson(b, copy);
    ScriptMerges(Json(b).children, copy);
    JsonMerge(b, copy);
    assert mods == (mods + [copy])[..|mods|];
    assert OneShape(Node(t), mods);
    ChangesCombine(Node(t), mods, copy);
  }
}

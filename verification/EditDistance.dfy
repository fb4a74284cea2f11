/** Levenshtein distance: the recurrence, and that it is the least number of single-character edits. */
module EditDistance {

  type Word = seq<char>

  function Min(x: nat, y: nat): nat {
    if x < y then x else y
  }

  function Distance(a: Word, b: Word): nat
    decreases |a| + |b|
  {
    if |a| == 0 then |b|
    else if |b| == 0 then |a|
    else
      Min(1 + Min(Distance(a[1..], b), Distance(a, b[1..])),
          (if a[0] == b[0] then 0 else 1) + Distance(a[1..], b[1..]))
  }

  /** b comes from a by deleting, inserting or substituting one character. */
  predicate OneEdit(a: Word, b: Word)
    decreases |a|
  {
    || (|a| > 0 && a[1..] == b)
    || (|b| > 0 && b[1..] == a)
    || (|a| > 0 && |b| > 0 && a[1..] == b[1..])
    || (|a| > 0 && |b| > 0 && a[0] == b[0] && OneEdit(a[1..], b[1..]))
  }

  /** Words of which each comes from the one before by one edit. */
  ghost predicate Path(ws: seq<Word>) {
    |ws| > 0 && forall i :: 0 < i < |ws| ==> OneEdit(ws[i - 1], ws[i])
  }

  function Last(ws: seq<Word>): Word
    requires |ws| > 0
  {
    ws[|ws| - 1]
  }

  // ---------------------------------------------------------------- no path is shorter

  lemma {:induction false} DistanceToSelf(a: Word)
    ensures Distance(a, a) == 0
  {
    if |a| > 0 {
      DistanceToSelf(a[1..]);
    }
  }

  lemma {:induction false} DropFirst(b: Word, c: Word)
    requires |b| > 0
    ensures Distance(b[1..], c) <= 1 + Distance(b, c)
    decreases |c|
  {
    if |c| > 0 {
      DropFirst(b, c[1..]);
    }
  }

  lemma {:induction false} ChangeFirst(a: Word, b: Word, c: Word)
    requires |a| > 0 && |b| > 0 && a[1..] == b[1..]
    ensures Distance(a, c) <= 1 + Distance(b, c)
    decreases |c|
  {
    if |c| > 0 {
      ChangeFirst(a, b, c[1..]);
    }
  }

  /** One edit changes the distance to any word by at most one. */
  lemma {:induction false} EditStep(a: Word, b: Word, c: Word)
    requires OneEdit(a, b)
    ensures Distance(a, c) <= 1 + Distance(b, c)
    decreases |a| + |b| + |c|
  {
    if |a| > 0 && a[1..] == b {
    } else if |b| > 0 && b[1..] == a {
      DropFirst(b, c);
    } else if |a| > 0 && |b| > 0 && a[1..] == b[1..] {
      ChangeFirst(a, b, c);
    } else {
      EditStep(a[1..], b[1..], c);
      if |c| > 0 {
        EditStep(a, b, c[1..]);
        EditStep(a[1..], b[1..], c[1..]);
      } else {
        EditLength(a, b);
      }
    }
  }

  lemma {:induction false} EditLength(a: Word, b: Word)
    requires OneEdit(a, b)
    ensures |a| <= 1 + |b|
    decreases |a|
  {
    if |a| > 0 && |b| > 0 && a[0] == b[0] && OneEdit(a[1..], b[1..]) {
      EditLength(a[1..], b[1..]);
    }
  }

  lemma {:induction false} NoShorterPath(ws: seq<Word>)
    requires Path(ws)
    ensures Distance(ws[0], Last(ws)) <= |ws| - 1
    decreases |ws|
  {
    if |ws| == 1 {
      DistanceToSelf(ws[0]);
    } else {
      var rest := ws[1..];
      assert forall i :: 0 < i < |rest| ==> rest[i] == ws[i + 1] && rest[i - 1] == ws[i];
      NoShorterPath(rest);
      assert OneEdit(ws[0], ws[1]);
      EditStep(ws[0], ws[1], Last(ws));
    }
  }

  // ---------------------------------------------------------------- some path is that short

  /** Every character of every word stems from a or b. */
  ghost predicate Spelled(ws: seq<Word>, a: Word, b: Word) {
    forall i, j :: 0 <= i < |ws| && 0 <= j < |ws[i]| ==> ws[i][j] in a || ws[i][j] in b
  }

  function Prepend(c: char, ws: seq<Word>): seq<Word> {
    seq(|ws|, i requires 0 <= i < |ws| => [c] + ws[i])
  }

  lemma PrependPath(c: char, ws: seq<Word>)
    requires Path(ws)
    ensures Path(Prepend(c, ws))
  {
    var r := Prepend(c, ws);
    forall i | 0 < i < |r| ensures OneEdit(r[i - 1], r[i]) {
      assert r[i - 1][1..] == ws[i - 1] && r[i][1..] == ws[i];
      assert OneEdit(ws[i - 1], ws[i]);
    }
  }

  lemma PrependSpelled(c: char, ws: seq<Word>, a': Word, b': Word, a: Word, b: Word)
    requires Spelled(ws, a', b')
    requires forall x :: x in a' ==> x in a
    requires forall x :: x in b' ==> x in b
    requires c in a || c in b
    ensures Spelled(Prepend(c, ws), a, b)
  {
    var r := Prepend(c, ws);
    forall i, j | 0 <= i < |r| && 0 <= j < |r[i]| ensures r[i][j] in a || r[i][j] in b {
      if j > 0 {
        assert r[i][j] == ws[i][j - 1];
      }
    }
  }

  lemma ConsPath(a: Word, ws: seq<Word>)
    requires Path(ws) && OneEdit(a, ws[0])
    ensures Path([a] + ws)
  {
    var r := [a] + ws;
    forall i | 0 < i < |r| ensures OneEdit(r[i - 1], r[i]) {
      if i > 1 {
        assert OneEdit(ws[i - 2], ws[i - 1]);
      }
    }
  }

  ghost predicate Leads(ws: seq<Word>, a: Word, b: Word) {
    Path(ws) && ws[0] == a && Last(ws) == b && Spelled(ws, a, b)
  }

  /** Deleting the first character first. */
  lemma DeleteFirst(a: Word, b: Word, rest: seq<Word>)
    requires |a| > 0 && Leads(rest, a[1..], b)
    ensures Leads([a] + rest, a, b)
  {
    ConsPath(a, rest);
  }

  /** Carrying the first character of the goal along. */
  lemma CarryFirst(a: Word, b: Word, rest: seq<Word>)
    requires |b| > 0 && Leads(rest, a, b[1..])
    ensures var ws := Prepend(b[0], rest);
      Path(ws) && ws[0] == [b[0]] + a && Last(ws) == b && Spelled(ws, a, b)
  {
    PrependPath(b[0], rest);
    PrependSpelled(b[0], rest, a, b[1..], a, b);
    assert b == [b[0]] + b[1..];
  }

  /** Putting a word in front of a path that starts one edit away. */
  lemma StartFrom(a: Word, b: Word, ws: seq<Word>)
    requires Path(ws) && Last(ws) == b && Spelled(ws, a, b) && OneEdit(a, ws[0])
    ensures Leads([a] + ws, a, b)
  {
    ConsPath(a, ws);
  }

  /** A path of as many edits as the distance, spelled with the letters of its ends. */
  lemma {:induction false} ShortestPath(a: Word, b: Word) returns (ws: seq<Word>)
    ensures Leads(ws, a, b)
    ensures |ws| == Distance(a, b) + 1
    decreases |a| + |b|
  {
    if |a| == 0 && |b| == 0 {
      ws := [a];
    } else if |b| == 0 || (|a| > 0 && Distance(a, b) == 1 + Distance(a[1..], b)) {
      var rest := ShortestPath(a[1..], b);
      DeleteFirst(a, b, rest);
      ws := [a] + rest;
    } else if |a| == 0 || Distance(a, b) == 1 + Distance(a, b[1..]) {
      var rest := ShortestPath(a, b[1..]);
      CarryFirst(a, b, rest);
      assert ([b[0]] + a)[1..] == a;
      StartFrom(a, b, Prepend(b[0], rest));
      ws := [a] + Prepend(b[0], rest);
    } else {
      var rest := ShortestPath(a[1..], b[1..]);
      CarryFirst(a[1..], b, rest);
      ws := Prepend(b[0], rest);
      assert ([b[0]] + a[1..])[1..] == a[1..];
      if a[0] == b[0] {
        assert a == [b[0]] + a[1..];
      } else {
        StartFrom(a, b, ws);
        ws := [a] + ws;
      }
    }
  }

  // ---------------------------------------------------------------- the distance is a metric

  lemma {:induction false} Symmetric(a: Word, b: Word)
    ensures Distance(a, b) == Distance(b, a)
    decreases |a| + |b|
  {
    if |a| > 0 && |b| > 0 {
      Symmetric(a[1..], b);
      Symmetric(a, b[1..]);
      Symmetric(a[1..], b[1..]);
    }
  }

  lemma JoinPaths(ws: seq<Word>, vs: seq<Word>)
    requires Path(ws) && Path(vs) && Last(ws) == vs[0]
    ensures Path(ws + vs[1..]) && Last(ws + vs[1..]) == Last(vs)
  {
    var r := ws + vs[1..];
    forall i | 0 < i < |r| ensures OneEdit(r[i - 1], r[i]) {
      if i < |ws| {
        assert OneEdit(ws[i - 1], ws[i]);
      } else {
        var j := i - |ws| + 1;
        assert OneEdit(vs[j - 1], vs[j]);
        assert r[i - 1] == vs[j - 1] && r[i] == vs[j];
      }
    }
  }

  lemma Triangle(a: Word, b: Word, c: Word)
    ensures Distance(a, c) <= Distance(a, b) + Distance(b, c)
  {
    var ws := ShortestPath(a, b);
    var vs := ShortestPath(b, c);
    JoinPaths(ws, vs);
    NoShorterPath(ws + vs[1..]);
  }

  /** Between two words there are words at every pair of distances that add up to theirs. */
  lemma Between(a: Word, b: Word, k: nat) returns (m: Word)
    requires k <= Distance(a, b)
    ensures Distance(a, m) == k && Distance(m, b) == Distance(a, b) - k
    ensures forall c :: c in m ==> c in a || c in b
  {
    var ws := ShortestPath(a, b);
    m := ws[k];
    var (front, back) := (ws[..k + 1], ws[k..]);
    assert forall i :: 0 < i < |front| ==> OneEdit(ws[i - 1], ws[i]);
    forall i | 0 < i < |back| ensures OneEdit(back[i - 1], back[i]) {
      assert OneEdit(ws[k + i - 1], ws[k + i]);
    }
    NoShorterPath(front);
    NoShorterPath(back);
    Triangle(a, m, b);
  }

  lemma {:induction false} LengthBound(a: Word, b: Word)
    ensures Distance(a, b) >= |a| - |b| && Distance(a, b) >= |b| - |a|
    decreases |a| + |b|
  {
    if |a| > 0 && |b| > 0 {
      LengthBound(a[1..], b);
      LengthBound(a, b[1..]);
      LengthBound(a[1..], b[1..]);
    }
  }
}

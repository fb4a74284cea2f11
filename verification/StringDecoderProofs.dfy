/** Feeding a byte stream in chunks decodes it as feeding it whole does. */
module StringDecoderProofs {
  import opened Wrappers
  import opened Utf8
  import opened Utf8Proofs
  import opened StringDecoder

  /** Can start a character: ASCII or a byte that announces two to four. */
  predicate IsStart(b: Byte) {
    b < 0x80 || 0xC0 <= b <= 0xF7
  }

  /** A start byte and continuation bytes, at most as many bytes as announced. */
  predicate CharPrefix(c: seq<Byte>) {
    && 1 <= |c| <= Announced(c[0])
    && IsStart(c[0])
    && forall i :: 1 <= i < |c| ==> IsContinuation(c[i])
  }

  /** Characters one after the other, of which the last may be unfinished. */
  predicate Stream(b: seq<Byte>)
    decreases |b|
  {
    |b| == 0 ||
    var l := Announced(b[0]);
    if |b| <= l then CharPrefix(b) else CharPrefix(b[..l]) && Stream(b[l..])
  }

  /** The number of bytes of the finished characters. */
  function Whole(b: seq<Byte>): (n: nat)
    requires Stream(b)
    ensures n <= |b|
    decreases |b|
  {
    if |b| == 0 then 0
    else
      var l := Announced(b[0]);
      if |b| < l then 0 else if |b| == l then l else l + Whole(b[l..])
  }

  /** The unfinished character at the end. */
  function Tail(b: seq<Byte>): seq<Byte>
    requires Stream(b)
  {
    b[Whole(b)..]
  }

  // ---------------------------------------------------------------- streams

  /** A cut inside the first character. */
  lemma CutChar(a: seq<Byte>, b: seq<Byte>)
    requires Stream(a + b) && 0 < |a| < Announced(a[0])
    ensures CharPrefix(a) && Stream(a) && Whole(a) == 0 && Tail(a) == a
  {
    var l := Announced(a[0]);
    var c := if |a + b| <= l then a + b else (a + b)[..l];
    assert forall i :: 0 <= i < |a| ==> a[i] == c[i];
  }

  /** A cut after the first character. */
  lemma CutAfterChar(a: seq<Byte>, b: seq<Byte>)
    requires Stream(a + b) && |a| > 0 && |a| == Announced(a[0])
    ensures CharPrefix(a) && Stream(a) && Whole(a) == |a| && Tail(a) == []
    ensures Stream(b) && Whole(a + b) == |a| + Whole(b)
  {
    assert (a + b)[..|a|] == a && (a + b)[|a|..] == b;
    assert |b| == 0 ==> a + b == a;
  }

  /** Cutting a stream anywhere: what is left of the front continues with the back. */
  lemma {:induction false} CutStream(a: seq<Byte>, b: seq<Byte>)
    requires Stream(a + b)
    ensures Stream(a) && Stream(Tail(a) + b)
    ensures Whole(a + b) == Whole(a) + Whole(Tail(a) + b)
    decreases |a|
  {
    if |a| == 0 {
      assert a + b == b;
    } else {
      var l := Announced(a[0]);
      if |a| < l {
        CutChar(a, b);
      } else if |a| == l {
        CutAfterChar(a, b);
        assert [] + b == b;
      } else {
        assert (a + b)[..l] == a[..l] && (a + b)[l..] == a[l..] + b;
        CutStream(a[l..], b);
        assert Tail(a) == Tail(a[l..]);
      }
    }
  }

  lemma DecodeNothing()
    ensures DecodeAll([]) == [] && DecodeScalars([]) == []
  {
  }

  lemma {:induction false} DecodeContinuations(k: seq<Byte>, rest: seq<Byte>)
    requires forall i :: 0 <= i < |k| ==> IsContinuation(k[i])
    ensures DecodeScalars(k + rest) == DecodeScalars(k) + DecodeScalars(rest)
  {
    if |k| == 0 {
      assert k + rest == rest;
    } else {
      assert (k + rest)[1..] == k[1..] + rest;
      DecodeContinuations(k[1..], rest);
    }
  }

  lemma DecodeChar(c: seq<Byte>, rest: seq<Byte>)
    requires CharPrefix(c) && |c| == Announced(c[0])
    ensures DecodeScalars(c + rest) == DecodeScalars(c) + DecodeScalars(rest)
  {
    var (x, l) := DecodeOne(c);
    assert DecodeOne(c + rest) == (x, l);
    assert (c + rest)[l..] == c[l..] + rest;
    DecodeContinuations(c[l..], rest);
  }

  /** Finished characters decode independently of what follows. */
  lemma {:induction false} DecodeWhole(a: seq<Byte>, rest: seq<Byte>)
    requires Stream(a) && Whole(a) == |a|
    ensures DecodeAll(a + rest) == DecodeAll(a) + DecodeAll(rest)
    decreases |a|
  {
    DecodeWholeScalars(a, rest);
    UnitsConcat(DecodeScalars(a), DecodeScalars(rest));
  }

  lemma {:induction false} DecodeWholeScalars(a: seq<Byte>, rest: seq<Byte>)
    requires Stream(a) && Whole(a) == |a|
    ensures DecodeScalars(a + rest) == DecodeScalars(a) + DecodeScalars(rest)
    decreases |a|
  {
    hide DecodeScalars;
    DecodeNothing();
    if |a| == 0 {
      assert a + rest == rest;
    } else {
      var l := Announced(a[0]);
      if |a| == l {
        DecodeChar(a, rest);
      } else {
        DecodeWholeScalars(a[l..], rest);
        CutAt(a, l);
        PrependChar(a[..l], a[l..], rest);
      }
    }
  }

  lemma PrependChar(c: seq<Byte>, d: seq<Byte>, rest: seq<Byte>)
    requires CharPrefix(c) && |c| == Announced(c[0])
    requires DecodeScalars(d + rest) == DecodeScalars(d) + DecodeScalars(rest)
    ensures DecodeScalars(c + d + rest) == DecodeScalars(c + d) + DecodeScalars(rest)
  {
    Assoc(c, d, rest);
    DecodeChar(c, d + rest);
    DecodeChar(c, d);
    Regroup(DecodeScalars(c + d + rest), DecodeScalars(c + d), DecodeScalars(c), DecodeScalars(d),
            DecodeScalars(d + rest), DecodeScalars(rest));
  }

  lemma CutAt<T>(a: seq<T>, n: nat)
    requires n <= |a|
    ensures a == a[..n] + a[n..]
  {
  }

  /** Taking and dropping past the front of a concatenation. */
  lemma PastFront<T>(a: seq<T>, b: seq<T>, n: nat)
    requires n <= |b|
    ensures (a + b)[..|a| + n] == a + b[..n] && (a + b)[|a| + n..] == b[n..]
  {
  }

  lemma Regroup<T>(all: seq<T>, a: seq<T>, c: seq<T>, d: seq<T>, dr: seq<T>, r: seq<T>)
    requires all == c + dr && dr == d + r && a == c + d
    ensures all == a + r
  {
  }

  // ---------------------------------------------------------------- the scan from the back

  /** What the scan from the back must find: the length and the missing bytes of the unfinished character. */
  ghost predicate FindsTail(s: seq<Byte>, need: int, total: int)
    requires Stream(s)
  {
    var p := Tail(s);
    if |p| == 0 then need == 0 else total == Announced(p[0]) && need == total - |p|
  }

  lemma ScanOneChar(s: seq<Byte>)
    requires CharPrefix(s) && Stream(s)
    ensures FindsTail(s, Incomplete(s, 0, 0).0, Incomplete(s, 0, 0).1)
  {
    var j := |s| - 1;
    assert |s| == 1 || IsContinuation(s[j]);
  }

  lemma {:induction false} ScanStream(s: seq<Byte>)
    requires Stream(s) && |s| > 0
    ensures FindsTail(s, Incomplete(s, 0, 0).0, Incomplete(s, 0, 0).1)
    decreases |s|
  {
    var l := Announced(s[0]);
    if |s| <= l {
      ScanOneChar(s);
    } else {
      var rest := s[l..];
      ScanStream(rest);
      assert IsStart(rest[0]);
      assert Incomplete(s, 0, 0).0 == Incomplete(rest, 0, 0).0;
      assert Tail(s) == Tail(rest);
    }
  }

  lemma ScanFrom(t: seq<Byte>, i: nat)
    requires i < |t|
    ensures Incomplete(t, i, 0) == Incomplete(t[i..], 0, 0)
  {
  }

  // ---------------------------------------------------------------- chunks

  /** The decoder waits with exactly the bytes p of an unfinished character. */
  ghost predicate Waits(d: State, p: seq<Byte>) {
    && Valid(d)
    && if |p| == 0 then d.lastNeed == 0
       else
         && CharPrefix(p) && |p| < Announced(p[0])
         && d.lastTotal == Announced(p[0])
         && d.lastNeed == d.lastTotal - |p|
         && d.lastChar[..|p|] == p
  }

  /** After the stream b its finished characters have come out and the unfinished one waits. */
  ghost predicate Emitted(r: (State, seq<CodeUnit>), b: seq<Byte>)
    requires Stream(b)
  {
    Waits(r.0, Tail(b)) && r.1 == DecodeAll(b[..Whole(b)])
  }

  lemma TextOfStream(d: State, t: seq<Byte>, i: nat)
    requires Valid(d) && d.lastNeed == 0 && i < |t| && Stream(t[i..])
    ensures Emitted(AfterText(d, t, i), t[i..])
  {
    hide DecodeAll;
    var (need, total) := Incomplete(t, i, 0);
    ScanFrom(t, i);
    ScanStream(t[i..]);
    ScannedStream(d, t, i, need, total);
  }

  /** What the scan finds is what must be kept. */
  lemma ScannedStream(d: State, t: seq<Byte>, i: nat, need: int, total: int)
    requires Valid(d) && d.lastNeed == 0 && i < |t| && Stream(t[i..]) && FindsTail(t[i..], need, total)
    requires need != 0 ==> i <= |t| - (total - need) && 0 < total - need <= 4
    ensures Emitted(AfterScan(d, t, i, need, total), t[i..])
  {
    hide DecodeAll;
    var s := t[i..];
    if |Tail(s)| == 0 {
      assert s[..Whole(s)] == s;
    } else {
      TailIsChar(s);
      CutAt(s, Whole(s));
      KeepTail(d, t, i, s[..Whole(s)], Tail(s));
    }
  }

  /** The bytes p of an unfinished character are kept. */
  lemma KeepTail(d: State, t: seq<Byte>, i: nat, whole: seq<Byte>, p: seq<Byte>)
    requires Valid(d) && d.lastNeed == 0 && i < |t| && t[i..] == whole + p
    requires CharPrefix(p) && |p| < Announced(p[0])
    ensures var r := AfterScan(d, t, i, Announced(p[0]) - |p|, Announced(p[0]));
      Waits(r.0, p) && r.1 == DecodeAll(whole)
  {
    hide DecodeAll;
    TailAt(t, i, whole, p);
    CopiedFront(d.lastChar, p);
  }

  lemma TailAt<T>(t: seq<T>, i: nat, whole: seq<T>, p: seq<T>)
    requires i <= |t| && t[i..] == whole + p
    ensures var end := |t| - |p|; i <= end && t[end..] == p && t[i..end] == whole
  {
    var end := |t| - |p|;
    assert t[end..] == t[i..][|whole|..] && t[i..end] == t[i..][..|whole|];
  }

  lemma CopiedFront(buffer: seq<Byte>, p: seq<Byte>)
    requires |p| <= |buffer|
    ensures Copy(buffer, 0, p)[..|p|] == p
  {
  }

  lemma {:induction false} TailIsChar(s: seq<Byte>)
    requires Stream(s) && |Tail(s)| > 0
    ensures CharPrefix(Tail(s)) && |Tail(s)| < Announced(Tail(s)[0])
    decreases |s|
  {
    var l := Announced(s[0]);
    if |s| > l {
      assert Tail(s) == Tail(s[l..]);
      TailIsChar(s[l..]);
    } else {
      assert Tail(s) == s;
    }
  }

  /** One chunk of a stream: its finished characters come out, the unfinished one waits. */
  lemma WriteOfStream(d: State, p: seq<Byte>, t: seq<Byte>)
    requires Waits(d, p) && Stream(p + t)
    ensures Emitted(AfterWrite(d, t), p + t)
  {
    hide DecodeAll;
    DecodeNothing();
    if |t| == 0 {
      assert p + t == p;
      assert Whole(p) == 0;
    } else if |p| == 0 {
      assert p + t == t && t[0..] == t;
      TextOfStream(d, t, 0);
    } else {
      var need := d.lastNeed;
      if need > |t| {
        FillPart(d, p, t);
      } else {
        FillWhole(d, p, t);
        var c, rest := p + t[..need], t[need..];
        CutAt(t, need);
        Assoc(p, t[..need], rest);
        WholeChar(c);
        if need < |t| {
          TextOfStream(AfterFillLast(d, t).0.(lastNeed := 0), t, need);
          AfterChar(c, rest);
        } else {
          assert p + t == c;
        }
      }
    }
  }

  /** A finished character in front of a stream. */
  lemma AfterChar(c: seq<Byte>, rest: seq<Byte>)
    requires CharPrefix(c) && |c| == Announced(c[0]) && Stream(rest) && |rest| > 0
    ensures var b := c + rest;
      && Stream(b)
      && Tail(b) == Tail(rest)
      && DecodeAll(b[..Whole(b)]) == DecodeAll(c) + DecodeAll(rest[..Whole(rest)])
  {
    hide DecodeAll;
    PastFront(c, rest, 0);
    assert rest[..0] == [] && c + [] == c;
    WholeChar(c);
    AfterWhole(c, rest);
  }

  /** Finished characters in front of a stream come out in front of what it decodes to. */
  lemma AfterWhole(w: seq<Byte>, s: seq<Byte>)
    requires Stream(w) && Whole(w) == |w| && Stream(s)
    requires Stream(w + s) && Whole(w + s) == |w| + Whole(s)
    ensures Tail(w + s) == Tail(s)
    ensures DecodeAll((w + s)[..Whole(w + s)]) == DecodeAll(w) + DecodeAll(s[..Whole(s)])
  {
    hide DecodeAll;
    PastFront(w, s, Whole(s));
    DecodeWhole(w, s[..Whole(s)]);
  }

  lemma WholeChar(c: seq<Byte>)
    requires CharPrefix(c) && |c| == Announced(c[0])
    ensures Stream(c) && Whole(c) == |c|
  {
  }

  lemma FillPart(d: State, p: seq<Byte>, t: seq<Byte>)
    requires Waits(d, p) && |p| > 0 && Stream(p + t) && 0 < |t| < d.lastNeed
    ensures Waits(AfterFillLast(d, t).0, p + t) && AfterFillLast(d, t).1 == None
    ensures Whole(p + t) == 0
  {
    var b := p + t;
    assert forall i :: 0 <= i < |t| ==> t[i] == b[|p| + i];
    assert Copy(d.lastChar, |p|, t)[..|b|] == b;
  }

  lemma FillWhole(d: State, p: seq<Byte>, t: seq<Byte>)
    requires Waits(d, p) && |p| > 0 && Stream(p + t) && d.lastNeed <= |t|
    ensures var c := p + t[..d.lastNeed]; var (d', out) := AfterFillLast(d, t);
      && CharPrefix(c) && |c| == Announced(c[0])
      && out == Some(DecodeAll(c)) && d'.lastNeed == d.lastNeed
      && Stream(t[d.lastNeed..])
  {
    hide DecodeAll;
    var b, l := p + t, Announced(p[0]);
    var c := p + t[..d.lastNeed];
    assert b[..l] == c && b[l..] == t[d.lastNeed..];
    assert |b| == l ==> b == c;
    assert forall i :: 0 <= i < d.lastNeed ==> t[i] == c[|p| + i];
    assert Copy(d.lastChar, |p|, t[..d.lastNeed])[..l] == c;
  }

  // ---------------------------------------------------------------- whole runs

  function Concat(chunks: seq<seq<Byte>>): seq<Byte> {
    if |chunks| == 0 then [] else chunks[0] + Concat(chunks[1..])
  }

  /** Feeds chunk after chunk and joins what comes out. */
  function Feed(d: State, chunks: seq<seq<Byte>>): (r: (State, seq<CodeUnit>))
    requires Valid(d)
    ensures Valid(r.0)
    decreases |chunks|
  {
    if |chunks| == 0 then (d, [])
    else
      var (d1, out) := AfterWrite(d, chunks[0]);
      var (d2, rest) := Feed(d1, chunks[1..]);
      (d2, out + rest)
  }

  lemma {:induction false} FeedStream(d: State, p: seq<Byte>, chunks: seq<seq<Byte>>)
    requires Waits(d, p) && Stream(p + Concat(chunks))
    ensures Emitted(Feed(d, chunks), p + Concat(chunks))
    decreases |chunks|
  {
    hide DecodeAll;
    DecodeNothing();
    if |chunks| == 0 {
      assert p + Concat(chunks) == p && p[..0] == [];
    } else {
      var t, rest := chunks[0], Concat(chunks[1..]);
      Assoc(p, t, rest);
      CutStream(p + t, rest);
      WriteOfStream(d, p, t);
      FeedStream(AfterWrite(d, t).0, Tail(p + t), chunks[1..]);
      Join(AfterWrite(d, t), Feed(AfterWrite(d, t).0, chunks[1..]), p + t, rest);
    }
  }

  /** What comes out of two parts of a stream, joined. */
  lemma Join(r1: (State, seq<CodeUnit>), r2: (State, seq<CodeUnit>), a: seq<Byte>, rest: seq<Byte>)
    requires Stream(a + rest) && Stream(a) && Emitted(r1, a)
    requires Stream(Tail(a) + rest) && Emitted(r2, Tail(a) + rest)
    ensures Emitted((r2.0, r1.1 + r2.1), a + rest)
  {
    hide DecodeAll;
    CutDecode(a, rest);
  }

  /** Cutting a stream cuts what it decodes to. */
  lemma CutDecode(a: seq<Byte>, rest: seq<Byte>)
    requires Stream(a + rest)
    ensures Stream(a) && Stream(Tail(a) + rest)
    ensures var b := a + rest; var c := Tail(a) + rest;
      && Tail(b) == Tail(c)
      && DecodeAll(b[..Whole(b)]) == DecodeAll(a[..Whole(a)]) + DecodeAll(c[..Whole(c)])
  {
    hide DecodeAll;
    CutStream(a, rest);
    WholeOfPrefix(a);
    CutAt(a, Whole(a));
    Assoc(a[..Whole(a)], Tail(a), rest);
    AfterWhole(a[..Whole(a)], Tail(a) + rest);
  }

  lemma {:induction false} WholeOfPrefix(b: seq<Byte>)
    requires Stream(b)
    ensures Stream(b[..Whole(b)]) && Whole(b[..Whole(b)]) == Whole(b)
    decreases |b|
  {
    if |b| > 0 {
      var l := Announced(b[0]);
      if |b| > l {
        WholeOfPrefix(b[l..]);
        var a := b[..Whole(b)];
        assert a[..l] == b[..l] && a[l..] == b[l..][..Whole(b[l..])];
      } else if |b| == l {
        assert b[..l] == b;
      }
    }
  }

  /**
   * A stream fed to a fresh decoder in any chunks comes out as if decoded whole; a last character that never finishes
   * becomes a single U+FFFD.
   */
  lemma ChunksDecodeAsWhole(start: State, chunks: seq<seq<Byte>>)
    requires Valid(start) && start.lastNeed == 0 && Stream(Concat(chunks))
    ensures var b := Concat(chunks); var (d, out) := Feed(start, chunks);
      out + AfterEnd(d, []).1
      == DecodeAll(b[..Whole(b)]) + if Whole(b) == |b| then [] else [REPLACEMENT]
  {
    hide DecodeAll;
    assert [] + Concat(chunks) == Concat(chunks);
    FeedStream(start, [], chunks);
  }

  /** Well-formed bytes are a stream of finished characters. */
  lemma {:induction false} WellFormedIsStream(b: seq<Byte>)
    requires WellFormed(b)
    ensures Stream(b) && Whole(b) == |b|
    decreases |b|
  {
    if |b| > 0 {
      var l := CharAt(b);
      assert l == Announced(b[0]);
      WellFormedIsStream(b[l..]);
      assert b[..l] == if |b| == l then b else b[..l];
    }
  }

  /** Well-formed bytes in any chunks: the decoder agrees with decoding all at once. */
  lemma WellFormedChunks(start: State, chunks: seq<seq<Byte>>)
    requires Valid(start) && start.lastNeed == 0 && WellFormed(Concat(chunks))
    ensures var (d, out) := Feed(start, chunks); out + AfterEnd(d, []).1 == DecodeAll(Concat(chunks))
  {
    var b := Concat(chunks);
    WellFormedIsStream(b);
    ChunksDecodeAsWhole(start, chunks);
    assert b[..|b|] == b;
  }

  /** From a string to bytes, through any chunks, and back: the scalar values that the encoder read. */
  lemma EncodedChunks(start: State, s: seq<CodeUnit>, chunks: seq<seq<Byte>>)
    requires Valid(start) && start.lastNeed == 0 && Concat(chunks) == Encoded(s)
    ensures var (d, out) := Feed(start, chunks); out + AfterEnd(d, []).1 == Units(Scalars(Read(s)))
  {
    FittingAll(Scalars(Read(s)));
    DecodeAllEncoded(Scalars(Read(s)));
    BytesRoundTripIffWellFormed(Encoded(s));
    WellFormedChunks(start, chunks);
  }
}

/** What the streaming decoder makes of arbitrary bytes, chunk by chunk, well formed or not. */
module StringDecoderAnyBytes {
  import opened Wrappers
  import opened Utf8
  import opened Utf8Proofs
  import opened StringDecoder
  import opened StringDecoderProofs

  /** The beginning of a character, and not all of it. */
  predicate Unfinished(p: seq<Byte>) {
    CharPrefix(p) && |p| < Announced(p[0])
  }

  /** How many bytes the unfinished character at the end of any bytes has. */
  function KeptLength(s: seq<Byte>): (k: nat)
    ensures k <= |s|
    ensures k > 0 ==> Unfinished(s[|s| - k..])
  {
    var n := |s|;
    if n >= 1 && Unfinished(s[n - 1..]) then 1
    else if n >= 2 && Unfinished(s[n - 2..]) then 2
    else if n >= 3 && Unfinished(s[n - 3..]) then 3
    else 0
  }

  /** The unfinished character at the end of any bytes, or nothing. */
  function Kept(s: seq<Byte>): (p: seq<Byte>)
    ensures |p| <= |s| && s[|s| - |p|..] == p
    ensures |p| > 0 ==> Unfinished(p)
  {
    s[|s| - KeptLength(s)..]
  }

  /** There is at most one. */
  lemma KeptIsUnique(s: seq<Byte>, i: nat)
    requires i < |s| && Unfinished(s[i..])
    ensures Kept(s) == s[i..]
  {
    hide Announced, IsContinuation, IsStart;
    var p := s[i..];
    forall j: nat | i < j < |s| ensures !Unfinished(s[j..]) {
      assert s[j..][0] == p[j - i] == s[j];
      KindOf(s[j]);
      assert IsContinuation(p[j - i]);
    }
    KindOf(s[i]);
    assert p[0] == s[i] && |p| <= 3;
  }

  /** What comes out of a chunk that starts afresh. */
  function Decoded(s: seq<Byte>): seq<CodeUnit> {
    DecodeAll(s[..|s| - |Kept(s)|])
  }

  /** The beginnings of one, two and three bytes, by the kinds of these. */
  lemma UnfinishedKinds(a: Byte, b: Byte, c: Byte)
    ensures Unfinished([a]) <==> ByteType(a) >= 2
    ensures Unfinished([a, b]) <==> ByteType(a) >= 3 && ByteType(b) == -1
    ensures Unfinished([a, b, c]) <==> ByteType(a) == 4 && ByteType(b) == -1 && ByteType(c) == -1
    ensures ByteType(a) >= 2 ==> Announced(a) == ByteType(a)
    ensures ByteType(a) in {-2, -1, 0, 2, 3, 4}
  {
    KindOf(a);
    KindOf(b);
    KindOf(c);
    hide ByteType, IsContinuation, Announced, IsStart;
    var x, y, z := [a], [a, b], [a, b, c];
    assert x[0] == a && y[0] == a && y[1] == b && z[0] == a && z[1] == b && z[2] == c;
  }

  lemma KindOf(a: Byte)
    ensures ByteType(a) == -1 <==> IsContinuation(a)
    ensures ByteType(a) in {-2, -1, 0, 2, 3, 4}
    ensures IsStart(a) <==> ByteType(a) >= 0
    ensures ByteType(a) >= 2 ==> Announced(a) == ByteType(a)
    ensures ByteType(a) == 0 ==> Announced(a) == 1
  {
  }

  /** How many bytes are kept, by the kinds of the last three. */
  function LengthByKinds(s: seq<Byte>): nat {
    var n := |s|;
    if n >= 1 && ByteType(s[n - 1]) >= 2 then 1
    else if n >= 2 && ByteType(s[n - 1]) == -1 && ByteType(s[n - 2]) >= 3 then 2
    else if n >= 3 && ByteType(s[n - 1]) == -1 && ByteType(s[n - 2]) == -1 && ByteType(s[n - 3]) == 4 then 3
    else 0
  }

  lemma LastOne(s: seq<Byte>)
    requires |s| >= 1
    ensures Unfinished(s[|s| - 1..]) <==> ByteType(s[|s| - 1]) >= 2
  {
    hide ByteType, Unfinished;
    var z := s[|s| - 1];
    assert s[|s| - 1..] == [z];
    UnfinishedKinds(z, z, z);
  }

  lemma LastTwo(s: seq<Byte>)
    requires |s| >= 2
    ensures Unfinished(s[|s| - 2..]) <==> ByteType(s[|s| - 2]) >= 3 && ByteType(s[|s| - 1]) == -1
  {
    hide ByteType, Unfinished;
    var y, z := s[|s| - 2], s[|s| - 1];
    assert s[|s| - 2..] == [y, z];
    UnfinishedKinds(y, z, z);
  }

  lemma LastThree(s: seq<Byte>)
    requires |s| >= 3
    ensures Unfinished(s[|s| - 3..])
      <==> ByteType(s[|s| - 3]) == 4 && ByteType(s[|s| - 2]) == -1 && ByteType(s[|s| - 1]) == -1
  {
    hide ByteType, Unfinished;
    var x, y, z := s[|s| - 3], s[|s| - 2], s[|s| - 1];
    assert s[|s| - 3..] == [x, y, z];
    UnfinishedKinds(x, y, z);
  }

  lemma KeptByKinds(s: seq<Byte>)
    ensures KeptLength(s) == LengthByKinds(s)
  {
    hide ByteType, Unfinished, CharPrefix, Announced, IsContinuation, IsStart, Kept, Decoded;
    if |s| == 0 {
    } else if |s| == 1 {
      LastOne(s);
    } else if |s| == 2 {
      LastOne(s);
      LastTwo(s);
    } else {
      LastOne(s);
      LastTwo(s);
      LastThree(s);
    }
  }

  lemma KeptBegins(s: seq<Byte>)
    requires |Kept(s)| > 0
    ensures Kept(s)[0] == s[|s| - |Kept(s)|]
  {
    hide KeptLength;
  }

  lemma ScanAny(s: seq<Byte>)
    requires |s| > 0
    ensures var (need, total) := Incomplete(s, 0, 0); var p := Kept(s);
      if |p| == 0 then need == 0 else total == Announced(p[0]) && need == total - |p|
  {
    hide ByteType, KeptLength, Announced;
    KeptByKinds(s);
    if |Kept(s)| > 0 {
      KeptBegins(s);
    }
    KindOf(s[|s| - 1]);
    if |s| >= 2 {
      KindOf(s[|s| - 2]);
    }
    if |s| >= 3 {
      KindOf(s[|s| - 3]);
    }
  }

  lemma TextOfAny(d: State, t: seq<Byte>, i: nat)
    requires Valid(d) && d.lastNeed == 0 && i < |t|
    ensures var r := AfterText(d, t, i); Waits(r.0, Kept(t[i..])) && r.1 == Decoded(t[i..])
  {
    hide DecodeAll, Incomplete, Kept, CharPrefix, Announced;
    var s := t[i..];
    var p := Kept(s);
    ScanFrom(t, i);
    ScanAny(s);
    if |p| == 0 {
      assert s[..|s|] == s;
    } else {
      assert s == s[..|s| - |p|] + p;
      KeepTail(d, t, i, s[..|s| - |p|], p);
    }
  }

  /** How many continuation bytes a chunk begins with, up to a number. */
  function Continuations(t: seq<Byte>, max: nat): (k: nat)
    ensures k <= max && k <= |t|
    ensures forall i :: 0 <= i < k ==> IsContinuation(t[i])
    ensures k < max && k < |t| ==> !IsContinuation(t[k])
  {
    if max == 0 || |t| == 0 || !IsContinuation(t[0]) then 0 else 1 + Continuations(t[1..], max - 1)
  }

  /** The continuation bytes do not complete the waiting character yet. */
  lemma FillsPart(d: State, p: seq<Byte>, t: seq<Byte>)
    requires Waits(d, p) && |p| > 0 && 0 < |t| < d.lastNeed && Continuations(t, d.lastNeed) == |t|
    ensures var (d', out) := AfterFillLast(d, t); out == None && Waits(d', p + t)
  {
    var b := p + t;
    assert forall i :: |p| <= i < |b| ==> b[i] == t[i - |p|];
    assert Copy(d.lastChar, |p|, t)[..|b|] == b;
  }

  /** They complete it. */
  lemma FillsWhole(d: State, p: seq<Byte>, t: seq<Byte>)
    requires Waits(d, p) && |p| > 0 && d.lastNeed <= |t| && Continuations(t, d.lastNeed) == d.lastNeed
    ensures var (d', out) := AfterFillLast(d, t);
      d'.lastNeed == d.lastNeed && out == Some(DecodeAll(p + t[..d.lastNeed]))
  {
    hide DecodeAll;
    assert Copy(d.lastChar, |p|, t[..d.lastNeed])[..d.lastTotal] == p + t[..d.lastNeed];
  }

  /** A byte that cannot continue it ends it. */
  lemma FillsBad(d: State, p: seq<Byte>, t: seq<Byte>, k: nat)
    requires Waits(d, p) && |p| > 0 && k == Continuations(t, d.lastNeed) && k < |t| && k < d.lastNeed
    ensures var (d', out) := AfterFillLast(d, t); d'.lastNeed == k && out == Some([REPLACEMENT])
  {
    hide DecodeAll;
  }

  lemma WaitsFor(d: State, p: seq<Byte>)
    requires Waits(d, p)
    ensures Valid(d)
    ensures |p| == 0 ==> d.lastNeed == 0
    ensures |p| > 0 ==> Unfinished(p) && 0 < d.lastNeed == Announced(p[0]) - |p|
  {
  }

  lemma EmptyWrite(d: State)
    requires Valid(d)
    ensures AfterWrite(d, []) == (d, [])
  {
  }

  lemma FreshWrite(d: State, t: seq<Byte>)
    requires Valid(d) && d.lastNeed == 0 && |t| > 0
    ensures Waits(AfterWrite(d, t).0, Kept(t)) && AfterWrite(d, t).1 == Decoded(t)
  {
    hide DecodeAll, Decoded, Kept, AfterText, Waits;
    assert t[0..] == t;
    TextOfAny(d, t, 0);
  }

  lemma PartWrite(d: State, t: seq<Byte>)
    requires Valid(d) && d.lastNeed > 0 && |t| > 0 && AfterFillLast(d, t).1 == None
    ensures AfterWrite(d, t) == (AfterFillLast(d, t).0, [])
  {
  }

  /** After the waiting character the chunk goes on afresh. */
  lemma FilledWrite(d: State, t: seq<Byte>, filled: seq<CodeUnit>)
    requires Valid(d) && d.lastNeed > 0 && |t| > 0 && AfterFillLast(d, t).1 == Some(filled)
    ensures var k := AfterFillLast(d, t).0.lastNeed;
      && 0 <= k <= |t|
      && Waits(AfterWrite(d, t).0, Kept(t[k..]))
      && AfterWrite(d, t).1 == filled + Decoded(t[k..])
  {
    hide DecodeAll, Kept, CharPrefix, AfterText, AfterFillLast;
    var d1 := AfterFillLast(d, t).0;
    var k := d1.lastNeed;
    if k < |t| {
      TextOfAny(d1.(lastNeed := 0), t, k);
    } else {
      DecodeNothing();
      assert t[k..] == [] && t[k..][..0] == [] && filled + [] == filled;
    }
  }

  /**
   * What one chunk of any bytes comes to. While a character waits, continuation bytes go to it until it is complete;
   * a byte that cannot continue it turns it, with the bytes it got from this chunk, into a single U+FFFD, and
   * decoding starts afresh at that byte. From there on all but the unfinished character at the end comes out.
   */
  ghost predicate Wrote(p: seq<Byte>, t: seq<Byte>, d: State, out: seq<CodeUnit>)
    requires |p| > 0 ==> Unfinished(p)
  {
    if |p| == 0 then Waits(d, Kept(t)) && out == Decoded(t)
    else
      var need := Announced(p[0]) - |p|;
      var k := Continuations(t, need);
      if k < need && k == |t| then Waits(d, p + t) && out == []
      else
        && Waits(d, Kept(t[k..]))
        && out == (if k == need then DecodeAll(p + t[..k]) else [REPLACEMENT]) + Decoded(t[k..])
  }

  lemma WriteStillWaits(d: State, p: seq<Byte>, t: seq<Byte>)
    requires Waits(d, p) && |p| > 0 && 0 < |t| < d.lastNeed && Continuations(t, d.lastNeed) == |t|
    ensures Wrote(p, t, AfterWrite(d, t).0, AfterWrite(d, t).1)
  {
    hide DecodeAll, DecodeScalars, Decoded, Kept, KeptLength, Unfinished, CharPrefix, Announced;
    hide IsContinuation, IsStart;
    hide AfterFillLast, AfterWrite, Waits, Continuations, Valid;
    WaitsFor(d, p);
    FillsPart(d, p, t);
    PartWrite(d, t);
  }

  lemma WriteGoesOn(d: State, p: seq<Byte>, t: seq<Byte>, k: nat)
    requires Waits(d, p) && |p| > 0 && |t| > 0 && d.lastNeed > 0 && k == Continuations(t, d.lastNeed)
    requires k < |t| || k == d.lastNeed
    ensures Wrote(p, t, AfterWrite(d, t).0, AfterWrite(d, t).1)
  {
    hide DecodeAll, DecodeScalars, Decoded, Kept, KeptLength, Unfinished, CharPrefix, Announced;
    hide IsContinuation, IsStart;
    hide AfterFillLast, AfterWrite, Waits, Continuations, Valid;
    WaitsFor(d, p);
    if k == d.lastNeed {
      FillsWhole(d, p, t);
    } else {
      FillsBad(d, p, t, k);
    }
    FilledWrite(d, t, AfterFillLast(d, t).1.value);
  }

  /** One chunk of any bytes; an empty one changes nothing. */
  lemma WriteOfAny(d: State, p: seq<Byte>, t: seq<Byte>)
    requires Waits(d, p)
    ensures |t| == 0 ==> AfterWrite(d, t) == (d, [])
    ensures |t| > 0 ==> Wrote(p, t, AfterWrite(d, t).0, AfterWrite(d, t).1)
  {
    hide AfterWrite, Wrote, Waits, Announced, Continuations, Valid, CharPrefix;
    WaitsFor(d, p);
    if |t| == 0 {
      EmptyWrite(d);
      assert t == [];
    } else if |p| == 0 {
      FreshWrite(d, t);
      FreshWrote(t, AfterWrite(d, t).0, AfterWrite(d, t).1, p);
    } else {
      var k := Continuations(t, d.lastNeed);
      if k < d.lastNeed && k == |t| {
        WriteStillWaits(d, p, t);
      } else {
        WriteGoesOn(d, p, t, k);
      }
    }
  }

  lemma FreshWrote(t: seq<Byte>, d: State, out: seq<CodeUnit>, p: seq<Byte>)
    requires |p| == 0 && Waits(d, Kept(t)) && out == Decoded(t)
    ensures Wrote(p, t, d, out)
  {
  }

  /** At the end a character that still waits comes out as U+FFFD. */
  lemma EndOfAny(d: State, p: seq<Byte>, t: seq<Byte>)
    requires Waits(d, p)
    ensures var (d', out) := AfterWrite(d, t);
      AfterEnd(d, t) == (d', out + if d'.lastNeed > 0 then [REPLACEMENT] else [])
  {
    hide DecodeAll;
    var (d', out) := AfterWrite(d, t);
    assert out + [] == out;
  }

  // ---------------------------------------------------------------- compared with decoding at once

  function Replacements(n: nat): seq<Scalar> {
    seq(n, _ => REPLACEMENT)
  }

  lemma {:induction false} ContinuationsAlone(k: seq<Byte>)
    requires forall i :: 0 <= i < |k| ==> IsContinuation(k[i])
    ensures DecodeScalars(k) == Replacements(|k|)
  {
    if |k| > 0 {
      ContinuationsAlone(k[1..]);
      assert Replacements(|k|) == [REPLACEMENT] + Replacements(|k| - 1);
    }
  }

  lemma BreaksAtFirst(p: seq<Byte>, rest: seq<Byte>)
    requires Unfinished(p) && (|rest| > 0 ==> !IsContinuation(rest[0]))
    ensures DecodeOne(p + rest) == (REPLACEMENT, 1)
  {
    hide Value2, Value3, Value4, IsContinuation;
    var b := p + rest;
    assert |b| > |p| ==> b[|p|] == rest[0];
    assert b[0] == p[0];
  }

  /** Decoding at once makes one U+FFFD of every byte of a character that breaks off. */
  lemma BrokenAtOnce(p: seq<Byte>, rest: seq<Byte>)
    requires Unfinished(p) && (|rest| > 0 ==> !IsContinuation(rest[0]))
    ensures DecodeScalars(p + rest) == Replacements(|p|) + DecodeScalars(rest)
  {
    hide DecodeOne, IsContinuation;
    var b := p + rest;
    BreaksAtFirst(p, rest);
    assert b[1..] == p[1..] + rest;
    DecodeContinuations(p[1..], rest);
    ContinuationsAlone(p[1..]);
    assert Replacements(|p|) == [REPLACEMENT] + Replacements(|p| - 1);
    Assoc([REPLACEMENT], Replacements(|p| - 1), DecodeScalars(rest));
  }

  lemma {:induction false} UnitsOfReplacements(n: nat)
    ensures |Units(Replacements(n))| == n
    ensures n > 0 ==> Units(Replacements(n))[0] == REPLACEMENT
  {
    if n > 0 {
      assert Replacements(n)[1..] == Replacements(n - 1);
      UnitsOfReplacements(n - 1);
    }
  }

  /** So the single U+FFFD of the streaming decoder agrees with it exactly when one byte was there. */
  lemma BrokenAgreesIff(p: seq<Byte>, rest: seq<Byte>)
    requires Unfinished(p) && (|rest| > 0 ==> !IsContinuation(rest[0]))
    ensures [REPLACEMENT] + DecodeAll(rest) == DecodeAll(p + rest) <==> |p| == 1
  {
    hide DecodeScalars, Replacements, Units;
    BrokenAtOnce(p, rest);
    UnitsConcat(Replacements(|p|), DecodeScalars(rest));
    UnitsOfReplacements(|p|);
    if |p| == 1 {
      assert Units(Replacements(1)) == [REPLACEMENT];
    }
  }
}

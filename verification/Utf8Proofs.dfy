/** Round trips of the UTF-8 codec, for every string and every byte sequence. */
module Utf8Proofs {
  import opened Wrappers
  import opened Utf8

  /** Everything the unlimited encoder writes. */
  function Encoded(s: seq<CodeUnit>): seq<Byte> {
    Fitting(Scalars(Read(s)), None)
  }

  lemma {:induction false} FittingAll(xs: seq<Scalar>)
    ensures Fitting(xs, None) == EncodeAll(xs)
  {
    if |xs| > 0 {
      FittingAll(xs[1..]);
    }
  }

  // ---------------------------------------------------------------- one character

  lemma Fields2(x: int)
    requires 0x80 <= x < 0x800
    ensures 192 <= x / 0x40 + 0xC0 <= 223 && IsContinuation(x % 0x40 + 0x80)
    ensures Value2(x / 0x40 + 0xC0, x % 0x40 + 0x80) == x
  {
  }

  lemma Fields3(x: int)
    requires 0x800 <= x < 0x1_0000
    ensures 224 <= x / 0x1000 + 0xE0 <= 239
    ensures IsContinuation(x / 0x40 % 0x40 + 0x80) && IsContinuation(x % 0x40 + 0x80)
    ensures Value3(x / 0x1000 + 0xE0, x / 0x40 % 0x40 + 0x80, x % 0x40 + 0x80) == x
  {
  }

  lemma FieldByte(r: int)
    requires 0 <= r < 0x40
    ensures IsContinuation(r + 0x80) && (r + 0x80) % 0x40 == r
  {
  }

  /** The base-64 digits of a number. */
  lemma Sixths(x: int)
    ensures x == 0x40 * (x / 0x40) + x % 0x40
    ensures x / 0x40 / 0x40 == x / 0x1000 && x / 0x1000 / 0x40 == x / 0x4_0000
  {
  }

  lemma Fields4(x: int)
    requires 0x1_0000 <= x < 0x11_0000
    ensures 240 <= x / 0x4_0000 + 0xF0 <= 244
    ensures IsContinuation(x / 0x1000 % 0x40 + 0x80)
    ensures IsContinuation(x / 0x40 % 0x40 + 0x80) && IsContinuation(x % 0x40 + 0x80)
    ensures Value4(x / 0x4_0000 + 0xF0, x / 0x1000 % 0x40 + 0x80, x / 0x40 % 0x40 + 0x80, x % 0x40 + 0x80) == x
  {
    hide IsContinuation;
    var a, b, c := x / 0x40, x / 0x1000, x / 0x4_0000;
    FieldByte(x % 0x40);
    FieldByte(a % 0x40);
    FieldByte(b % 0x40);
    Sixths(x);
    Sixths(a);
    Sixths(b);
    assert 0 <= c <= 4 && (c + 0xF0) % 0x10 == c;
  }

  lemma DecodeEncoded(x: Scalar, rest: seq<Byte>)
    ensures DecodeOne(EncodeOne(x) + rest) == (x, |EncodeOne(x)|)
  {
    if x < 0x80 {
    } else if x < 0x800 {
      Fields2(x);
    } else if x < 0x1_0000 {
      Fields3(x);
    } else {
      Fields4(x);
    }
  }

  lemma {:induction false} DecodeAllEncoded(xs: seq<Scalar>)
    ensures DecodeScalars(EncodeAll(xs)) == xs
  {
    if |xs| > 0 {
      var rest := EncodeAll(xs[1..]);
      DecodeEncoded(xs[0], rest);
      assert EncodeAll(xs)[|EncodeOne(xs[0])|..] == rest;
      DecodeAllEncoded(xs[1..]);
    }
  }

  // ---------------------------------------------------------------- strings

  /** A string is its scalar values exactly when its surrogates are paired. */
  lemma {:induction false} ScalarsExact(s: seq<CodeUnit>)
    ensures Units(Scalars(s)) == s <==> Paired(s)
  {
    if |s| == 0 {
    } else if |s| > 1 && IsLead(s[0]) && IsTrail(s[1]) {
      ScalarsExact(s[2..]);
      PairUnits(s[0], s[1]);
      assert s == [s[0], s[1]] + s[2..];
      assert Units(Scalars(s)) == [s[0], s[1]] + Units(Scalars(s[2..]));
      PairedTail(s, 2);
    } else if IsSurrogate(s[0]) {
      assert Units(Scalars(s))[0] == REPLACEMENT;
      assert !PairedAt(s, 0);
    } else {
      ScalarsExact(s[1..]);
      assert s == [s[0]] + s[1..];
      assert Units(Scalars(s)) == [s[0]] + Units(Scalars(s[1..]));
      PairedTail(s, 1);
    }
  }

  /** The first and the last scalar value beyond 16 bits, and one between. */
  lemma KnownPairs()
    ensures Pair(0xD800, 0xDC00) == 0x1_0000 && Pair(0xD83D, 0xDE00) == 0x1F600 && Pair(0xDBFF, 0xDFFF) == 0x10_FFFF
  {
  }

  lemma PairUnits(lead: CodeUnit, trail: CodeUnit)
    requires IsLead(lead) && IsTrail(trail)
    ensures UnitsOf(Pair(lead, trail)) == [lead, trail]
  {
  }

  lemma PairedTail(s: seq<CodeUnit>, n: nat)
    requires 1 <= n <= 2 && n <= |s|
    requires if n == 1 then !IsSurrogate(s[0]) else IsLead(s[0]) && IsTrail(s[1])
    ensures Paired(s) <==> Paired(s[n..])
  {
    var t := s[n..];
    forall i: nat | i < |t| ensures PairedAt(t, i) <==> PairedAt(s, i + n) {
      assert t[i] == s[i + n];
      assert i + 1 < |t| ==> t[i + 1] == s[i + n + 1];
      assert i > 0 ==> t[i - 1] == s[i + n - 1];
    }
    forall i: nat | i < |s| ensures PairedAt(s, i) <==> i < n || PairedAt(t, i - n) {
    }
  }

  /** Decoding what was encoded gives the scalar values that were read. */
  lemma DecodeOfEncoded(s: seq<CodeUnit>)
    ensures DecodeAll(Encoded(s)) == Units(Scalars(Read(s)))
  {
    FittingAll(Scalars(Read(s)));
    DecodeAllEncoded(Scalars(Read(s)));
  }

  /** A string and its scalar values have as many code units. */
  lemma {:induction false} LengthOfUnits(s: seq<CodeUnit>)
    ensures |Units(Scalars(s))| == |s|
  {
    if |s| == 0 {
    } else if |s| > 1 && IsLead(s[0]) && IsTrail(s[1]) {
      LengthOfUnits(s[2..]);
    } else {
      LengthOfUnits(s[1..]);
    }
  }

  /** Encoding then decoding is the identity exactly on the strings whose surrogates are paired. */
  lemma RoundTripIffPaired(s: seq<CodeUnit>)
    ensures DecodeAll(Encoded(s)) == s <==> Paired(s)
  {
    DecodeOfEncoded(s);
    if EndsInTwoLeads(s) {
      LengthOfUnits(Read(s));
      assert !PairedAt(s, |s| - 1);
    } else {
      ScalarsExact(s);
    }
  }

  /**
   * On any string each lone surrogate comes back as U+FFFD, exactly unless the string ends in two leads:
   * the encoder then drops the last one.
   */
  lemma LoneSurrogatesReplaced(s: seq<CodeUnit>)
    ensures DecodeAll(Encoded(s)) == Units(Scalars(s)) <==> !EndsInTwoLeads(s)
  {
    DecodeOfEncoded(s);
    if EndsInTwoLeads(s) {
      LengthOfUnits(s);
      LengthOfUnits(Read(s));
    }
  }

  /**
   * A limited encoding holds whole characters only, as many as fit: the encoding of the first k scalar
   * values, which decodes to just those.
   */
  lemma {:induction false} LimitCutsWholeCharacters(xs: seq<Scalar>, room: nat) returns (k: nat)
    ensures k <= |xs|
    ensures Fitting(xs, Some(room)) == EncodeAll(xs[..k])
    ensures |EncodeAll(xs[..k])| <= room
    ensures k < |xs| ==> |EncodeAll(xs[..k + 1])| > room
    ensures DecodeAll(Fitting(xs, Some(room))) == Units(xs[..k])
  {
    k := CountFitting(xs, room);
    DecodeAllEncoded(xs[..k]);
  }

  lemma {:induction false} CountFitting(xs: seq<Scalar>, room: nat) returns (k: nat)
    ensures k <= |xs|
    ensures Fitting(xs, Some(room)) == EncodeAll(xs[..k])
    ensures |EncodeAll(xs[..k])| <= room
    ensures k < |xs| ==> |EncodeAll(xs[..k + 1])| > room
  {
    if |xs| == 0 || |EncodeOne(xs[0])| > room {
      k := 0;
      if |xs| > 0 {
        assert xs[..1][0] == xs[0];
      }
    } else {
      var j := CountFitting(xs[1..], room - |EncodeOne(xs[0])|);
      k := j + 1;
      assert xs[..k][1..] == xs[1..][..j];
      if k < |xs| {
        assert xs[..k + 1][1..] == xs[1..][..j + 1];
      }
    }
  }

  // ---------------------------------------------------------------- bytes

  predicate Between(b: Byte, lo: int, hi: int) { lo <= b <= hi }

  /** The length of the well-formed character at the front, by the syntax in section 4 of RFC 3629; 0 if none. */
  function CharAt(b: seq<Byte>): (l: nat)
    ensures l <= |b|
  {
    if |b| >= 1 && b[0] <= 0x7F then 1
    else if |b| >= 2 && Between(b[0], 0xC2, 0xDF) && Between(b[1], 0x80, 0xBF) then 2
    else if |b| >= 3 && Between(b[2], 0x80, 0xBF)
         && (|| (b[0] == 0xE0 && Between(b[1], 0xA0, 0xBF))
             || (Between(b[0], 0xE1, 0xEC) && Between(b[1], 0x80, 0xBF))
             || (b[0] == 0xED && Between(b[1], 0x80, 0x9F))
             || (Between(b[0], 0xEE, 0xEF) && Between(b[1], 0x80, 0xBF))) then 3
    else if |b| >= 4 && Between(b[2], 0x80, 0xBF) && Between(b[3], 0x80, 0xBF)
         && (|| (b[0] == 0xF0 && Between(b[1], 0x90, 0xBF))
             || (Between(b[0], 0xF1, 0xF3) && Between(b[1], 0x80, 0xBF))
             || (b[0] == 0xF4 && Between(b[1], 0x80, 0x8F))) then 4
    else 0
  }

  predicate WellFormed(b: seq<Byte>) {
    |b| == 0 || (CharAt(b) > 0 && WellFormed(b[CharAt(b)..]))
  }

  lemma Standard2(c: int, o: int)
    requires 192 <= c <= 223 && 0 <= o < 256
    ensures IsContinuation(o) && Value2(c, o) > 0x7F <==> 0xC2 <= c && 0x80 <= o <= 0xBF
    ensures IsContinuation(o) ==>
      Value2(c, o) < 0x800 && Value2(c, o) / 0x40 + 0xC0 == c && Value2(c, o) % 0x40 + 0x80 == o
  {
  }

  lemma Standard3(c: int, o: int, u: int)
    requires 224 <= c <= 239 && 0 <= o < 256 && 0 <= u < 256
    requires IsContinuation(o) && IsContinuation(u)
    ensures var x := Value3(c, o, u);
      && (x > 0x7FF <==> c > 0xE0 || o >= 0xA0)
      && (IsSurrogate(x) <==> c == 0xED && o >= 0xA0)
      && x < 0x1_0000 && x / 0x1000 + 0xE0 == c && x / 0x40 % 0x40 + 0x80 == o && x % 0x40 + 0x80 == u
  {
    Digits(0, c - 0xE0, o - 0x80, u - 0x80);
    assert o % 0x40 == o - 0x80 && u % 0x40 == u - 0x80 && c % 0x10 == c - 0xE0;
  }

  lemma Standard4(c: int, o: int, u: int, s: int)
    requires 240 <= c <= 255 && 0 <= o < 256 && 0 <= u < 256 && 0 <= s < 256
    requires IsContinuation(o) && IsContinuation(u) && IsContinuation(s)
    ensures var x := Value4(c, o, u, s);
      && (x > 0xFFFF <==> c > 0xF0 || o >= 0x90)
      && (x < 0x11_0000 <==> c < 0xF4 || (c == 0xF4 && o <= 0x8F))
      && x / 0x4_0000 + 0xF0 == c && x / 0x1000 % 0x40 + 0x80 == o
      && x / 0x40 % 0x40 + 0x80 == u && x % 0x40 + 0x80 == s
  {
    Digits(c - 0xF0, o - 0x80, u - 0x80, s - 0x80);
    assert o % 0x40 == o - 0x80 && u % 0x40 == u - 0x80 && s % 0x40 == s - 0x80 && c % 0x10 == c - 0xF0;
  }

  lemma Digits(c: int, o: int, u: int, s: int)
    requires 0 <= o < 0x40 && 0 <= u < 0x40 && 0 <= s < 0x40
    ensures var x := c * 0x4_0000 + o * 0x1000 + u * 0x40 + s;
      x / 0x4_0000 == c && x / 0x1000 % 0x40 == o && x / 0x40 % 0x40 == u && x % 0x40 == s
  {
    var x := c * 0x4_0000 + o * 0x1000 + u * 0x40 + s;
    assert x / 0x1000 == c * 0x40 + o;
    assert x / 0x40 == c * 0x1000 + o * 0x40 + u;
  }

  ghost predicate Standard(b: seq<Byte>)
    requires |b| > 0
  {
    if CharAt(b) > 0 then DecodeOne(b).1 == CharAt(b) && EncodeOne(DecodeOne(b).0) == b[..CharAt(b)]
    else DecodeOne(b) == (REPLACEMENT, 1)
  }

  lemma DecodeStandard2(b: seq<Byte>)
    requires |b| >= 2 && Announced(b[0]) == 2
    ensures Standard(b)
  {
    hide Value2;
    Standard2(b[0], b[1]);
  }

  lemma DecodeStandard3(b: seq<Byte>)
    requires |b| >= 3 && Announced(b[0]) == 3
    ensures Standard(b)
  {
    hide Value3;
    if IsContinuation(b[1]) && IsContinuation(b[2]) {
      Standard3(b[0], b[1], b[2]);
    }
  }

  lemma DecodeStandard4(b: seq<Byte>)
    requires |b| >= 4 && Announced(b[0]) == 4
    ensures Standard(b)
  {
    hide Value4;
    if IsContinuation(b[1]) && IsContinuation(b[2]) && IsContinuation(b[3]) {
      Standard4(b[0], b[1], b[2], b[3]);
    }
  }

  lemma DecodeStandard1(b: seq<Byte>)
    requires |b| > 0 && (Announced(b[0]) == 1 || Announced(b[0]) > |b|)
    ensures Standard(b)
  {
    hide Value2, Value3, Value4;
  }

  /** The decoder accepts a character exactly when the standard's syntax does, and then encoding undoes it. */
  lemma DecodeOneStandard(b: seq<Byte>)
    requires |b| > 0
    ensures CharAt(b) > 0 ==> DecodeOne(b).1 == CharAt(b) && EncodeOne(DecodeOne(b).0) == b[..CharAt(b)]
    ensures CharAt(b) == 0 ==> DecodeOne(b) == (REPLACEMENT, 1)
  {
    hide DecodeOne, EncodeOne, CharAt;
    var l := Announced(b[0]);
    if l == 1 || l > |b| {
      DecodeStandard1(b);
    } else if l == 2 {
      DecodeStandard2(b);
    } else if l == 3 {
      DecodeStandard3(b);
    } else {
      DecodeStandard4(b);
    }
  }

  /** U+FFFD is not what a malformed byte was encoded to. */
  lemma ReplacementIsWellFormed(b: seq<Byte>, rest: seq<Byte>)
    requires b == EncodeOne(REPLACEMENT) + rest
    ensures CharAt(b) == 3
  {
    assert b[0] == 0xEF && b[1] == 0xBF && b[2] == 0xBD;
  }

  /** Decoding then encoding is the identity exactly on the well-formed byte sequences. */
  lemma {:induction false} BytesRoundTripIffWellFormed(b: seq<Byte>)
    ensures EncodeAll(DecodeScalars(b)) == b <==> WellFormed(b)
    decreases |b|
  {
    hide DecodeOne, EncodeOne, CharAt;
    if |b| > 0 {
      var (x, l) := DecodeOne(b);
      var rest := b[l..];
      BytesRoundTripIffWellFormed(rest);
      DecodeOneStandard(b);
      var e := EncodeAll(DecodeScalars(b));
      assert e == EncodeOne(x) + EncodeAll(DecodeScalars(rest));
      if CharAt(b) > 0 {
        assert b == b[..l] + rest;
      } else if e == b {
        ReplacementIsWellFormed(b, EncodeAll(DecodeScalars(rest)));
      }
    }
  }
}

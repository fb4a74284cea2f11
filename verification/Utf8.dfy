/**
 * The UTF-8 codec of the Buffer module: strings are sequences of 16-bit code units. Shifts and masks are
 * written as quotients, remainders and sums of fields that do not overlap.
 */
module Utf8 {
  import opened Wrappers

  type Byte = x: int | 0 <= x < 0x100
  type CodeUnit = x: int | 0 <= x < 0x1_0000

  const REPLACEMENT: int := 0xFFFD

  predicate IsLead(u: int) { 0xD800 <= u <= 0xDBFF }

  predicate IsTrail(u: int) { 0xDC00 <= u <= 0xDFFF }

  predicate IsSurrogate(u: int) { 0xD800 <= u <= 0xDFFF }

  /** Unicode scalar values. */
  type Scalar = x: int | 0 <= x < 0x11_0000 && !IsSurrogate(x)

  // ---------------------------------------------------------------- what a string means

  function Pair(lead: CodeUnit, trail: CodeUnit): (x: Scalar)
    requires IsLead(lead) && IsTrail(trail)
    ensures x >= 0x1_0000
  {
    0x1_0000 + (lead - 0xD800) * 0x400 + (trail - 0xDC00)
  }

  /** The scalar values of a string; a surrogate without its partner counts as U+FFFD. */
  function Scalars(s: seq<CodeUnit>): seq<Scalar> {
    if |s| == 0 then []
    else if |s| > 1 && IsLead(s[0]) && IsTrail(s[1]) then [Pair(s[0], s[1])] + Scalars(s[2..])
    else [if IsSurrogate(s[0]) then REPLACEMENT else s[0]] + Scalars(s[1..])
  }

  function UnitsOf(x: Scalar): (us: seq<CodeUnit>)
    ensures 1 <= |us| <= 2
  {
    if x > 0xFFFF then
      var y := x - 0x1_0000;
      [y / 0x400 % 0x400 + 0xD800, 0xDC00 + y % 0x400]
    else [x]
  }

  function Units(xs: seq<Scalar>): seq<CodeUnit> {
    if |xs| == 0 then [] else UnitsOf(xs[0]) + Units(xs[1..])
  }

  predicate PairedAt(s: seq<CodeUnit>, i: nat)
    requires i < |s|
  {
    && (IsLead(s[i]) ==> i + 1 < |s| && IsTrail(s[i + 1]))
    && (IsTrail(s[i]) ==> i > 0 && IsLead(s[i - 1]))
  }

  /** Every lead is followed by a trail and every trail follows a lead. */
  predicate Paired(s: seq<CodeUnit>) {
    forall i: nat :: i < |s| ==> PairedAt(s, i)
  }

  // ---------------------------------------------------------------- encoding

  /** The bytes of one scalar value. */
  function EncodeOne(x: Scalar): (bs: seq<Byte>)
    ensures 1 <= |bs| <= 4
  {
    if x < 0x80 then [x]
    else if x < 0x800 then [x / 0x40 + 0xC0, x % 0x40 + 0x80]
    else if x < 0x1_0000 then [x / 0x1000 + 0xE0, x / 0x40 % 0x40 + 0x80, x % 0x40 + 0x80]
    else [x / 0x4_0000 + 0xF0, x / 0x1000 % 0x40 + 0x80, x / 0x40 % 0x40 + 0x80, x % 0x40 + 0x80]
  }

  function EncodeAll(xs: seq<Scalar>): seq<Byte> {
    if |xs| == 0 then [] else EncodeOne(xs[0]) + EncodeAll(xs[1..])
  }

  /** Room for so many bytes; no limit is unlimited room. */
  predicate Fits(size: nat, room: Option<int>) {
    room.None? || size <= room.value
  }

  function Less(room: Option<int>, size: nat): Option<int> {
    if room.None? then None else Some(room.value - size)
  }

  /** The scalar values, in order, until one does not fit: characters are never cut. */
  function Fitting(xs: seq<Scalar>, room: Option<int>): seq<Byte> {
    if |xs| == 0 || !Fits(|EncodeOne(xs[0])|, room) then []
    else EncodeOne(xs[0]) + Fitting(xs[1..], Less(room, |EncodeOne(xs[0])|))
  }

  predicate EndsInTwoLeads(s: seq<CodeUnit>) {
    |s| >= 2 && IsLead(s[|s| - 1]) && IsLead(s[|s| - 2])
  }

  /** What the encoder reads: it loses a lead at the very end that follows another lead. */
  function Read(s: seq<CodeUnit>): seq<CodeUnit> {
    if EndsInTwoLeads(s) then s[..|s| - 1] else s
  }

  /** What the encoding loop still has to write at position u, after a lead that waits for its trail or not. */
  function Rest(t: seq<CodeUnit>, u: nat, pending: bool): seq<Scalar>
    requires u <= |t| && (pending ==> u > 0 && IsLead(t[u - 1]))
    decreases |t| - u
  {
    if u == |t| then []
    else
      var n := t[u];
      if IsSurrogate(n) then
        if !pending then
          if n > 0xDBFF || u + 1 == |t| then [REPLACEMENT] + Rest(t, u + 1, false) else Rest(t, u + 1, true)
        else if n < 0xDC00 then [REPLACEMENT] + Rest(t, u + 1, true)
        else [Pair(t[u - 1], n)] + Rest(t, u + 1, false)
      else if pending then [REPLACEMENT] + ([n] + Rest(t, u + 1, false))
      else [n] + Rest(t, u + 1, false)
  }

  /** Two steps from a position in one. */
  lemma DropTwice<T>(s: seq<T>, m: nat, n: nat)
    requires m + n <= |s|
    ensures s[m..][n..] == s[m + n..]
  {
  }

  /** The states the loop can be in. */
  predicate Reached(t: seq<CodeUnit>, u: nat, pending: bool) {
    && u <= |t|
    && if pending then u > 0 && IsLead(t[u - 1]) && (u == |t| ==> EndsInTwoLeads(t))
       else u <= |Read(t)| && (0 < u < |t| ==> !IsLead(t[u - 1]))
  }

  /** The loop reads the scalar values of the string, except for the lead it loses. */
  predicate ReadsScalars(t: seq<CodeUnit>, u: nat, pending: bool)
    requires Reached(t, u, pending)
  {
    Rest(t, u, pending) ==
    if !pending then Scalars(Read(t)[u..])
    else if u <= |Read(t)| then Scalars(Read(t)[u - 1..])
    else []
  }

  /** What the scalar values of r begin with at position u - 1, a lead. */
  lemma AfterLead(r: seq<CodeUnit>, u: nat)
    requires 0 < u <= |r| && IsLead(r[u - 1])
    ensures u == |r| ==> Scalars(r[u - 1..]) == [REPLACEMENT]
    ensures u < |r| && IsTrail(r[u]) ==> Scalars(r[u - 1..]) == [Pair(r[u - 1], r[u])] + Scalars(r[u + 1..])
    ensures u < |r| && !IsTrail(r[u]) ==> Scalars(r[u - 1..]) == [REPLACEMENT] + Scalars(r[u..])
    ensures u < |r| && !IsSurrogate(r[u]) ==> Scalars(r[u..]) == [r[u]] + Scalars(r[u + 1..])
  {
    hide Pair;
    DropTwice(r, u - 1, 1);
    if u < |r| {
      DropTwice(r, u - 1, 2);
      DropTwice(r, u, 1);
    } else {
      assert Scalars(r[u..]) == [];
    }
  }

  lemma WaitingStep(t: seq<CodeUnit>, u: nat)
    requires Reached(t, u, true) && u < |t| && Reached(t, u + 1, IsLead(t[u]))
    requires ReadsScalars(t, u + 1, IsLead(t[u]))
    ensures ReadsScalars(t, u, true)
  {
    hide Pair, Scalars;
    AfterLead(Read(t), u);
  }

  lemma IdleStep(t: seq<CodeUnit>, u: nat)
    requires Reached(t, u, false) && u < |t|
    requires Reached(t, u + 1, IsLead(t[u]) && u + 1 < |t|) && ReadsScalars(t, u + 1, IsLead(t[u]) && u + 1 < |t|)
    ensures ReadsScalars(t, u, false)
  {
    hide Pair;
    if u < |Read(t)| {
      DropTwice(Read(t), u, 1);
    }
  }

  lemma {:induction false} RestIsScalars(t: seq<CodeUnit>, u: nat, pending: bool)
    requires Reached(t, u, pending)
    ensures ReadsScalars(t, u, pending)
    decreases |t| - u
  {
    if u < |t| {
      if pending {
        RestIsScalars(t, u + 1, IsLead(t[u]));
        WaitingStep(t, u);
      } else {
        RestIsScalars(t, u + 1, IsLead(t[u]) && u + 1 < |t|);
        IdleStep(t, u);
      }
    }
  }

  /** Writing one more scalar value, if it fits, leaves the rest to be written into the rest of the room. */
  lemma FittingStep(all: seq<Byte>, o: seq<Byte>, x: Scalar, xs: seq<Scalar>, room: Option<int>)
    requires all == o + Fitting([x] + xs, room)
    ensures all == (if Fits(|EncodeOne(x)|, room) then o + EncodeOne(x) else o)
                   + Fitting(xs, Less(room, |EncodeOne(x)|))
    ensures !Fits(|EncodeOne(x)|, room) ==> all == o
  {
    assert ([x] + xs)[1..] == xs;
  }

  /** The encoding loop. A limit of 0 means no limit. */
  method Encode(t: seq<CodeUnit>, units: nat) returns (o: seq<Byte>)
    ensures o == Fitting(Scalars(Read(t)), if units == 0 then None else Some(units))
  {
    var room: Option<int> := if units == 0 then None else Some(units);
    var pending: Option<CodeUnit> := None;
    o := [];
    RestIsScalars(t, 0, false);
    assert Read(t)[0..] == Read(t);
    ghost var all := Fitting(Rest(t, 0, false), room);
    for u := 0 to |t|
      invariant pending.Some? ==> u > 0 && pending.value == t[u - 1] && IsLead(t[u - 1])
      invariant all == o + Fitting(Rest(t, u, pending.Some?), room)
    {
      var n: Option<int>;
      pending, n, o, room := CombineUnit(t, u, pending, o, room, all);
      if n.None? {
        continue;
      }
      FittingStep(all, o, n.value, Rest(t, u + 1, false), room);
      var fits;
      o, room, fits := PutScalar(o, room, n.value);
      if !fits {
        break;
      }
    }
  }

  /** One code unit: a lead waits, a lone surrogate is replaced, anything else gives a code point to write. */
  method CombineUnit(t: seq<CodeUnit>, u: nat, lead: Option<CodeUnit>, o: seq<Byte>, room: Option<int>,
                     ghost all: seq<Byte>)
    returns (pending: Option<CodeUnit>, n: Option<int>, o': seq<Byte>, room': Option<int>)
    requires u < |t| && (lead.Some? ==> u > 0 && lead.value == t[u - 1] && IsLead(t[u - 1]))
    requires all == o + Fitting(Rest(t, u, lead.Some?), room)
    ensures pending.Some? ==> n.None? && pending.value == t[u] && IsLead(t[u])
    ensures n.Some? ==> 0 <= n.value < 0x11_0000 && !IsSurrogate(n.value)
    ensures n.None? ==> all == o' + Fitting(Rest(t, u + 1, pending.Some?), room')
    ensures n.Some? ==> all == o' + Fitting([n.value] + Rest(t, u + 1, false), room')
  {
    var c := t[u];
    pending, n, o', room' := None, None, o, room;
    if IsSurrogate(c) {
      if lead.None? {
        if c > 0xDBFF || u + 1 == |t| {
          FittingStep(all, o, REPLACEMENT, Rest(t, u + 1, false), room);
          o', room' := PutReplacement(o, room);
        } else {
          pending := Some(c);
        }
      } else if c < 0xDC00 {
        FittingStep(all, o, REPLACEMENT, Rest(t, u + 1, true), room);
        o', room' := PutReplacement(o, room);
        pending := Some(c);
      } else {
        n := Some(Pair(lead.value, c));
      }
    } else {
      if lead.Some? {
        FittingStep(all, o, REPLACEMENT, [c] + Rest(t, u + 1, false), room);
        o', room' := PutReplacement(o, room);
      }
      n := Some(c);
    }
  }

  /** The bytes of a code point if they fit. */
  method PutScalar(o: seq<Byte>, room: Option<int>, n: Scalar)
    returns (o': seq<Byte>, room': Option<int>, fits: bool)
    ensures fits == Fits(|EncodeOne(n)|, room)
    ensures o' == if fits then o + EncodeOne(n) else o
    ensures room' == Less(room, |EncodeOne(n)|)
  {
    var bs: seq<Byte>;
    if n < 0x80 {
      bs := [n];
    } else if n < 0x800 {
      bs := [n / 0x40 + 0xC0, n % 0x40 + 0x80];
    } else if n < 0x1_0000 {
      bs := [n / 0x1000 + 0xE0, n / 0x40 % 0x40 + 0x80, n % 0x40 + 0x80];
    } else {
      bs := [n / 0x4_0000 + 0xF0, n / 0x1000 % 0x40 + 0x80, n / 0x40 % 0x40 + 0x80, n % 0x40 + 0x80];
    }
    room' := Less(room, |bs|);
    fits := Fits(0, room');
    o' := if fits then o + bs else o;
  }

  /** Three bytes for U+FFFD if they fit; the room shrinks either way. */
  method PutReplacement(o: seq<Byte>, room: Option<int>) returns (o': seq<Byte>, room': Option<int>)
    ensures o' == if Fits(3, room) then o + EncodeOne(REPLACEMENT) else o
    ensures room' == Less(room, 3)
  {
    room' := Less(room, 3);
    o' := if Fits(0, room') then o + [239, 191, 189] else o;
  }

  // ---------------------------------------------------------------- decoding

  predicate IsContinuation(b: int) { b / 0x40 == 2 }

  /** How many bytes the decoder takes a first byte to announce. */
  function Announced(c: Byte): (l: nat)
    ensures 1 <= l <= 4
  {
    if c > 239 then 4 else if c > 223 then 3 else if c > 191 then 2 else 1
  }

  /** The payload bits of two, three and four bytes. */
  function Value2(c: int, o: int): int { c % 0x20 * 0x40 + o % 0x40 }

  function Value3(c: int, o: int, u: int): int { c % 0x10 * 0x1000 + o % 0x40 * 0x40 + u % 0x40 }

  function Value4(c: int, o: int, u: int, s: int): int {
    c % 0x10 * 0x4_0000 + o % 0x40 * 0x1000 + u % 0x40 * 0x40 + s % 0x40
  }

  /** The scalar value of the bytes at the front and their number, or U+FFFD for one bad byte. */
  function DecodeOne(b: seq<Byte>): (r: (Scalar, nat))
    requires |b| > 0
    ensures 1 <= r.1 <= |b|
  {
    var c := b[0];
    var l := Announced(c);
    if l > |b| then (REPLACEMENT, 1)
    else if l == 1 then
      if c < 0x80 then (c, 1) else (REPLACEMENT, 1)
    else if l == 2 then
      var x := Value2(c, b[1]);
      if IsContinuation(b[1]) && x > 0x7F then (x, 2) else (REPLACEMENT, 1)
    else if l == 3 then
      var x := Value3(c, b[1], b[2]);
      if IsContinuation(b[1]) && IsContinuation(b[2]) && x > 0x7FF && !IsSurrogate(x) then (x, 3)
      else (REPLACEMENT, 1)
    else
      var x := Value4(c, b[1], b[2], b[3]);
      if IsContinuation(b[1]) && IsContinuation(b[2]) && IsContinuation(b[3]) && 0xFFFF < x < 0x11_0000 then (x, 4)
      else (REPLACEMENT, 1)
  }

  function DecodeScalars(b: seq<Byte>): seq<Scalar> {
    if |b| == 0 then [] else [DecodeOne(b).0] + DecodeScalars(b[DecodeOne(b).1..])
  }

  /** What a byte sequence decodes to. */
  function DecodeAll(b: seq<Byte>): seq<CodeUnit> {
    Units(DecodeScalars(b))
  }

  lemma {:induction false} UnitsConcat(xs: seq<Scalar>, ys: seq<Scalar>)
    ensures Units(xs + ys) == Units(xs) + Units(ys)
  {
    if |xs| == 0 {
      assert xs + ys == ys;
    } else {
      assert (xs + ys)[1..] == xs[1..] + ys;
      UnitsConcat(xs[1..], ys);
    }
  }

  lemma AppendStep(all: seq<Scalar>, done: seq<Scalar>, x: Scalar, rest: seq<Scalar>)
    requires all == done + ([x] + rest)
    ensures all == done + [x] + rest
    ensures Units(done + [x]) == Units(done) + UnitsOf(x)
  {
    UnitsConcat(done, [x]);
    assert Units([x]) == UnitsOf(x) + Units([]);
  }

  /** One round of the decoding loop. */
  lemma DecodeRound(b: seq<Byte>, all: seq<Scalar>, done: seq<Scalar>)
    requires |b| > 0 && all == done + DecodeScalars(b)
    ensures var (x, l) := DecodeOne(b);
      && all == done + [x] + DecodeScalars(b[l..])
      && Units(done + [x]) == Units(done) + UnitsOf(x)
  {
    var (x, l) := DecodeOne(b);
    AppendStep(all, done, x, DecodeScalars(b[l..]));
  }

  /** The decoding loop over t[from..min(|t|, to)]. */
  method Decode(t: seq<Byte>, from: nat, to: nat) returns (r: seq<CodeUnit>)
    requires from <= |t|
    ensures r == if from <= to then DecodeAll(t[from..if to < |t| then to else |t|]) else []
  {
    hide DecodeOne, UnitsOf;
    var n := if to < |t| then to else |t|;
    r := [];
    var i := from;
    if from <= n {
      ghost var all, done: seq<Scalar>, left := DecodeScalars(t[from..n]), [], t[from..n];
      while i < n
        invariant from <= i <= n && left == t[i..n]
        invariant all == done + DecodeScalars(left)
        invariant r == Units(done)
      {
        var f, l := ReadOne(t, i, n);
        DecodeRound(left, all, done);
        done, left := done + [f], left[l..];
        r := PutUnits(r, f);
        i := i + l;
      }
      assert all == done;
    }
  }

  method PutUnits(r: seq<CodeUnit>, f: Scalar) returns (r': seq<CodeUnit>)
    ensures r' == r + UnitsOf(f)
  {
    var c: int := f;
    r' := r;
    if c > 65535 {
      var y := c - 65536;
      r' := r' + [y / 0x400 % 0x400 + 55296];
      r' := r' + [56320 + y % 0x400];
    } else {
      r' := r' + [c];
    }
  }

  /** The scalar value at i and its length: U+FFFD for one byte when the bytes there are not well formed. */
  method ReadOne(t: seq<Byte>, i: nat, n: nat) returns (f: Scalar, l: nat)
    requires i < n <= |t|
    ensures (f, l) == DecodeOne(t[i..n])
  {
    var c := t[i];
    l := if c > 239 then 4 else if c > 223 then 3 else if c > 191 then 2 else 1;
    var read: Option<int> := None;
    if i + l <= n {
      read := ReadSequence(t, i, l);
    }
    assert t[i..n][0] == c;
    if read.None? {
      f, l := 0xFFFD, 1;
    } else {
      f := read.value;
    }
  }

  /** The scalar value of l bytes at i, or None when they are not well formed. */
  method ReadSequence(t: seq<Byte>, i: nat, l: nat) returns (f: Option<int>)
    requires i < |t| && l == Announced(t[i]) && i + l <= |t|
    ensures f.Some? ==> 0 <= f.value < 0x11_0000 && !IsSurrogate(f.value)
    ensures forall n :: i + l <= n <= |t| ==>
      DecodeOne(t[i..n]) == if f.Some? then (f.value, l) else (REPLACEMENT, 1)
  {
    f := None;
    var c := t[i];
    if l == 1 {
      if c < 128 {
        f := Some(c);
      }
    } else if l == 2 {
      var a := Value2(c, t[i + 1]);
      if t[i + 1] / 0x40 == 2 && a > 127 {
        f := Some(a);
      }
    } else if l == 3 {
      var a := Value3(c, t[i + 1], t[i + 2]);
      if t[i + 1] / 0x40 == 2 && t[i + 2] / 0x40 == 2 && a > 2047 && (a < 55296 || a > 57343) {
        f := Some(a);
      }
    } else {
      var a := Value4(c, t[i + 1], t[i + 2], t[i + 3]);
      if t[i + 1] / 0x40 == 2 && t[i + 2] / 0x40 == 2 && t[i + 3] / 0x40 == 2 && a > 65535 && a < 1114112 {
        f := Some(a);
      }
    }
  }
}

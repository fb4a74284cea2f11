/** What base64 promises: the letters are the base-64 digits of the bytes, and decoding gives the bytes back. */
module Base64Proofs {
  import opened Base64
  import opened Wrappers

  lemma ValueOfChar(v: int)
    requires 0 <= v < 64
    ensures ValueOf(CharOf(v)) == v
  {
  }

  /** The alphabet of section 4 of RFC 4648. */
  lemma Alphabet()
    ensures [CharOf(0), CharOf(1), CharOf(2), CharOf(3), CharOf(4), CharOf(5), CharOf(6), CharOf(7)] == "ABCDEFGH"
    ensures [CharOf(8), CharOf(9), CharOf(10), CharOf(11), CharOf(12), CharOf(13), CharOf(14), CharOf(15)] == "IJKLMNOP"
    ensures [CharOf(16), CharOf(17), CharOf(18), CharOf(19), CharOf(20), CharOf(21), CharOf(22), CharOf(23)] == "QRSTUVWX"
    ensures [CharOf(24), CharOf(25), CharOf(26), CharOf(27), CharOf(28), CharOf(29), CharOf(30), CharOf(31)] == "YZabcdef"
    ensures [CharOf(32), CharOf(33), CharOf(34), CharOf(35), CharOf(36), CharOf(37), CharOf(38), CharOf(39)] == "ghijklmn"
    ensures [CharOf(40), CharOf(41), CharOf(42), CharOf(43), CharOf(44), CharOf(45), CharOf(46), CharOf(47)] == "opqrstuv"
    ensures [CharOf(48), CharOf(49), CharOf(50), CharOf(51), CharOf(52), CharOf(53), CharOf(54), CharOf(55)] == "wxyz0123"
    ensures [CharOf(56), CharOf(57), CharOf(58), CharOf(59), CharOf(60), CharOf(61), CharOf(62), CharOf(63)] == "456789+/"
  {
  }

  /** Four digits to base 64 are the number they were taken from. */
  lemma Digits4(n: int)
    requires 0 <= n < 0x100_0000
    ensures n == n / 0x4_0000 % 64 * 0x4_0000 + n / 0x1000 % 64 * 0x1000 + n / 64 % 64 * 64 + n % 64
  {
    var a, b, c := n / 64, n / 0x1000, n / 0x4_0000;
    assert n == 64 * a + n % 64;
    assert a / 64 == b && a == 64 * b + a % 64;
    assert b / 64 == c && b == 64 * c + b % 64;
    assert 0 <= c < 64;
  }

  lemma QuadOfChars(c: char, d: char, e: char, f: char)
    ensures Quad([c, d, e, f]) == ValueOf(c) * 0x4_0000 + ValueOf(d) * 0x1000 + ValueOf(e) * 64 + ValueOf(f)
  {
  }

  lemma QuadOfLetters(n: int)
    requires 0 <= n < 0x100_0000
    ensures Quad(Letters(n)) == n
  {
    var p, q, r, s := n / 0x4_0000 % 64, n / 0x1000 % 64, n / 64 % 64, n % 64;
    Digits4(n);
    ValueOfChar(p);
    ValueOfChar(q);
    ValueOfChar(r);
    ValueOfChar(s);
    QuadOfChars(CharOf(p), CharOf(q), CharOf(r), CharOf(s));
  }

  lemma BytesOfTriple(a: Byte, b: Byte, c: Byte)
    ensures 0 <= Triple(a, b, c) < 0x100_0000 && Bytes3(Triple(a, b, c)) == [a, b, c]
  {
    var n := Triple(a, b, c);
    assert n == 0x100 * (0x100 * a + b) + c;
    assert n / 0x100 == 0x100 * a + b && n % 0x100 == c;
    assert n / 0x1_0000 == a;
  }

  // ---------------------------------------------------------------- the number

  /** The number that t writes to base 64, most significant digit first, after acc; padding counts as digit 0. */
  function Number64(acc: nat, t: string): nat
    decreases |t|
  {
    if |t| == 0 then acc else Number64(acc * 64 + ValueOf(t[0]), t[1..])
  }

  /** The number that b writes to base 256. */
  function Number256(acc: nat, b: seq<Byte>): nat
    decreases |b|
  {
    if |b| == 0 then acc else Number256(acc * 256 + b[0], b[1..])
  }

  function Filled(b: seq<Byte>): seq<Byte> {
    if |b| % 3 == 1 then b + [0, 0] else if |b| % 3 == 2 then b + [0] else b
  }

  lemma Number64Group(acc: nat, g: string, rest: string)
    requires |g| == 4
    ensures Number64(acc, g + rest) == Number64(acc * 0x100_0000 + Quad(g), rest)
  {
    var t := g + rest;
    assert t[1..][1..] == t[2..] && t[2..][1..] == t[3..] && t[3..][1..] == t[4..] == rest;
    var a1 := acc * 64 + ValueOf(g[0]);
    var a2 := a1 * 64 + ValueOf(g[1]);
    var a3 := a2 * 64 + ValueOf(g[2]);
    assert Number64(acc, t) == Number64(a1, t[1..]);
    assert Number64(a1, t[1..]) == Number64(a2, t[2..]);
    assert Number64(a2, t[2..]) == Number64(a3, t[3..]);
    assert Number64(a3, t[3..]) == Number64(a3 * 64 + ValueOf(g[3]), rest);
  }

  lemma Number256Group(acc: nat, b: seq<Byte>)
    requires |b| >= 3
    ensures Number256(acc, b) == Number256(acc * 0x100_0000 + Triple(b[0], b[1], b[2]), b[3..])
  {
    assert b[1..][1..] == b[2..] && b[2..][1..] == b[3..];
    var a1 := acc * 256 + b[0];
    var a2 := a1 * 256 + b[1];
    assert Number256(acc, b) == Number256(a1, b[1..]);
    assert Number256(a1, b[1..]) == Number256(a2, b[2..]);
    assert Number256(a2, b[2..]) == Number256(a2 * 256 + b[2], b[3..]);
  }

  lemma DigitsOfLast1(a: int)
    requires 0 <= a < 0x100
    ensures a / 4 * 0x4_0000 + a * 16 % 64 * 0x1000 == a * 0x1_0000
  {
    assert a == 4 * (a / 4) + a % 4 && a * 16 % 64 == 16 * (a % 4);
  }

  lemma DigitsOfLast2(n: int)
    requires 0 <= n < 0x1_0000
    ensures n / 0x400 * 0x4_0000 + n / 16 % 64 * 0x1000 + n * 4 % 64 * 64 == n * 0x100
  {
    var q := n / 16;
    assert n == 16 * q + n % 16 && q == 64 * (q / 64) + q % 64 && q / 64 == n / 0x400;
    assert n * 4 % 64 == 4 * (n % 16);
  }

  /** The letters of one byte that is left are those of a triple with two zero bytes, then padded. */
  lemma QuadOfLast1(a: Byte)
    ensures Quad(Last1(a)) == Triple(a, 0, 0)
  {
    var p, q := a / 4, a * 16 % 64;
    DigitsOfLast1(a);
    ValueOfChar(p);
    ValueOfChar(q);
    QuadOfChars(CharOf(p), CharOf(q), '=', '=');
  }

  lemma QuadOfLast2(a: Byte, b: Byte)
    ensures Quad(Last2(Double(a, b))) == Triple(a, b, 0)
  {
    var n := Double(a, b);
    var p, q, r := n / 0x400, n / 16 % 64, n * 4 % 64;
    DigitsOfLast2(n);
    ValueOfChar(p);
    ValueOfChar(q);
    ValueOfChar(r);
    QuadOfChars(CharOf(p), CharOf(q), CharOf(r), '=');
  }

  lemma TripleInRange(a: Byte, b: Byte, c: Byte)
    ensures 0 <= Triple(a, b, c) < 0x100_0000
  {
  }

  lemma FilledRest(b: seq<Byte>)
    requires |b| >= 3
    ensures |Filled(b)| >= 3 && Filled(b)[..3] == b[..3] && Filled(b)[3..] == Filled(b[3..])
  {
    assert |b[3..]| % 3 == |b| % 3;
  }

  lemma FirstLetters(acc: nat, b: seq<Byte>)
    requires |b| >= 3
    ensures 0 <= Triple(b[0], b[1], b[2])
    ensures Number64(acc, Encode(b)) == Number64(acc * 0x100_0000 + Triple(b[0], b[1], b[2]), Encode(b[3..]))
  {
    var n := Triple(b[0], b[1], b[2]);
    TripleInRange(b[0], b[1], b[2]);
    QuadOfLetters(n);
    Number64Group(acc, Letters(n), Encode(b[3..]));
  }

  lemma FirstBytes(acc: nat, b: seq<Byte>)
    requires |b| >= 3
    ensures 0 <= Triple(b[0], b[1], b[2])
    ensures Number256(acc, Filled(b)) == Number256(acc * 0x100_0000 + Triple(b[0], b[1], b[2]), Filled(b[3..]))
  {
    var f := Filled(b);
    FilledRest(b);
    assert f[0] == f[..3][0] == b[0] && f[1] == f[..3][1] == b[1] && f[2] == f[..3][2] == b[2];
    Number256Group(acc, f);
  }

  /** The letters are the base-64 digits of the bytes, read as one number, filled with zeros to a multiple of three. */
  lemma {:induction false} LettersAreDigits(acc: nat, b: seq<Byte>)
    ensures Number64(acc, Encode(b)) == Number256(acc, Filled(b))
    decreases |b|
  {
    if |b| == 1 || |b| == 2 {
      LastDigits(acc, b);
    } else if |b| >= 3 {
      FirstLetters(acc, b);
      FirstBytes(acc, b);
      LettersAreDigits(acc * 0x100_0000 + Triple(b[0], b[1], b[2]), b[3..]);
    }
  }

  lemma LastDigits(acc: nat, b: seq<Byte>)
    requires |b| == 1 || |b| == 2
    ensures Number64(acc, Encode(b)) == Number256(acc, Filled(b))
  {
    hide ValueOf, CharOf;
    var f, t := Filled(b), Encode(b);
    Number256Group(acc, f);
    Number64Group(acc, t, "");
    assert t + "" == t && f[3..] == [];
    if |b| == 1 {
      QuadOfLast1(b[0]);
    } else {
      QuadOfLast2(b[0], b[1]);
    }
  }

  // ---------------------------------------------------------------- the round trip

  lemma GroupsFront(x: string, rest: string, limit: int)
    requires |x| == 4 && |rest| % 4 == 0 && 0 < limit <= 4 + |rest|
    ensures |x + rest| % 4 == 0 && Groups(x + rest, limit) == Bytes3(Quad(x)) + Groups(rest, limit - 4)
  {
    assert (x + rest)[..4] == x && (x + rest)[4..] == rest;
  }

  /** The letters of one triple. */
  lemma TripleDecodes(a: Byte, b: Byte, c: Byte)
    ensures 0 <= Triple(a, b, c) < 0x100_0000 && '=' !in Letters(Triple(a, b, c))
    ensures Bytes3(Quad(Letters(Triple(a, b, c)))) == [a, b, c]
  {
    BytesOfTriple(a, b, c);
    QuadOfLetters(Triple(a, b, c));
  }

  lemma Front3(b: seq<Byte>)
    requires |b| >= 3
    ensures [b[0], b[1], b[2]] + b[3..] == b
  {
  }

  lemma {:induction false} NoPadInTriples(b: seq<Byte>)
    ensures '=' !in EncodeTriples(b)
    decreases |b|
  {
    if |b| >= 3 {
      TripleDecodes(b[0], b[1], b[2]);
      NoPadInTriples(b[3..]);
    }
  }

  /** The groups of the letters of k triples give the bytes back. */
  lemma {:induction false} TriplesDecode(b: seq<Byte>, k: nat)
    requires |b| == 3 * k
    ensures |EncodeTriples(b)| == 4 * k && 4 * k % 4 == 0
    ensures Groups(EncodeTriples(b), 4 * k) == b
    decreases k
  {
    Multiples(k);
    if k > 0 {
      var n, rest := Triple(b[0], b[1], b[2]), EncodeTriples(b[3..]);
      TripleDecodes(b[0], b[1], b[2]);
      TriplesDecode(b[3..], k - 1);
      GroupsFront(Letters(n), rest, 4 * k);
      assert EncodeTriples(b) == Letters(n) + rest;
      Front3(b);
    }
  }

  lemma PadOfLast(b: seq<Byte>)
    requires |b| < 3
    ensures |Encode(b)| == (if |b| == 0 then 0 else 4) && FirstPad(Encode(b)) == if |b| == 0 then 0 else |b| + 1
  {
    if |b| == 1 {
      PadAfter(Last1(b[0])[..2], "==");
      assert Last1(b[0])[..2] + "==" == Last1(b[0]);
    } else if |b| == 2 {
      var t := Last2(Double(b[0], b[1]));
      PadAfter(t[..3], "=");
      assert t[..3] + "=" == t;
    }
  }

  lemma {:induction false} PadAfter(x: string, t: string)
    requires '=' !in x
    ensures FirstPad(x + t) == |x| + FirstPad(t)
    decreases |x|
  {
    if |x| == 0 {
      assert x + t == t;
    } else {
      assert (x + t)[1..] == x[1..] + t;
      PadAfter(x[1..], t);
    }
  }

  /** Groups that start before the limit do not look further. */
  lemma {:induction false} GroupsOfPrefix(t: string, l: nat)
    requires |t| % 4 == 0 && l % 4 == 0 && l <= |t|
    ensures Groups(t, l) == Groups(t[..l], l)
    decreases |t|
  {
    hide Quad, Bytes3;
    if l > 0 {
      GroupsOfPrefix(t[4..], l - 4);
      assert t[..l][..4] == t[..4] && t[..l][4..] == t[4..][..l - 4];
    }
  }

  /** The bytes of the incomplete group come back. */
  lemma RestOfLast1(a: Byte, t: string, l: nat)
    requires l + 4 <= |t| && t[l..l + 4] == Last1(a)
    ensures Rest(t, l, 2) == [a]
  {
    var e := Last1(a);
    assert t[l] == e[0] && t[l + 1] == e[1];
    ValueOfChar(a / 4);
    ValueOfChar(a * 16 % 64);
    LastByte(a);
  }

  lemma RestOfLast2(a: Byte, b: Byte, t: string, l: nat)
    requires l + 4 <= |t| && t[l..l + 4] == Last2(Double(a, b))
    ensures Rest(t, l, 1) == [a, b]
  {
    var n := Double(a, b);
    var e := Last2(n);
    assert t[l] == e[0] && t[l + 1] == e[1] && t[l + 2] == e[2];
    ValueOfChar(n / 0x400);
    ValueOfChar(n / 16 % 64);
    ValueOfChar(n * 4 % 64);
    LastTwo(n);
    DoubleBytes(a, b);
  }

  lemma DoubleBytes(a: Byte, b: Byte)
    ensures Double(a, b) / 0x100 % 0x100 == a && Double(a, b) % 0x100 == b
  {
  }

  lemma LastByte(a: int)
    requires 0 <= a < 0x100
    ensures (a / 4 * 4 + a * 16 % 64 / 16) % 0x100 == a
  {
    assert a == 4 * (a / 4) + a % 4 && a * 16 % 64 == 16 * (a % 4);
  }

  lemma LastTwo(n: int)
    requires 0 <= n < 0x1_0000
    ensures n / 0x400 * 0x400 + n / 16 % 64 * 16 + n * 4 % 64 / 4 == n
  {
    var q := n / 16;
    assert n == 16 * q + n % 16 && q == 64 * (q / 64) + q % 64 && q / 64 == n / 0x400;
    assert n * 4 % 64 == 4 * (n % 16);
  }

  /** Decoding undoes encoding, for every sequence of bytes. */
  lemma RoundTrip(b: seq<Byte>)
    ensures Decode(Encode(b)) == Some(b)
  {
    var k, r := |b| / 3, |b| % 3;
    assert |b| == 3 * k + r;
    RoundTripOf(b, b[..3 * k], b[3 * k..], k);
  }

  lemma RoundTripOf(b: seq<Byte>, front: seq<Byte>, last: seq<Byte>, k: nat)
    requires b == front + last && |front| == 3 * k && |last| < 3
    ensures Decode(Encode(b)) == Some(b)
  {
    hide Encode, Written, Size;
    EncodeSplit(b, 3 * k);
    assert b[..3 * k] == front && b[3 * k..] == last;
    RoundTripText(front, last, k);
    assert b + Zeros(0) == b;
  }

  lemma RoundTripText(front: seq<Byte>, last: seq<Byte>, k: nat)
    requires |front| == 3 * k && |last| < 3
    ensures var t := EncodeTriples(front) + Encode(last);
      |t| % 4 == 0 && Size(t) == |front + last| && Written(t) == front + last
  {
    hide EncodeTriples, Encode, FirstPad, Groups, Written, Size, Pads, Limit;
    var x, y := EncodeTriples(front), Encode(last);
    var t := x + y;
    TriplesDecode(front, k);
    NoPadInTriples(front);
    PadOfLast(last);
    PadAfter(x, y);
    Sizes(t, k, |last|);
    Multiples(k);
    assert t[..4 * k] == x && t[4 * k..] == y;
    RoundTripWritten(front, last, t, k);
  }

  lemma RoundTripWritten(front: seq<Byte>, last: seq<Byte>, t: string, k: nat)
    requires |t| % 4 == 0 && 4 * k <= |t| && 4 * k % 4 == 0 && GroupCount(4 * k) == k
    requires |last| < 3 && t[4 * k..] == Encode(last)
    requires Groups(t[..4 * k], 4 * k) == front
    requires Pads(t) == (if |last| == 0 then 0 else 3 - |last|) && Limit(t) <= |t| && GroupCount(Limit(t)) == k
    ensures Written(t) == front + last
  {
    SameCount(t, Limit(t), 4 * k);
    GroupsOfPrefix(t, 4 * k);
    RestInside(t);
    if |last| == 1 {
      assert t[4 * k..4 * k + 4] == t[4 * k..] == Last1(last[0]);
      RestOfLast1(last[0], t, 4 * k);
      assert last == [last[0]];
    } else if |last| == 2 {
      assert t[4 * k..4 * k + 4] == t[4 * k..] == Last2(Double(last[0], last[1]));
      RestOfLast2(last[0], last[1], t, 4 * k);
      assert last == [last[0], last[1]];
    }
  }

  /** Padding, limit and size of a text of the shape of an encoding. */
  lemma Sizes(t: string, k: nat, r: nat)
    requires r < 3 && |t| == 4 * k + (if r == 0 then 0 else 4)
    requires FirstPad(t) == 4 * k + (if r == 0 then 0 else r + 1)
    ensures |t| % 4 == 0 && Pads(t) == (if r == 0 then 0 else 3 - r)
    ensures Limit(t) <= |t| && GroupCount(Limit(t)) == k && Size(t) == 3 * k + r
  {
    hide FirstPad;
    Multiples(k);
    if r == 0 {
      assert Size(t) == 3 * (4 * k) / 4;
    } else {
      assert (4 * k + r + 1) % 4 == r + 1;
      assert Size(t) == 3 * (4 * k + 4) / 4 - Pads(t);
    }
  }

  // ---------------------------------------------------------------- canonical texts

  predicate IsLetter(c: char) {
    CharOf(ValueOf(c)) == c
  }

  predicate WholeGroup(g: string)
    requires |g| == 4
  {
    IsLetter(g[0]) && IsLetter(g[1]) && IsLetter(g[2]) && IsLetter(g[3])
  }

  /** A group that ends in padding, with the bits that do not belong to a byte all zero. */
  predicate PaddedGroup(g: string)
    requires |g| == 4
  {
    && IsLetter(g[0]) && IsLetter(g[1]) && g[3] == '='
    && if g[2] == '=' then ValueOf(g[1]) % 16 == 0 else IsLetter(g[2]) && ValueOf(g[2]) % 4 == 0
  }

  /** Groups of four letters of the alphabet, of which the last may be padded. */
  predicate Canonical(t: string) {
    |t| == 0
    || (|t| >= 4 && if |t| == 4 then WholeGroup(t) || PaddedGroup(t) else WholeGroup(t[..4]) && Canonical(t[4..]))
  }

  lemma LettersWhole(n: int)
    requires 0 <= n < 0x100_0000
    ensures WholeGroup(Letters(n))
  {
    hide CharOf, ValueOf;
    ValueOfChar(n / 0x4_0000 % 64);
    ValueOfChar(n / 0x1000 % 64);
    ValueOfChar(n / 64 % 64);
    ValueOfChar(n % 64);
  }

  lemma Last1Padded(a: int)
    requires 0 <= a < 0x100
    ensures PaddedGroup(Last1(a))
  {
    hide CharOf, ValueOf;
    ValueOfChar(a / 4);
    ValueOfChar(a * 16 % 64);
    assert a * 16 % 64 == 16 * (a % 4);
  }

  lemma Last2Padded(n: int)
    requires 0 <= n < 0x1_0000
    ensures PaddedGroup(Last2(n))
  {
    hide CharOf, ValueOf;
    ValueOfChar(n / 0x400);
    ValueOfChar(n / 16 % 64);
    ValueOfChar(n * 4 % 64);
    assert n * 4 % 64 == 4 * (n % 16);
  }

  lemma {:induction false} EncodingIsCanonical(b: seq<Byte>)
    ensures Canonical(Encode(b))
    decreases |b|
  {
    hide WholeGroup, PaddedGroup, Letters, Last1, Last2;
    if |b| == 1 {
      Last1Padded(b[0]);
    } else if |b| == 2 {
      Last2Padded(Double(b[0], b[1]));
    } else if |b| >= 3 {
      TripleInRange(b[0], b[1], b[2]);
      var x, rest := Letters(Triple(b[0], b[1], b[2])), Encode(b[3..]);
      LettersWhole(Triple(b[0], b[1], b[2]));
      EncodingIsCanonical(b[3..]);
      assert (x + rest)[..4] == x && (x + rest)[4..] == rest;
      assert |rest| == 0 ==> x + rest == x;
    }
  }

  /** The digits of a number made from four digits. */
  lemma DigitsBack(p: int, q: int, r: int, s: int)
    requires 0 <= p < 64 && 0 <= q < 64 && 0 <= r < 64 && 0 <= s < 64
    ensures var n := p * 0x4_0000 + q * 0x1000 + r * 64 + s;
      n / 0x4_0000 % 64 == p && n / 0x1000 % 64 == q && n / 64 % 64 == r && n % 64 == s
  {
    var n := p * 0x4_0000 + q * 0x1000 + r * 64 + s;
    assert n / 64 == p * 0x1000 + q * 64 + r;
    assert n / 0x1000 == p * 64 + q;
    assert n / 0x4_0000 == p;
  }

  lemma LettersOfQuad(g: string)
    requires |g| == 4 && WholeGroup(g)
    ensures Letters(Quad(g)) == g
  {
    DigitsBack(ValueOf(g[0]), ValueOf(g[1]), ValueOf(g[2]), ValueOf(g[3]));
    assert g == [g[0], g[1], g[2], g[3]];
  }

  lemma TripleOfBytes(n: int)
    requires 0 <= n < 0x100_0000
    ensures var b := Bytes3(n); |b| == 3 && Triple(b[0], b[1], b[2]) == n
  {
    var m := n / 0x100;
    assert n == 0x100 * m + n % 0x100 && m == 0x100 * (m / 0x100) + m % 0x100 && m / 0x100 == n / 0x1_0000;
  }

  lemma LastOfPadded1(g: string)
    requires |g| == 4 && PaddedGroup(g) && g[2] == '='
    ensures var a := ValueOf(g[0]) * 4 + ValueOf(g[1]) / 16; 0 <= a < 0x100 && Last1(a) == g
  {
    var p, q := ValueOf(g[0]), ValueOf(g[1]);
    var k := q / 16;
    assert q == 16 * k && 0 <= k < 4;
    var a := p * 4 + k;
    assert a / 4 == p && a * 16 == 64 * p + q && a * 16 % 64 == q;
    assert g == [g[0], g[1], g[2], g[3]];
  }

  lemma LastOfPadded2(g: string)
    requires |g| == 4 && PaddedGroup(g) && g[2] != '='
    ensures var n := ValueOf(g[0]) * 0x400 + ValueOf(g[1]) * 16 + ValueOf(g[2]) / 4;
      0 <= n < 0x1_0000 && Last2(n) == g
  {
    var p, q, r := ValueOf(g[0]), ValueOf(g[1]), ValueOf(g[2]);
    var k := r / 4;
    assert r == 4 * k && 0 <= k < 16;
    var n := p * 0x400 + q * 16 + k;
    assert n / 16 == p * 64 + q && n / 0x400 == p && n / 16 % 64 == q;
    assert n * 4 == 64 * (p * 64 + q) + r && n * 4 % 64 == r;
    assert g == [g[0], g[1], g[2], g[3]];
  }

  /** Every canonical text is the encoding of some bytes. */
  lemma {:induction false} CanonicalIsEncoding(t: string) returns (b: seq<Byte>)
    requires Canonical(t)
    ensures Encode(b) == t
    decreases |t|
  {
    hide ValueOf, PaddedGroup, WholeGroup;
    if |t| == 0 {
      b := [];
    } else if |t| == 4 && PaddedGroup(t) {
      b := BytesOfPadded(t);
    } else {
      var g := t[..4];
      assert |t| == 4 ==> t == g && t[4..] == "";
      var rest := CanonicalIsEncoding(t[4..]);
      b := Bytes3(Quad(g)) + rest;
      TripleOfBytes(Quad(g));
      LettersOfQuad(g);
      assert b[3..] == rest && t == g + t[4..];
    }
  }

  lemma BytesOfPadded(g: string) returns (b: seq<Byte>)
    requires |g| == 4 && PaddedGroup(g)
    ensures Encode(b) == g
  {
    if g[2] == '=' {
      LastOfPadded1(g);
      b := [ValueOf(g[0]) * 4 + ValueOf(g[1]) / 16];
    } else {
      LastOfPadded2(g);
      var n := ValueOf(g[0]) * 0x400 + ValueOf(g[1]) * 16 + ValueOf(g[2]) / 4;
      b := [n / 0x100, n % 0x100];
      assert Double(n / 0x100, n % 0x100) == n;
    }
  }

  /** Encoding what a text decodes to gives the text back exactly when it is canonical. */
  lemma TextRoundTripIffCanonical(t: string)
    ensures (Decode(t).Some? && Encode(Decode(t).value) == t) <==> Canonical(t)
  {
    hide Decode, Encode, Canonical;
    if Canonical(t) {
      var b := CanonicalIsEncoding(t);
      RoundTrip(b);
    } else if Decode(t).Some? {
      EncodingIsCanonical(Decode(t).value);
    }
  }

  // ---------------------------------------------------------------- other texts

  /** A character of neither alphabet counts as 0. */
  lemma OtherLetters(c: char)
    requires c != '-' && c != '_' && !IsLetter(c)
    ensures ValueOf(c) == 0
  {
  }

  /** A text is refused exactly for its length, or when it begins with padding. */
  lemma RefusedIff(t: string)
    ensures Decode(t).None? <==> |t| % 4 != 0 || (|t| > 0 && t[0] == '=')
  {
    if |t| % 4 == 0 {
      var n := FirstPad(t);
      PadSize(n, if n == |t| then 0 else 4 - n % 4);
      assert n == 0 <==> |t| == 0 || t[0] == '=';
    }
  }

  lemma PadSize(n: nat, u: nat)
    requires u == (if n % 4 == 0 then 0 else 4 - n % 4) || u == 4 - n % 4
    ensures 3 * (n + u) / 4 - u < 0 <==> n == 0 && u == 4
  {
    var k := (n + u) / 4;
    assert n + u == 4 * k && 3 * (4 * k) / 4 == 3 * k;
  }

  /** Padding where a group should begin costs the group before it: two zero bytes stand for its three. */
  lemma MisplacedPadding(t: string, k: nat)
    requires |t| % 4 == 0 && FirstPad(t) == 4 * k + 4 < |t|
    ensures 4 * k <= |t| && Decode(t) == Some(Groups(t, 4 * k) + [0, 0])
  {
    hide FirstPad, Groups;
    assert (4 * k + 4) % 4 == 0;
    assert Pads(t) == 4 && Limit(t) == 4 * k;
    assert Size(t) == 3 * (4 * (k + 2)) / 4 - 4;
    Multiples(k);
    assert Size(t) == 3 * k + 2 && |Written(t)| == 3 * k;
    assert Written(t) == Groups(t, 4 * k);
    assert Zeros(2) == [0, 0];
  }

  // ---------------------------------------------------------------- lenient decoding

  /** The letters of the URL-safe alphabet stand for the same values. */
  function UrlSafe(t: string): (u: string)
    ensures |u| == |t|
    ensures forall i :: 0 <= i < |t| ==> u[i] == (if t[i] == '+' then '-' else if t[i] == '/' then '_' else t[i])
  {
    seq(|t|, i requires 0 <= i < |t| => if t[i] == '+' then '-' else if t[i] == '/' then '_' else t[i])
  }

  ghost predicate SameLetters(t: string, u: string) {
    |t| == |u| && forall i :: 0 <= i < |t| ==> ValueOf(t[i]) == ValueOf(u[i]) && (t[i] == '=' <==> u[i] == '=')
  }

  lemma SameQuad(t: string, u: string)
    requires SameLetters(t, u) && |t| >= 4
    ensures Quad(t[..4]) == Quad(u[..4])
  {
    assert ValueOf(t[0]) == ValueOf(u[0]) && ValueOf(t[1]) == ValueOf(u[1]);
    assert ValueOf(t[2]) == ValueOf(u[2]) && ValueOf(t[3]) == ValueOf(u[3]);
  }

  lemma {:induction false} SameGroups(t: string, u: string, limit: int)
    requires SameLetters(t, u) && |t| % 4 == 0 && limit <= |t|
    ensures Groups(t, limit) == Groups(u, limit)
    decreases |t|
  {
    hide ValueOf, Quad, Bytes3;
    if limit > 0 {
      SameQuad(t, u);
      assert SameLetters(t[4..], u[4..]);
      SameGroups(t[4..], u[4..], limit - 4);
    }
  }

  lemma SamePad(t: string, u: string)
    requires SameLetters(t, u)
    ensures FirstPad(t) == FirstPad(u)
  {
    var m, n := FirstPad(t), FirstPad(u);
    assert m < |t| ==> u[m] == '=';
    assert n < |u| ==> t[n] == '=';
  }

  lemma SameRest(t: string, u: string, l: nat, pads: int)
    requires SameLetters(t, u)
    requires pads == 2 ==> l + 1 < |t|
    requires pads == 1 ==> l + 2 < |t|
    ensures Rest(t, l, pads) == Rest(u, l, pads)
  {
  }

  lemma SameWritten(t: string, u: string)
    requires |t| == |u| && SameLetters(t, u) && |t| % 4 == 0 && FirstPad(t) == FirstPad(u)
    ensures Written(t) == Written(u)
  {
    hide Groups, Rest, ValueOf, SameLetters, GroupCount;
    assert Pads(t) == Pads(u) && Limit(t) == Limit(u);
    RestInside(t);
    SameGroups(t, u, Limit(t));
    SameRest(t, u, 4 * GroupCount(Limit(t)), Pads(t));
  }

  /** Only the values of the letters and the padding matter. */
  lemma SameLettersDecodeSame(t: string, u: string)
    requires SameLetters(t, u)
    ensures Decode(t) == Decode(u)
  {
    hide ValueOf, FirstPad, Written;
    SamePad(t, u);
    if |t| % 4 == 0 {
      SameWritten(t, u);
    }
  }

  /** Both alphabets decode to the bytes that were encoded. */
  lemma UrlSafeRoundTrip(b: seq<Byte>)
    ensures Decode(UrlSafe(Encode(b))) == Some(b)
  {
    SameLettersDecodeSame(UrlSafe(Encode(b)), Encode(b));
    RoundTrip(b);
  }
}

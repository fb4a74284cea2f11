/** The base64 codec: section 4 of RFC 4648, with the URL-safe letters accepted when decoding. */
module Base64 {
  import opened Wrappers

  type Byte = x: int | 0 <= x < 0x100

  const MAX_CHUNK: nat := 16383

  function CharOf(v: int): (c: char)
    requires 0 <= v < 64
    ensures c != '='
  {
    if v < 26 then 'A' + v as char
    else if v < 52 then 'a' + (v - 26) as char
    else if v < 62 then '0' + (v - 52) as char
    else if v == 62 then '+' else '/'
  }

  /** The value of a letter; a character outside the alphabet counts as 0. */
  function ValueOf(c: char): (v: int)
    ensures 0 <= v < 64
  {
    if 'A' <= c <= 'Z' then (c - 'A') as int
    else if 'a' <= c <= 'z' then (c - 'a') as int + 26
    else if '0' <= c <= '9' then (c - '0') as int + 52
    else if c == '+' || c == '-' then 62
    else if c == '/' || c == '_' then 63
    else 0
  }

  // ---------------------------------------------------------------- encoding

  function Triple(a: int, b: int, c: int): int {
    a * 0x1_0000 + b * 0x100 + c
  }

  function Letters(n: int): (s: string)
    requires 0 <= n < 0x100_0000
    ensures |s| == 4
  {
    [CharOf(n / 0x4_0000 % 64), CharOf(n / 0x1000 % 64), CharOf(n / 64 % 64), CharOf(n % 64)]
  }

  /** The letters and padding of one and of two bytes that are left. */
  function Last1(a: int): (s: string)
    requires 0 <= a < 0x100
    ensures |s| == 4
  {
    [CharOf(a / 4), CharOf(a * 16 % 64), '=', '=']
  }

  function Last2(n: int): (s: string)
    requires 0 <= n < 0x1_0000
    ensures |s| == 4
  {
    [CharOf(n / 0x400), CharOf(n / 16 % 64), CharOf(n * 4 % 64), '=']
  }

  function Double(a: int, b: int): int {
    a * 0x100 + b
  }

  /** Three bytes to four letters, with padding at the end. */
  function Encode(b: seq<Byte>): string {
    if |b| == 0 then ""
    else if |b| == 1 then Last1(b[0])
    else if |b| == 2 then Last2(Double(b[0], b[1]))
    else Letters(Triple(b[0], b[1], b[2])) + Encode(b[3..])
  }

  /** The letters of whole triples. */
  function EncodeTriples(b: seq<Byte>): string {
    if |b| < 3 then "" else Letters(Triple(b[0], b[1], b[2])) + EncodeTriples(b[3..])
  }

  lemma {:induction false} EncodeSplit(b: seq<Byte>, n: nat)
    requires n <= |b| && n % 3 == 0
    ensures Encode(b) == EncodeTriples(b[..n]) + Encode(b[n..])
    decreases n
  {
    if n == 0 {
      assert b[0..] == b;
    } else {
      EncodeSplit(b[3..], n - 3);
      assert b[..n][3..] == b[3..][..n - 3] && b[3..][n - 3..] == b[n..];
    }
  }

  lemma {:induction false} TriplesSplit(b: seq<Byte>, n: nat)
    requires n <= |b| && n % 3 == 0
    ensures EncodeTriples(b) == EncodeTriples(b[..n]) + EncodeTriples(b[n..])
    decreases n
  {
    if n == 0 {
      assert b[0..] == b;
    } else {
      TriplesSplit(b[3..], n - 3);
      assert b[..n][3..] == b[3..][..n - 3] && b[3..][n - 3..] == b[n..];
    }
  }

  /** Steps by multiples of three stay among the multiples of three. */
  lemma Step3(x: nat, y: nat, n: nat)
    requires x % 3 == 0 && y % 3 == 0 && x < y && n % 3 == 0
    ensures x + 3 <= y && (x + n) % 3 == 0 && (y - x) % 3 == 0
  {
    var i, j, k := x / 3, y / 3, n / 3;
    assert x == 3 * i && y == 3 * j && n == 3 * k;
    assert x + n == 3 * (i + k) && y - x == 3 * (j - i);
  }

  lemma NextTriple(t: seq<Byte>, from: nat, s: nat)
    requires from <= s && s + 3 <= |t| && (s - from) % 3 == 0
    ensures EncodeTriples(t[from..s + 3]) == EncodeTriples(t[from..s]) + Letters(Triple(t[s], t[s + 1], t[s + 2]))
  {
    var b, last := t[from..s + 3], [t[s], t[s + 1], t[s + 2]];
    TriplesSplit(b, s - from);
    assert b[..s - from] == t[from..s] && b[s - from..] == last;
    assert EncodeTriples(last) == Letters(Triple(t[s], t[s + 1], t[s + 2])) + EncodeTriples(last[3..]);
    assert EncodeTriples(last[3..]) == "";
  }

  /** The letters of t[from..to], triple by triple. */
  method EncodeChunk(t: seq<Byte>, from: nat, to: nat) returns (out: string)
    requires from <= to <= |t| && (to - from) % 3 == 0
    ensures out == EncodeTriples(t[from..to])
  {
    out := "";
    var s := from;
    while s < to
      invariant from <= s <= to && (s - from) % 3 == 0
      invariant out == EncodeTriples(t[from..s])
    {
      Step3(s - from, to - from, 3);
      NextTriple(t, from, s);
      out := out + Letters(Triple(t[s], t[s + 1], t[s + 2]));
      s := s + 3;
    }
  }

  /** Chunk after chunk of at most 16383 bytes. */
  method EncodeChunks(t: seq<Byte>, end: nat) returns (out: string)
    requires end <= |t| && end % 3 == 0
    ensures out == EncodeTriples(t[..end])
  {
    out := "";
    var u := 0;
    while u < end
      invariant u % 3 == 0
      invariant out == EncodeTriples(t[..if u > end then end else u])
    {
      Step3(u, end, MAX_CHUNK);
      var stop := if u + MAX_CHUNK > end then end else u + MAX_CHUNK;
      assert stop - u == MAX_CHUNK || stop == end;
      var chunk := EncodeChunk(t, u, stop);
      TriplesSplit(t[..stop], u);
      assert t[..stop][..u] == t[..u] && t[..stop][u..] == t[u..stop];
      out := out + chunk;
      u := u + MAX_CHUNK;
    }
  }

  /** All chunks, then the one or two bytes that are left. */
  method FromByteArray(t: seq<Byte>) returns (out: string)
    ensures out == Encode(t)
  {
    var extra := |t| % 3;
    var end := |t| - extra;
    out := EncodeChunks(t, end);
    EncodeSplit(t, end);
    if extra == 1 {
      assert t[end..] == [t[|t| - 1]];
      out := out + Last1(t[|t| - 1]);
    } else if extra == 2 {
      assert t[end..] == [t[|t| - 2], t[|t| - 1]];
      out := out + Last2(Double(t[|t| - 2], t[|t| - 1]));
    }
  }

  // ---------------------------------------------------------------- decoding

  /** The position of the first padding character, or the length. */
  function FirstPad(t: string): (n: nat)
    ensures n <= |t|
    ensures n < |t| ==> t[n] == '='
    ensures forall i :: 0 <= i < n ==> t[i] != '='
  {
    if |t| == 0 || t[0] == '=' then 0 else 1 + FirstPad(t[1..])
  }

  /** The 24 bits of four letters. */
  function Quad(t: string): (e: int)
    requires |t| == 4
    ensures 0 <= e < 0x100_0000
  {
    ValueOf(t[0]) * 0x4_0000 + ValueOf(t[1]) * 0x1000 + ValueOf(t[2]) * 64 + ValueOf(t[3])
  }

  function Bytes3(e: int): seq<Byte> {
    [e / 0x1_0000 % 0x100, e / 0x100 % 0x100, e % 0x100]
  }

  /** The bytes of the groups of four that start before the limit. */
  function Groups(t: string, limit: int): seq<Byte>
    requires |t| % 4 == 0 && limit <= |t|
  {
    if limit <= 0 then [] else Bytes3(Quad(t[..4])) + Groups(t[4..], limit - 4)
  }

  /** How many groups start before the limit. */
  function GroupCount(limit: int): nat {
    if limit <= 0 then 0 else (limit + 3) / 4
  }

  /** The bytes of an incomplete group of two or three letters. */
  function Rest(t: string, l: nat, pads: int): seq<Byte>
    requires pads == 2 ==> l + 1 < |t|
    requires pads == 1 ==> l + 2 < |t|
  {
    if pads == 2 then [(ValueOf(t[l]) * 4 + ValueOf(t[l + 1]) / 16) % 0x100]
    else if pads == 1 then
      var e := ValueOf(t[l]) * 0x400 + ValueOf(t[l + 1]) * 16 + ValueOf(t[l + 2]) / 4;
      [e / 0x100 % 0x100, e % 0x100]
    else []
  }

  function Pads(t: string): (p: int)
    ensures 0 <= p <= 4
  {
    if FirstPad(t) == |t| then 0 else 4 - FirstPad(t) % 4
  }

  /** Where whole groups stop. */
  function Limit(t: string): int {
    if Pads(t) > 0 then FirstPad(t) - 4 else FirstPad(t)
  }

  function Size(t: string): int {
    3 * (FirstPad(t) + Pads(t)) / 4 - Pads(t)
  }

  /** The letters of the incomplete group lie inside the text, and all bytes fit the announced size. */
  lemma RestInside(t: string)
    requires |t| % 4 == 0
    ensures Limit(t) <= |t|
    ensures Pads(t) == 2 ==> 4 * GroupCount(Limit(t)) + 1 < |t|
    ensures Pads(t) == 1 ==> 4 * GroupCount(Limit(t)) + 2 < |t|
    ensures Size(t) >= 0 ==>
      3 * GroupCount(Limit(t)) + (if Pads(t) == 2 then 1 else if Pads(t) == 1 then 2 else 0) <= Size(t)
  {
    var n := FirstPad(t);
    var k := n / 4;
    assert n == 4 * k + n % 4;
    if n < |t| {
      if n % 4 == 0 {
        assert Pads(t) == 4 && Size(t) == 3 * (k + 1) - 4;
      } else {
        assert Pads(t) == 4 - n % 4 && n + Pads(t) == 4 * (k + 1) && Size(t) == 3 * (k + 1) - Pads(t);
      }
    }
  }

  lemma CountNext(limit: int)
    ensures GroupCount(limit) == if limit <= 0 then 0 else 1 + GroupCount(limit - 4)
  {
  }

  lemma {:induction false} GroupsLength(t: string, limit: int)
    requires |t| % 4 == 0 && limit <= |t|
    ensures |Groups(t, limit)| == 3 * GroupCount(limit)
    decreases |t|
  {
    hide Quad, GroupCount;
    CountNext(limit);
    if limit > 0 {
      GroupsLength(t[4..], limit - 4);
    }
  }

  function Zeros(n: nat): seq<Byte> {
    seq(n, _ => 0)
  }

  /** The bytes the text stands for, before the array is filled up. */
  function Written(t: string): (b: seq<Byte>)
    requires |t| % 4 == 0
    ensures |b| == 3 * GroupCount(Limit(t)) + (if Pads(t) == 2 then 1 else if Pads(t) == 1 then 2 else 0)
  {
    RestInside(t);
    GroupsLength(t, Limit(t));
    Groups(t, Limit(t)) + Rest(t, 4 * GroupCount(Limit(t)), Pads(t))
  }

  /** The bytes, filled up with zeros to the announced size; None where the decoder throws. */
  function Decode(t: string): Option<seq<Byte>> {
    if |t| % 4 != 0 || Size(t) < 0 then None
    else
      RestInside(t);
      Some(Written(t) + Zeros(Size(t) - |Written(t)|))
  }

  /** One more group. */
  lemma {:induction false} GroupsNext(t: string, limit: int, l: nat)
    requires |t| % 4 == 0 && limit <= |t| && l % 4 == 0 && l < limit
    ensures l + 4 <= |t|
    ensures Groups(t, l + 4) == Groups(t, l) + Bytes3(Quad(t[l..l + 4]))
    decreases l
  {
    if l == 0 {
      assert Groups(t[4..], 0) == [];
    } else {
      GroupsNext(t[4..], limit - 4, l - 4);
      assert t[4..][l - 4..l] == t[l..l + 4];
      Assoc(Bytes3(Quad(t[..4])), Groups(t[4..], l - 4), Bytes3(Quad(t[l..l + 4])));
    }
  }

  /** Only how many groups start before the limit matters. */
  lemma {:induction false} SameCount(t: string, m: int, n: int)
    requires |t| % 4 == 0 && m <= |t| && n <= |t| && GroupCount(m) == GroupCount(n)
    ensures Groups(t, m) == Groups(t, n)
    decreases |t|
  {
    if m > 0 {
      SameCount(t[4..], m - 4, n - 4);
    }
  }

  /** Writes the next byte of an array that is still zero from a on. */
  method Append(s: array<Byte>, a: nat, v: Byte, ghost done: seq<Byte>) returns (next: nat)
    requires a == |done| < s.Length && s[..] == done + Zeros(s.Length - a)
    modifies s
    ensures next == a + 1 && s[..] == done + [v] + Zeros(s.Length - next)
  {
    ghost var was := s[..];
    s[a] := v;
    assert s[..] == was[..a] + [v] + was[a + 1..];
    next := a + 1;
  }

  method AppendGroup(s: array<Byte>, a: nat, e: int, ghost done: seq<Byte>) returns (next: nat)
    requires a == |done| && a + 3 <= s.Length && s[..] == done + Zeros(s.Length - a)
    modifies s
    ensures next == a + 3 && s[..] == done + Bytes3(e) + Zeros(s.Length - next)
  {
    ghost var b := Bytes3(e);
    next := Append(s, a, e / 0x1_0000 % 0x100, done);
    next := Append(s, next, e / 0x100 % 0x100, done + b[..1]);
    assert done + b[..1] + [b[1]] == done + b[..2];
    next := Append(s, next, e % 0x100, done + b[..2]);
    assert done + b[..2] + [b[2]] == done + b;
  }

  /** The bytes of the incomplete group, if there is one. */
  method AppendRest(t: string, l: nat, u: int, s: array<Byte>, a: nat, ghost done: seq<Byte>)
    requires u == 2 ==> l + 1 < |t|
    requires u == 1 ==> l + 2 < |t|
    requires a == |done| && a + |Rest(t, l, u)| <= s.Length && s[..] == done + Zeros(s.Length - a)
    modifies s
    ensures s[..] == done + Rest(t, l, u) + Zeros(s.Length - a - |Rest(t, l, u)|)
  {
    if u == 2 {
      var e := ValueOf(t[l]) * 4 + ValueOf(t[l + 1]) / 16;
      var _ := Append(s, a, e % 0x100, done);
    }
    if u == 1 {
      var e := ValueOf(t[l]) * 0x400 + ValueOf(t[l + 1]) * 16 + ValueOf(t[l + 2]) / 4;
      var next := Append(s, a, e / 0x100 % 0x100, done);
      next := Append(s, next, e % 0x100, done + [e / 0x100 % 0x100]);
      assert done + [e / 0x100 % 0x100] + [e % 0x100] == done + Rest(t, l, u);
    }
    assert Rest(t, l, u) == [] ==> done + Rest(t, l, u) == done;
  }

  lemma Multiples(g: nat)
    ensures 4 * g % 4 == 0 && GroupCount(4 * g) == g
  {
  }

  /** One round of the loop over groups. */
  lemma NextGroup(t: string, limit: int, g: nat)
    requires |t| % 4 == 0 && limit <= |t| && 4 * g < limit
    ensures g < GroupCount(limit) && 4 * g + 4 <= |t|
    ensures |Groups(t, 4 * g)| == 3 * g && |Groups(t, 4 * g + 4)| == 3 * (g + 1)
    ensures Groups(t, 4 * g + 4) == Groups(t, 4 * g) + Bytes3(Quad(t[4 * g..4 * g + 4]))
  {
    Multiples(g);
    Multiples(g + 1);
    GroupsNext(t, limit, 4 * g);
    GroupsLength(t, 4 * g);
    GroupsLength(t, 4 * (g + 1));
  }

  method FillGroups(t: string, limit: int, s: array<Byte>) returns (l: nat, a: nat)
    requires |t| % 4 == 0 && limit <= |t| && 3 * GroupCount(limit) <= s.Length && s[..] == Zeros(s.Length)
    modifies s
    ensures l == 4 * GroupCount(limit) && a == |Groups(t, limit)| <= s.Length
    ensures s[..] == Groups(t, limit) + Zeros(s.Length - a)
  {
    hide Quad, Bytes3;
    l, a := 0, 0;
    ghost var g := 0;
    assert Groups(t, 0) + Zeros(s.Length) == Zeros(s.Length);
    while l < limit
      invariant l == 4 * g && a == 3 * g && g <= GroupCount(limit) && l <= |t|
      invariant |Groups(t, l)| == a
      invariant s[..] == Groups(t, l) + Zeros(s.Length - a)
    {
      NextGroup(t, limit, g);
      a := AppendGroup(s, a, Quad(t[l..l + 4]), Groups(t, l));
      l := l + 4;
      g := g + 1;
    }
    SameCount(t, l, limit);
  }

  /** The array is allocated, filled group by group, and finished with the incomplete group. */
  method ToByteArray(t: string) returns (r: Option<array<Byte>>)
    ensures r.Some? <==> Decode(t).Some?
    ensures r.Some? ==> fresh(r.value) && r.value[..] == Decode(t).value
  {
    if |t| % 4 != 0 || Size(t) < 0 {
      return None;
    }
    RestInside(t);
    GroupsLength(t, Limit(t));
    var s := new Byte[Size(t)](_ => 0);
    assert s[..] == Zeros(s.Length);
    var l, a := FillGroups(t, Limit(t), s);
    AppendRest(t, l, Pads(t), s, a, Groups(t, Limit(t)));
    r := Some(s);
  }
}

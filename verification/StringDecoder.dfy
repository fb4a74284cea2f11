/**
 * The streaming UTF-8 decoder: it is fed chunks that may cut a character anywhere and keeps the bytes of
 * an unfinished character until the rest arrives.
 */
module StringDecoder {
  import opened Wrappers
  import opened Utf8

  /** The decoder's three fields; lastChar is its four-byte buffer. */
  datatype State = State(lastNeed: int, lastTotal: int, lastChar: seq<Byte>)

  ghost predicate Valid(d: State) {
    && |d.lastChar| == 4
    && 0 <= d.lastNeed <= 3
    && (d.lastNeed > 0 ==> d.lastNeed < d.lastTotal <= 4)
  }

  /** What kind of byte this is: 0 ASCII, 2..4 the first of so many, -1 a continuation, -2 anything else. */
  function ByteType(b: Byte): int {
    if b <= 0x7F then 0
    else if b / 0x20 == 6 then 2
    else if b / 0x10 == 14 then 3
    else if b / 0x08 == 30 then 4
    else if b / 0x40 == 2 then -1
    else -2
  }

  /** Looks at the last three bytes for a character they leave unfinished: the bytes it needs and its length. */
  function Incomplete(t: seq<Byte>, i: nat, need: int): (r: (int, int))
    requires i < |t|
  {
    var j := |t| - 1;
    var b := ByteType(t[j]);
    if b >= 0 then (if b > 0 then b - 1 else need, b)
    else if j - 1 < i || b == -2 then (need, 0)
    else
      var b1 := ByteType(t[j - 1]);
      if b1 >= 0 then (if b1 > 0 then b1 - 2 else need, b1)
      else if j - 2 < i || b1 == -2 then (need, 0)
      else
        var b2 := ByteType(t[j - 2]);
        if b2 >= 0 then
          if b2 > 0 then (if b2 == 2 then (need, 0) else (b2 - 3, b2)) else (need, 0)
        else (need, 0)
  }

  /** Bytes written over a part of the buffer. */
  function Copy(to: seq<Byte>, at: nat, from: seq<Byte>): (r: seq<Byte>)
    requires at + |from| <= |to|
    ensures |r| == |to|
  {
    to[..at] + from + to[at + |from|..]
  }

  lemma CopyNext(to: seq<Byte>, at: nat, from: seq<Byte>, b: Byte)
    requires at + |from| < |to|
    ensures Copy(to, at, from)[at + |from| := b] == Copy(to, at, from + [b])
  {
  }

  /** Completes the waiting character from the front of a chunk; None while it still lacks bytes. */
  function AfterFillLast(d: State, t: seq<Byte>): (r: (State, Option<seq<CodeUnit>>))
    requires Valid(d) && d.lastNeed > 0 && |t| > 0
    ensures Valid(r.0) && (r.1.Some? ==> r.0.lastNeed <= |t|)
  {
    var at := d.lastTotal - d.lastNeed;
    if !IsContinuation(t[0]) then (d.(lastNeed := 0), Some([REPLACEMENT]))
    else if d.lastNeed > 1 && |t| > 1 && !IsContinuation(t[1]) then (d.(lastNeed := 1), Some([REPLACEMENT]))
    else if d.lastNeed > 2 && |t| > 2 && !IsContinuation(t[2]) then (d.(lastNeed := 2), Some([REPLACEMENT]))
    else if d.lastNeed <= |t| then
      var buffer := Copy(d.lastChar, at, t[..d.lastNeed]);
      (d.(lastChar := buffer), Some(DecodeAll(buffer[..d.lastTotal])))
    else
      (d.(lastChar := Copy(d.lastChar, at, t), lastNeed := d.lastNeed - |t|), None)
  }

  /** Decodes a chunk from i on, but for the bytes of an unfinished character at its end, which are kept. */
  function AfterScan(d: State, t: seq<Byte>, i: nat, need: int, total: int): (r: (State, seq<CodeUnit>))
    requires |d.lastChar| == 4 && i <= |t|
    requires need != 0 ==> i <= |t| - (total - need) && 0 < total - need <= 4
  {
    if need == 0 then (d, DecodeAll(t[i..]))
    else
      var end := |t| - (total - need);
      (State(need, total, Copy(d.lastChar, 0, t[end..])), DecodeAll(t[i..end]))
  }

  function AfterText(d: State, t: seq<Byte>, i: nat): (r: (State, seq<CodeUnit>))
    requires Valid(d) && d.lastNeed == 0 && i < |t|
    ensures Valid(r.0)
  {
    var (need, total) := Incomplete(t, i, d.lastNeed);
    AfterScan(d, t, i, need, total)
  }

  /** Feeds one chunk. */
  function AfterWrite(d: State, t: seq<Byte>): (r: (State, seq<CodeUnit>))
    requires Valid(d)
    ensures Valid(r.0)
  {
    if |t| == 0 then (d, [])
    else if d.lastNeed > 0 then
      var (d1, filled) := AfterFillLast(d, t);
      if filled.None? then (d1, [])
      else
        var d2 := d1.(lastNeed := 0);
        if d1.lastNeed < |t| then
          var (d3, rest) := AfterText(d2, t, d1.lastNeed);
          (d3, filled.value + rest)
        else (d2, filled.value)
    else AfterText(d, t, 0)
  }

  /** Feeds a last chunk and replaces an unfinished character; the fields stay as they are. */
  function AfterEnd(d: State, t: seq<Byte>): (r: (State, seq<CodeUnit>))
    requires Valid(d)
    ensures Valid(r.0)
  {
    var (d1, out) := AfterWrite(d, t);
    (d1, if d1.lastNeed > 0 then out + [REPLACEMENT] else out)
  }

  class Decoder {
    var lastNeed: int
    var lastTotal: int
    const lastChar: array<Byte>

    ghost function Value(): State
      reads this, lastChar
    {
      State(lastNeed, lastTotal, lastChar[..])
    }

    constructor ()
      ensures Valid(Value()) && lastNeed == 0 && fresh(lastChar)
    {
      lastNeed, lastTotal := 0, 0;
      lastChar := new Byte[4];
    }

    method CopyInto(at: nat, t: seq<Byte>, from: nat, to: nat)
      requires from <= to <= |t| && at + (to - from) <= lastChar.Length
      modifies lastChar
      ensures lastChar[..] == Copy(old(lastChar[..]), at, t[from..to])
    {
      ghost var was := lastChar[..];
      for k := 0 to to - from
        invariant lastChar[..] == Copy(was, at, t[from..from + k])
      {
        CopyNext(was, at, t[from..from + k], t[from + k]);
        lastChar[at + k] := t[from + k];
        assert t[from..from + k + 1] == t[from..from + k] + [t[from + k]];
      }
    }

    method FillLast(t: seq<Byte>) returns (s: Option<seq<CodeUnit>>)
      requires Valid(Value()) && lastNeed > 0 && |t| > 0
      modifies this, lastChar
      ensures (Value(), s) == AfterFillLast(old(Value()), t)
    {
      if t[0] / 0x40 != 2 {
        lastNeed := 0;
        return Some([0xFFFD]);
      }
      if lastNeed > 1 && |t| > 1 {
        if t[1] / 0x40 != 2 {
          lastNeed := 1;
          return Some([0xFFFD]);
        }
        if lastNeed > 2 && |t| > 2 && t[2] / 0x40 != 2 {
          lastNeed := 2;
          return Some([0xFFFD]);
        }
      }
      if lastNeed <= |t| {
        CopyInto(lastTotal - lastNeed, t, 0, lastNeed);
        assert t[0..lastNeed] == t[..lastNeed] && lastChar[..][0..lastTotal] == lastChar[..][..lastTotal];
        var text := Decode(lastChar[..], 0, lastTotal);
        return Some(text);
      }
      CopyInto(lastTotal - lastNeed, t, 0, |t|);
      assert t[0..|t|] == t;
      lastNeed := lastNeed - |t|;
      s := None;
    }

    method CheckIncomplete(t: seq<Byte>, i: nat) returns (total: int)
      requires i < |t|
      modifies this`lastNeed
      ensures (lastNeed, total) == Incomplete(t, i, old(lastNeed))
    {
      var j := |t| - 1;
      total := ByteType(t[j]);
      if total >= 0 {
        if total > 0 { lastNeed := total - 1; }
        return;
      }
      j := j - 1;
      if j < i || total == -2 { return 0; }
      total := ByteType(t[j]);
      if total >= 0 {
        if total > 0 { lastNeed := total - 2; }
        return;
      }
      j := j - 1;
      if j < i || total == -2 { return 0; }
      total := ByteType(t[j]);
      if total >= 0 {
        if total > 0 {
          if total == 2 { total := 0; } else { lastNeed := total - 3; }
        }
        return;
      }
      return 0;
    }

    method Text(t: seq<Byte>, i: nat) returns (s: seq<CodeUnit>)
      requires Valid(Value()) && lastNeed == 0 && i < |t|
      modifies this, lastChar
      ensures (Value(), s) == AfterText(old(Value()), t, i)
    {
      var total := CheckIncomplete(t, i);
      if lastNeed == 0 {
        s := Decode(t, i, |t|);
        assert t[i..|t|] == t[i..];
        return;
      }
      lastTotal := total;
      var end := |t| - (total - lastNeed);
      CopyInto(0, t, end, |t|);
      assert t[end..|t|] == t[end..];
      s := Decode(t, i, end);
    }

    method Write(t: seq<Byte>) returns (s: seq<CodeUnit>)
      requires Valid(Value())
      modifies this, lastChar
      ensures (Value(), s) == AfterWrite(old(Value()), t)
    {
      if |t| == 0 {
        return [];
      }
      var filled: seq<CodeUnit> := [];
      var n := 0;
      if lastNeed > 0 {
        var e := FillLast(t);
        if e.None? {
          return [];
        }
        filled := e.value;
        n := lastNeed;
        lastNeed := 0;
      }
      if n < |t| {
        s := Text(t, n);
        assert [] + s == s;
        s := filled + s;
      } else {
        s := filled;
      }
    }

    method End(t: seq<Byte>) returns (s: seq<CodeUnit>)
      requires Valid(Value())
      modifies this, lastChar
      ensures (Value(), s) == AfterEnd(old(Value()), t)
    {
      s := Write(t);
      if lastNeed > 0 {
        s := s + [0xFFFD];
      }
    }
  }
}

/**
 * The population count of the hash trie: sums of ever wider bit fields under masks. Words are their unsigned
 * values; the masks drop what a signed shift would drag in at the top.
 */
module HashTrieBits {
  import opened TrieSlots
  import opened HashTrieLoops

  /** Bitwise and. */
  function And(n: nat, m: nat): nat {
    if n == 0 || m == 0 then 0
    else (if n % 2 == 1 && m % 2 == 1 then 1 else 0) + 2 * And(n / 2, m / 2)
  }

  lemma {:induction false} AndBound(n: nat, m: nat)
    ensures And(n, m) <= n
  {
    if n > 0 && m > 0 {
      AndBound(n / 2, m / 2);
    }
  }

  /** The population count as the code computes it. */
  function MaskedSum(t: nat): nat {
    AndBound(t / 2, 0x5555_5555);
    var t1 := t - And(t / 2, 0x5555_5555);
    var t2 := And(t1, 0x3333_3333) + And(t1 / 4, 0x3333_3333);
    var t3 := And(t2 + t2 / 16, 0x0F0F_0F0F);
    var t4 := t3 + t3 / 0x100;
    And(t4 + t4 / 0x1_0000, 127)
  }

  // ---------------------------------------------------------------- arithmetic of fields

  lemma Low4(a: nat, x: nat)
    requires a < 4
    ensures (a + 4 * x) % 4 == a && (a + 4 * x) / 4 == x
  {
  }

  lemma Low16(a: nat, x: nat)
    requires a < 16
    ensures (a + 16 * x) % 16 == a && (a + 16 * x) / 16 == x
  {
  }

  lemma Low128(a: nat, x: nat)
    requires a < 128
    ensures (a + 128 * x) % 128 == a
  {
  }

  lemma Low256(a: nat, x: nat)
    requires a < 0x100
    ensures (a + 0x100 * x) / 0x100 == x
  {
  }

  lemma Div4(n: nat)
    ensures n / 2 / 2 == n / 4 && n / 2 / 4 == n / 4 / 2 && n / 4 / 4 == n / 16
  {
  }

  lemma Div16(n: nat)
    ensures n / 16 / 16 == n / 0x100
  {
  }

  lemma Div256(n: nat)
    ensures n / 0x100 / 0x100 == n / 0x1_0000
  {
  }

  lemma Digits(n: nat)
    ensures n == n % 2 + 2 * (n / 2) && n == n % 4 + 4 * (n / 4)
    ensures n % 4 == n % 2 + 2 * (n / 2 % 2)
  {
    var m := n / 2;
    assert n == n % 2 + 2 * m && m == m % 2 + 2 * (m / 2);
    Low4(n % 2 + 2 * (m % 2), m / 2);
  }

  lemma Mod16(n: nat)
    ensures n % 16 == n % 4 + 4 * (n / 4 % 4)
  {
    var m := n / 4;
    Digits(n);
    Digits(m);
    Low16(n % 4 + 4 * (m % 4), m / 4);
  }

  // ---------------------------------------------------------------- masks

  lemma AndStep(n: nat, m: nat)
    ensures And(n, m) == (if n % 2 == 1 && m % 2 == 1 then 1 else 0) + 2 * And(n / 2, m / 2)
  {
  }

  lemma Evens(g: nat)
    ensures 2 * g % 2 == 0 && 2 * g / 2 == g && (2 * g + 1) % 2 == 1 && (2 * g + 1) / 2 == g
  {
  }

  /** Two bits under a mask that ends in 01, 00 and 11. */
  lemma And01(n: nat, g: nat)
    ensures And(n, 4 * g + 1) == n % 2 + 4 * And(n / 4, g)
  {
    hide And;
    Evens(2 * g);
    Evens(g);
    Div4(n);
    AndStep(n, 2 * (2 * g) + 1);
    AndStep(n / 2, 2 * g);
  }

  lemma And00(n: nat, g: nat)
    ensures And(n, 4 * g) == 4 * And(n / 4, g)
  {
    hide And;
    Evens(2 * g);
    Evens(g);
    Div4(n);
    AndStep(n, 2 * (2 * g));
    AndStep(n / 2, 2 * g);
  }

  lemma And11(n: nat, g: nat)
    ensures And(n, 4 * g + 3) == n % 4 + 4 * And(n / 4, g)
  {
    hide And;
    Evens(2 * g + 1);
    Evens(g);
    Div4(n);
    Digits(n);
    AndStep(n, 2 * (2 * g + 1) + 1);
    AndStep(n / 2, 2 * g + 1);
  }

  lemma And0011(n: nat, g: nat)
    ensures And(n, 16 * g + 3) == n % 4 + 16 * And(n / 16, g)
  {
    hide And;
    And11(n, 4 * g);
    And00(n / 4, g);
    Div4(n);
  }

  lemma And1111(n: nat, g: nat)
    ensures And(n, 16 * g + 15) == n % 16 + 16 * And(n / 16, g)
  {
    hide And;
    And11(n, 4 * g + 3);
    And11(n / 4, g);
    Div4(n);
    Mod16(n);
  }

  lemma And0000(n: nat, g: nat)
    ensures And(n, 16 * g) == 16 * And(n / 16, g)
  {
    hide And;
    And00(n, 4 * g);
    And00(n / 4, g);
    Div4(n);
  }

  lemma And00001111(n: nat, g: nat)
    ensures And(n, 0x100 * g + 15) == n % 16 + 0x100 * And(n / 0x100, g)
  {
    hide And;
    And1111(n, 16 * g);
    And0000(n / 16, g);
    Div16(n);
  }

  lemma And127(n: nat)
    ensures And(n, 127) == n % 128
  {
    hide And;
    var m := n / 16;
    And1111(n, 7);
    And11(m, 1);
    And01(m / 4, 0);
    AndNone(m / 4 / 4);
    Low128(n % 16 + 16 * (m % 4) + 64 * (m / 4 % 2), m / 4 / 2);
    assert n == n % 16 + 16 * m;
    Digits(m);
    Digits(m / 4);
  }

  lemma AndNone(n: nat)
    ensures And(n, 0) == 0
  {
  }

  /** The masks, field by field. */
  function Mask01(k: nat): nat { if k == 0 then 0 else 4 * Mask01(k - 1) + 1 }

  function Mask0011(k: nat): nat { if k == 0 then 0 else 16 * Mask0011(k - 1) + 3 }

  function Mask00001111(k: nat): nat { if k == 0 then 0 else 0x100 * Mask00001111(k - 1) + 15 }

  lemma Masks()
    ensures Mask01(16) == 0x5555_5555 && Mask0011(8) == 0x3333_3333 && Mask00001111(4) == 0x0F0F_0F0F
  {
    assert Mask01(4) == 0x55;
    assert Mask01(8) == 0x5555;
    assert Mask01(12) == 0x55_5555;
    assert Mask0011(4) == 0x3333;
  }

  // ---------------------------------------------------------------- fields

  /** How many of the lowest two, four and eight bits are set. */
  function Pop2(n: nat): (c: nat)
    ensures c <= 2
  {
    n % 2 + n / 2 % 2
  }

  function Pop4(n: nat): (c: nat)
    ensures c <= 4
  {
    Pop2(n) + Pop2(n / 4)
  }

  function Pop8(n: nat): (c: nat)
    ensures c <= 8
  {
    Pop4(n) + Pop4(n / 16)
  }

  /** The counts of k fields of two, four and eight bits, each in its field. */
  function Fields2(n: nat, k: nat): nat
    decreases k
  {
    if k == 0 then 0 else Pop2(n) + 4 * Fields2(n / 4, k - 1)
  }

  function Fields4(n: nat, k: nat): nat
    decreases k
  {
    if k == 0 then 0 else Pop4(n) + 16 * Fields4(n / 16, k - 1)
  }

  function Fields8(n: nat, k: nat): nat
    decreases k
  {
    if k == 0 then 0 else Pop8(n) + 0x100 * Fields8(n / 0x100, k - 1)
  }

  lemma Fields2Step(t: nat, k: nat)
    ensures Fields2(t, k + 2) == Pop2(t) + 4 * (Pop2(t / 4) + 4 * Fields2(t / 16, k))
  {
    hide Pop2;
    assert Fields2(t, k + 2) == Pop2(t) + 4 * Fields2(t / 4, k + 1);
    assert Fields2(t / 4, k + 1) == Pop2(t / 4) + 4 * Fields2(t / 4 / 4, k);
    Div4(t);
  }

  lemma Fields4Step(t: nat, k: nat)
    ensures Fields4(t, k + 2) == Pop4(t) + 16 * (Pop4(t / 16) + 16 * Fields4(t / 0x100, k))
  {
    hide Pop4;
    assert Fields4(t, k + 2) == Pop4(t) + 16 * Fields4(t / 16, k + 1);
    assert Fields4(t / 16, k + 1) == Pop4(t / 16) + 16 * Fields4(t / 16 / 16, k);
    Div16(t);
  }

  /** First line: the difference leaves the count of each pair. */
  lemma {:induction false} PairSums(t: nat, k: nat)
    requires t < Pow2(2 * k)
    ensures t - And(t / 2, Mask01(k)) == Fields2(t, k)
    decreases k
  {
    hide And;
    if k == 0 {
      AndNone(t / 2);
    } else {
      Quarter(t, 2 * k);
      PairSums(t / 4, k - 1);
      And01(t / 2, Mask01(k - 1));
      Div4(t);
      Digits(t);
    }
  }

  lemma Quarter(t: nat, k: nat)
    requires k >= 2 && t < Pow2(k)
    ensures t / 4 < Pow2(k - 2)
  {
    assert Pow2(k) == 4 * Pow2(k - 2);
  }

  /** Second line: pairs to fours. */
  lemma {:induction false} FourSums(t: nat, k: nat)
    ensures And(Fields2(t, 2 * k), Mask0011(k)) + And(Fields2(t, 2 * k) / 4, Mask0011(k)) == Fields4(t, k)
    decreases k
  {
    hide And, Fields2, Pop2;
    var x := Fields2(t, 2 * k);
    if k == 0 {
      AndNone(x);
      AndNone(x / 4);
    } else {
      var a, b, rest := Pop2(t), Pop2(t / 4), Fields2(t / 16, 2 * (k - 1));
      Fields2Step(t, 2 * (k - 1));
      FourSums(t / 16, k - 1);
      And0011(x, Mask0011(k - 1));
      And0011(x / 4, Mask0011(k - 1));
      Low4(a, b + 4 * rest);
      Low4(b, rest);
      Div4(x);
      assert x / 4 / 16 == x / 16 / 4;
    }
  }

  /** Third line: fours to eights; no sum of two counts leaves its four bits. */
  lemma {:induction false} EightSums(t: nat, k: nat)
    ensures And(Fields4(t, 2 * k) + Fields4(t, 2 * k) / 16, Mask00001111(k)) == Fields8(t, k)
    decreases k
  {
    hide And, Fields4, Pop4;
    var y := Fields4(t, 2 * k);
    if k == 0 {
      AndNone(y + y / 16);
    } else {
      var rest := Fields4(t / 0x100, 2 * (k - 1));
      Fields4Step(t, 2 * (k - 1));
      EightSums(t / 0x100, k - 1);
      And00001111(y + y / 16, Mask00001111(k - 1));
      LowField(t / 0x100, 2 * (k - 1));
      Carry(Pop4(t), Pop4(t / 16), rest);
    }
  }

  lemma LowField(t: nat, k: nat)
    ensures Fields4(t, k) % 16 <= 4
  {
    hide Pop4;
    if k > 0 {
      Low16(Pop4(t), Fields4(t / 16, k - 1));
    }
  }

  lemma Carry(a: nat, b: nat, x: nat)
    requires a <= 4 && b <= 4 && x % 16 <= 4
    ensures var y := a + 16 * (b + 16 * x); (y + y / 16) % 16 == a + b && (y + y / 16) / 0x100 == x + x / 16
  {
    var y, r, c := a + 16 * (b + 16 * x), x / 16, x % 16;
    var z, w := y + y / 16, (b + c) + 16 * (x + r);
    Low16(a, b + 16 * x);
    assert x == c + 16 * r;
    assert z == (a + b) + 16 * w;
    Low16(a + b, w);
    Low16(b + c, x + r);
    Div16(z);
  }

  /** Last lines: the four counts are added up in the lowest byte. */
  lemma Gather(b0: nat, b1: nat, b2: nat, b3: nat)
    requires b0 <= 8 && b1 <= 8 && b2 <= 8 && b3 <= 8
    ensures var t3 := b0 + 0x100 * (b1 + 0x100 * (b2 + 0x100 * b3));
      var t4 := t3 + t3 / 0x100;
      And(t4 + t4 / 0x1_0000, 127) == b0 + b1 + b2 + b3
  {
    hide And;
    var t3, up := b0 + 0x100 * (b1 + 0x100 * (b2 + 0x100 * b3)), b2 + b3 + 0x100 * b3;
    var t4 := t3 + t3 / 0x100;
    Low256(b0, b1 + 0x100 * (b2 + 0x100 * b3));
    assert t4 == (b0 + b1) + 0x100 * ((b1 + b2) + 0x100 * up);
    Low256(b0 + b1, (b1 + b2) + 0x100 * up);
    Low256(b1 + b2, up);
    Div256(t4);
    var t5, c := t4 + up, b0 + b1 + b2 + b3;
    var rest := 2 * (b1 + b2 + b3 + 0x100 * up);
    assert t5 == c + 128 * rest;
    Low128(c, rest);
    And127(t5);
  }

  // ---------------------------------------------------------------- the count

  lemma PopulationStep(n: nat)
    ensures Population(n) == n % 2 + Population(n / 2)
  {
  }

  lemma PopulationTwo(n: nat)
    ensures Population(n) == Pop2(n) + Population(n / 4)
  {
    hide Population;
    PopulationStep(n);
    PopulationStep(n / 2);
    Div4(n);
  }

  lemma PopulationByte(n: nat)
    ensures Population(n) == Pop8(n) + Population(n / 0x100)
  {
    hide Population, Pop2;
    var m := n / 16;
    PopulationTwo(n);
    PopulationTwo(n / 4);
    PopulationTwo(m);
    PopulationTwo(m / 4);
    Div4(n);
    Div4(m);
    Div16(n);
  }

  lemma FourFields(t: nat)
    ensures var u := t / 0x100; var v := u / 0x100; var x := v / 0x100;
      Fields8(t, 4) == Pop8(t) + 0x100 * (Pop8(u) + 0x100 * (Pop8(v) + 0x100 * Pop8(x)))
  {
    hide Pop8;
    var u := t / 0x100;
    var v := u / 0x100;
    var x := v / 0x100;
    assert Fields8(x, 1) == Pop8(x);
    assert Fields8(v, 2) == Pop8(v) + 0x100 * Fields8(x, 1);
    assert Fields8(u, 3) == Pop8(u) + 0x100 * Fields8(v, 2);
  }

  lemma Word32(t: nat)
    requires t < Pow2(32)
    ensures t / 0x100 / 0x100 / 0x100 / 0x100 == 0
  {
    assert Pow2(8) == 0x100;
    assert Pow2(16) == 0x1_0000;
    assert Pow2(24) == 0x100_0000;
  }

  lemma FourCounts(t: nat)
    requires t < Pow2(32)
    ensures var u := t / 0x100; var v := u / 0x100; var x := v / 0x100;
      Population(t) == Pop8(t) + Pop8(u) + Pop8(v) + Pop8(x)
  {
    hide Population, Pop8;
    var u := t / 0x100;
    var v := u / 0x100;
    var x := v / 0x100;
    PopulationByte(t);
    PopulationByte(u);
    PopulationByte(v);
    PopulationByte(x);
    Word32(t);
    NoPopulation();
  }

  lemma NoPopulation()
    ensures Population(0) == 0
  {
  }

  /** After three lines the word holds the counts of its bytes. */
  lemma MaskedFields(t: nat)
    requires t < Pow2(32)
    ensures var t3 := Fields8(t, 4); var t4 := t3 + t3 / 0x100; MaskedSum(t) == And(t4 + t4 / 0x1_0000, 127)
  {
    hide And, Fields2, Fields4, Fields8, Mask01, Mask0011, Mask00001111, Pow2;
    AndBound(t / 2, 0x5555_5555);
    Masks();
    PairSums(t, 16);
    FourSums(t, 8);
    EightSums(t, 4);
    var t1 := t - And(t / 2, 0x5555_5555);
    assert t1 == Fields2(t, 16);
    var t2 := And(t1, 0x3333_3333) + And(t1 / 4, 0x3333_3333);
    assert t2 == Fields4(t, 8);
    assert And(t2 + t2 / 16, 0x0F0F_0F0F) == Fields8(t, 4);
  }

  /** The masked sums are the number of ones, for every 32-bit word. */
  lemma MaskedSumIsPopulation(t: nat)
    requires t < Pow2(32)
    ensures MaskedSum(t) == Population(t)
  {
    hide And, Population, Fields8, Pop8, MaskedSum;
    var u := t / 0x100;
    var v := u / 0x100;
    MaskedFields(t);
    FourFields(t);
    FourCounts(t);
    Gather(Pop8(t), Pop8(u), Pop8(v), Pop8(v / 0x100));
  }

  /** Masking with a bit minus one keeps the bits below it. */
  lemma {:induction false} BelowBit(n: nat, s: nat)
    ensures And(n, Pow2(s) - 1) == Low(n, s)
    decreases s
  {
    hide And;
    if s == 0 {
      AndNone(n);
    } else {
      AndStep(n, Pow2(s) - 1);
      Evens(Pow2(s - 1) - 1);
      BelowBit(n / 2, s - 1);
    }
  }

  lemma {:induction false} LowBound(n: nat, s: nat)
    ensures Low(n, s) < Pow2(s)
    decreases s
  {
    if s > 0 {
      LowBound(n / 2, s - 1);
    }
  }

  lemma {:induction false} Pow2Monotone(i: nat, j: nat)
    requires i <= j
    ensures Pow2(i) <= Pow2(j)
  {
    if i < j {
      Pow2Monotone(i, j - 1);
    }
  }

  /** The index the code computes for the child of a slot is the number of set slots below it. */
  lemma IndexIsCount(bitmap: nat, s: nat)
    requires bitmap < Pow2(32) && s < 32
    ensures MaskedSum(And(bitmap, Pow2(s) - 1)) == Count(Ones(bitmap, 0), s)
  {
    hide And, MaskedSum, Population, Count, Ones, Low, Pow2;
    BelowBit(bitmap, s);
    LowBound(bitmap, s);
    Pow2Monotone(s, 32);
    MaskedSumIsPopulation(Low(bitmap, s));
    CountIsPopulation(bitmap, 0, s);
  }
}

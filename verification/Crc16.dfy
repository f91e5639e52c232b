// CRC-16/IBM (reflected polynomial 0x8005): the bit-serial definition, the doubling construction of the
// lookup table, the table-driven checksum, and what the checksum detects.

module Crc16 {
  import opened Bits

  // ---------------------------------------------------------------- bit-serial definition

  // One shift of the register.
  function Step(crc: uint16): (r: uint16)
  {
    if crc % 2 == 1 then
      HalfXorBound(crc);
      Xor(crc / 2, 0xA001)
    else crc / 2
  }

  lemma HalfXorBound(crc: uint16)
    ensures Xor(crc / 2, 0xA001) < 0x1_0000
  {
    Pow2Of16();
    XorBound(crc / 2, 0xA001, 16);
  }

  lemma Pow2Of16()
    ensures Pow2(8) == 0x100 && Pow2(16) == 0x1_0000
  {
    assert Pow2(4) == 16 && Pow2(8) == 256 && Pow2(12) == 4096;
  }

  lemma StepOdd(crc: uint16)
    requires crc % 2 == 1
    ensures Xor(crc / 2, 0xA001) < 0x1_0000 && Step(crc) == Xor(crc / 2, 0xA001)
  {
    HalfXorBound(crc);
  }

  lemma StepEven(crc: uint16)
    requires crc % 2 == 0
    ensures Step(crc) == crc / 2
  {}

  function Steps(crc: uint16, n: nat): uint16
    decreases n
  {
    if n == 0 then crc else Steps(Step(crc), n - 1)
  }

  // Exclusive or of two registers.
  function Xor16(a: uint16, b: uint16): uint16 {
    Pow2Of16();
    XorBound(a, b, 16);
    Xor(a, b)
  }

  // The checksum: every byte is added to the register, which is then shifted eight times.
  function Crc(data: Bytes): uint16 {
    if data == [] then 0 else Steps(Xor16(Crc(data[..|data| - 1]), data[|data| - 1]), 8)
  }

  // ---------------------------------------------------------------- linearity

  lemma StepLinear(a: uint16, b: uint16)
    ensures Step(Xor16(a, b)) == Xor16(Step(a), Step(b))
  {
    hide Xor;
    var p, x := Digits(a);
    var q, y := Digits(b);
    var k := 0xA001;
    XorDigits(p, x, q, y);
    XorAssoc(p, q, k);
    XorAssoc(p, k, q);
    XorComm(q, k);
    XorExchange(p, k, q, k);
    XorSelf(k);
    XorZero(Xor(p, q));
  }

  lemma {:induction false} StepsLinear(a: uint16, b: uint16, n: nat)
    ensures Steps(Xor16(a, b), n) == Xor16(Steps(a, n), Steps(b, n))
    decreases n
  {
    if n > 0 {
      StepLinear(a, b);
      StepsLinear(Step(a), Step(b), n - 1);
    }
  }

  lemma {:induction false} StepsSum(crc: uint16, m: nat, n: nat)
    ensures Steps(crc, m + n) == Steps(Steps(crc, m), n)
    decreases m
  {
    if m > 0 {
      StepsSum(Step(crc), m - 1, n);
    }
  }

  // Shifting out n zero bits is division by 2^n.
  lemma {:induction false} StepsOfMultiple(high: nat, n: nat)
    requires high * Pow2(n) < 0x1_0000
    ensures Steps(high * Pow2(n), n) == high
  {
    if n > 0 {
      var p := Pow2(n - 1);
      assert high * Pow2(n) == 2 * (high * p);
      assert Step(high * Pow2(n)) == high * p;
      StepsOfMultiple(high, n - 1);
    }
  }

  // ---------------------------------------------------------------- lookup table

  ghost predicate IsLookupTable(table: seq<uint16>) {
    |table| == 256 && forall v :: 0 <= v < 256 ==> table[v] == Steps(v, 8)
  }

  // A table step does the work of eight shifts.
  lemma TableStep(high: nat, low: nat, b: byte)
    requires high < 0x100 && low < 0x100
    ensures Xor(low, b) < 0x100
    ensures Xor(high * 0x100 + low, b) == high * 0x100 + Xor(low, b)
    ensures Steps(high * 0x100 + Xor(low, b), 8) == Xor(high, Steps(Xor(low, b), 8))
  {
    hide Xor, Steps, Step;
    Pow2Of16();
    var index := Xor(low, b);
    XorBound(low, b, 8);
    XorDisjoint(high, low, 8);
    XorAssoc(high * 0x100, low, b);
    XorDisjoint(high, index, 8);
    StepsLinear(high * 0x100, index, 8);
    StepsOfMultiple(high, 8);
  }

  // Entry i + j of the table is the exclusive or of entries i and j when j is a multiple of 2i.
  lemma TableEntry(n: nat, i: uint16, m: nat, j: uint16)
    requires i == Pow2(n) && j == m * Pow2(n + 1) && i + j < 256
    ensures Steps(i + j, 8) == Xor(Steps(i, 8), Steps(j, 8))
  {
    hide Xor, Steps, Step;
    XorDisjoint(m, i, n + 1);
    XorComm(i, j);
    StepsLinear(i, j, 8);
  }

  // Shifting 2i nine times is shifting i eight times.
  lemma NextPower(i: uint16)
    requires 2 * i < 0x1_0000
    ensures Step(Steps(2 * i, 8)) == Steps(i, 8)
  {
    hide Xor;
    assert Step(2 * i) == i;
    StepsSum(2 * i, 8, 1);
    StepsSum(2 * i, 1, 8);
    assert Steps(2 * i, 1) == Steps(Step(2 * i), 0);
    assert Steps(Steps(2 * i, 8), 1) == Steps(Step(Steps(2 * i, 8)), 0);
  }

  // The table holds the right value at the q-th multiple of i, if that is one of its indices.
  ghost predicate Entry(table: seq<uint16>, q: nat, i: nat) {
    var m := Times(q, i);
    m < |table| <= 0x1_0000 ==> table[m] == Steps(m, 8)
  }

  // The q-th multiple of 2i below 255, with i = 2^n: one more stride stays within 256.
  lemma StrideInBounds(q: nat, n: nat, i: nat)
    requires n < 8 && i == Pow2(n) && Times(q, 2 * i) < 255
    ensures Times(q, 2 * i) + 2 * i <= 256
  {
    var w := Pow2(7 - n);
    Pow2Sum(n, 7 - n);
    assert Times(w, 2 * i) == 256;
    TimesOrder(q, w, 2 * i);
    TimesLaws(q, 2 * i);
    TimesOrder(q + 1, w, 2 * i);
  }

  // Storing entry i + j, with j the q-th multiple of 2i: the multiples of 2i keep their entries and
  // two more multiples of i are in place.
  lemma Stride(table: seq<uint16>, t: seq<uint16>, q: nat, n: nat, i: nat, j: nat, crc: uint16)
    requires n < 8 && i == Pow2(n) <= 128 && |table| == 256 && j == Times(q, 2 * i) && i + j < 256
    requires crc == Steps(i, 8) && t == table[i + j := Xor16(crc, table[j])]
    requires forall r: nat :: Entry(table, r, 2 * i)
    requires forall r: nat :: r < 2 * q ==> Entry(table, r, i)
    ensures forall r: nat :: Entry(t, r, 2 * i)
    ensures forall r: nat :: r < 2 * (q + 1) ==> Entry(t, r, i)
  {
    hide Xor, Xor16, Step, Steps, Times;
    StrideValue(table, q, n, i, j);
    TimesLaws(q, i);
    TimesLaws(2 * q, i);
    forall r: nat ensures Entry(t, r, 2 * i) {
      assert Entry(table, r, 2 * i);
      TimesLaws(r, i);
      TimesOrder(2 * r, 2 * q + 1, i);
    }
    forall r: nat | r < 2 * (q + 1) ensures Entry(t, r, i) {
      assert r < 2 * q ==> Entry(table, r, i);
      TimesOrder(r, 2 * q + 1, i);
      assert Entry(table, q, 2 * i);
    }
  }

  lemma StrideValue(table: seq<uint16>, q: nat, n: nat, i: nat, j: nat)
    requires n < 8 && i == Pow2(n) <= 128 && |table| == 256 && j == Times(q, 2 * i) && i + j < 256
    requires Entry(table, q, 2 * i)
    ensures Xor16(Steps(i, 8), table[j]) == Steps(i + j, 8)
  {
    hide Xor, Step, Steps;
    TableEntry(n, i, q, j);
  }

  lemma Xor16Is(a: uint16, b: uint16)
    ensures Xor16(a, b) == Xor(a, b)
  {}

  lemma {:induction false} Pow2Sum(m: nat, n: nat)
    ensures Pow2(m) * Pow2(n) == Pow2(m + n)
    ensures Pow2(7) == 128
  {
    assert Pow2(3) == 8;
    if m > 0 {
      Pow2Sum(m - 1, n);
      assert Pow2(m) * Pow2(n) == 2 * (Pow2(m - 1) * Pow2(n));
    }
  }

  method GenCrc16IBMLookupTable() returns (table: array<uint16>)
    ensures fresh(table) && IsLookupTable(table[..])
  {
    hide Xor, Step, Steps, Xor16, Pow2, Times;
    table := new uint16[256](_ => 0);
    var i := 128;
    var crc: uint16 := 1;
    ghost var n := 8;
    ghost var stride := 256;
    Pow2Of16();
    Pow2Sum(7, 1);
    StepsOfMultiple(1, 8);
    StepsOfMultiple(0, 8);
    forall q: nat ensures Entry(table[..], q, 256) {
      TimesLaws(q, 256);
      TimesOrder(0, q, 256);
      TimesOrder(q, 1, 256);
    }
    while i > 0
      invariant 0 <= n <= 8 && table.Length == 256
      invariant stride == Pow2(n) && i == stride / 2
      invariant stride <= 256 && crc == Steps(stride, 8)
      invariant forall q: nat :: Entry(table[..], q, stride)
      decreases n
    {
      HalfPow2(n);
      n := n - 1;
      NextPower(i);
      if crc % 2 == 1 {
        StepOdd(crc);
        crc := Xor(crc / 2, 0xA001);
      } else {
        StepEven(crc);
        crc := crc / 2;
      }
      var j := 0;
      ghost var q := 0;
      TimesLaws(0, 2 * i);
      while j < 255
        invariant j == Times(q, 2 * i) && j <= 256
        invariant forall r: nat :: Entry(table[..], r, 2 * i)
        invariant forall r: nat :: r < 2 * q ==> Entry(table[..], r, i)
      {
        StrideInBounds(q, n, i);
        TimesLaws(q, 2 * i);
        ghost var before := table[..];
        table[i + j] := Xor16(crc, table[j]);
        Stride(before, table[..], q, n, i, j, crc);
        j := j + i * 2;
        q := q + 1;
      }
      forall r: nat ensures Entry(table[..], r, i) {
        if r >= 2 * q {
          TimesLaws(q, i);
          TimesOrder(r, 2 * q, i);
        }
      }
      stride := i;
      i := i / 2;
    }
    forall v | 0 <= v < 256 ensures table[v] == Steps(v, 8) {
      TimesLaws(v, 1);
      assert Entry(table[..], v, 1);
    }
  }

  lemma HalfPow2(n: nat)
    requires Pow2(n) > 1
    ensures n > 0 && Pow2(n) == 2 * Pow2(n - 1)
  {}

  // ---------------------------------------------------------------- checksums

  // The table-driven checksum of data[lo..hi].
  method Crc16IBM(table: seq<uint16>, data: array<byte>, lo: nat, hi: nat) returns (crc: uint16)
    requires IsLookupTable(table)
    requires lo <= hi <= data.Length
    ensures crc == Crc(data[lo..hi])
  {
    hide Crc, Xor16, IsLookupTable;
    crc := 0;
    EmptyCrc();
    assert data[lo..lo] == [];
    for i := lo to hi
      invariant crc == Crc(data[lo..i])
    {
      CrcSnoc(data[lo..i], data[i]);
      assert data[lo..i + 1] == data[lo..i] + [data[i]];
      LookUp(table, crc, data[i]);
      var lookupIndex := Xor16(crc, data[i]) % 0x100;
      crc := Xor16(crc / 0x100, table[lookupIndex]);
    }
  }

  lemma EmptyCrc()
    ensures Crc([]) == 0
  {}

  // One table look-up does eight shifts.
  lemma LookUp(table: seq<uint16>, crc: uint16, b: byte)
    requires IsLookupTable(table)
    ensures |table| == 256 && Xor16(crc / 0x100, table[Xor16(crc, b) % 0x100]) == Steps(Xor16(crc, b), 8)
  {
    hide Xor, Step, Steps, Xor16;
    TableStep(crc / 0x100, crc % 0x100, b);
    Xor16Is(crc, b);
    Xor16Is(crc / 0x100, table[Xor16(crc, b) % 0x100]);
  }

  // The bit-serial checksum of data[lo..hi].
  method Crc16IBMNoTable(data: array<byte>, lo: nat, hi: nat) returns (crc: uint16)
    requires lo <= hi <= data.Length
    ensures crc == Crc(data[lo..hi])
  {
    hide Xor, Step, Xor16;
    crc := 0;
    for i := lo to hi
      invariant crc == Crc(data[lo..i])
    {
      CrcSnoc(data[lo..i], data[i]);
      assert data[lo..i + 1] == data[lo..i] + [data[i]];
      crc := Xor16(crc, data[i]);
      ghost var start := crc;
      for j := 0 to 8
        invariant Steps(start, 8) == Steps(crc, 8 - j)
      {
        if crc % 2 == 1 {
          StepOdd(crc);
          crc := Xor(crc / 2, 0xA001);
        } else {
          StepEven(crc);
          crc := crc / 2;
        }
      }
    }
  }

  lemma CrcSnoc(data: Bytes, b: byte)
    ensures Crc(data + [b]) == Steps(Xor16(Crc(data), b), 8)
  {
    hide Xor16, Steps;
    assert (data + [b])[..|data|] == data;
  }

  // ---------------------------------------------------------------- the checksum bit by bit

  // A message as bits, in transmission order: the lowest bit of each byte first.
  function MessageBits(data: Bytes): (s: seq<bool>)
    ensures |s| == 8 * |data|
  {
    if data == [] then [] else MessageBits(data[..|data| - 1]) + BitsOf(data[|data| - 1], 8)
  }

  function Feed(crc: uint16, b: bool): uint16 {
    Step(Xor16(crc, Bit(b)))
  }

  function FeedAll(crc: uint16, s: seq<bool>): uint16
    decreases |s|
  {
    if s == [] then crc else FeedAll(Feed(crc, s[0]), s[1..])
  }

  lemma {:induction false} FeedAppend(crc: uint16, s: seq<bool>, t: seq<bool>)
    ensures FeedAll(crc, s + t) == FeedAll(FeedAll(crc, s), t)
    decreases |s|
  {
    hide Feed;
    if s == [] {
      assert s + t == t;
    } else {
      assert (s + t)[0] == s[0] && (s + t)[1..] == s[1..] + t;
      FeedAppend(Feed(crc, s[0]), s[1..], t);
    }
  }

  // Up to 16 bits can be added to the register at once and shifted out together.
  lemma {:induction false} FeedWindow(crc: uint16, s: seq<bool>)
    requires |s| <= 16
    ensures Pack(s) < 0x1_0000
    ensures FeedAll(crc, s) == Steps(Xor16(crc, Pack(s)), |s|)
    decreases |s|
  {
    hide Xor, Step, Pow2, Pack;
    PackBound(s);
    Pow2Of16();
    Pow2Monotone(|s|, 16);
    if s == [] {
      PackNil();
      XorZero(crc);
      Xor16Is(crc, 0);
    } else {
      var b, rest := Bit(s[0]), Pack(s[1..]);
      PackCons(s);
      FeedWindow(Feed(crc, s[0]), s[1..]);
      // crc ^ (b + 2 rest) == (crc ^ b) ^ 2 rest, and a shift turns 2 rest into rest
      XorDigits(0, b, rest, 0);
      XorZero(0);
      XorZero(rest);
      XorAssoc(crc, b, 2 * rest);
      Xor16Is(crc, b);
      Xor16Is(crc, Pack(s));
      Xor16Is(Xor16(crc, b), 2 * rest);
      StepLinear(Xor16(crc, b), 2 * rest);
      StepEven(2 * rest);
    }
  }

  lemma PackNil()
    ensures Pack([]) == 0
  {}

  lemma PackCons(s: seq<bool>)
    requires s != []
    ensures Pack(s) == Bit(s[0]) + 2 * Pack(s[1..])
  {}

  lemma {:induction false} Pow2Monotone(m: nat, n: nat)
    requires m <= n
    ensures Pow2(m) <= Pow2(n)
    decreases n - m
  {
    if m < n {
      Pow2Monotone(m + 1, n);
    }
  }

  // The checksum is the register after the message's bits.
  lemma {:induction false} CrcIsFeedAll(data: Bytes)
    ensures Crc(data) == FeedAll(0, MessageBits(data))
    decreases |data|
  {
    hide Xor16, Steps, FeedAll, BitsOf, Pow2;
    if data == [] {
      FeedNone(0);
    } else {
      var front, b := data[..|data| - 1], data[|data| - 1];
      CrcIsFeedAll(front);
      FeedAppend(0, MessageBits(front), BitsOf(b, 8));
      FeedWindow(Crc(front), BitsOf(b, 8));
      Pow2Of16();
      PackBitsOf(b, 8);
    }
  }

  lemma FeedNone(crc: uint16)
    ensures FeedAll(crc, []) == crc
  {}

  // ---------------------------------------------------------------- burst detection

  // The shift is a bijection: the top bit of the result tells which bit was shifted out.
  lemma StepInjective(a: uint16, b: uint16)
    requires Step(a) == Step(b)
    ensures a == b
  {
    hide Xor;
    TopBit(a / 2);
    TopBit(b / 2);
    if a % 2 == 1 && b % 2 == 1 {
      XorCancel(a / 2, b / 2, 0xA001);
    }
  }

  lemma TopBit(x: nat)
    requires x < 0x8000
    ensures Xor(x, 0xA001) >= 0x8000
  {
    hide Xor;
    assert Pow2(3) == 8 && Pow2(6) == 64 && Pow2(9) == 512 && Pow2(12) == 4096 && Pow2(15) == 0x8000;
    XorBound(x, 0x2001, 15);
    XorDisjoint(1, 0x2001, 15);
    XorComm(0x8000, 0x2001);
    XorAssoc(x, 0x2001, 0x8000);
    XorComm(Xor(x, 0x2001), 0x8000);
    XorDisjoint(1, Xor(x, 0x2001), 15);
  }

  lemma {:induction false} StepsInjective(a: uint16, b: uint16, n: nat)
    requires Steps(a, n) == Steps(b, n)
    ensures a == b
    decreases n
  {
    hide Step;
    if n > 0 {
      StepsInjective(Step(a), Step(b), n - 1);
      StepInjective(a, b);
    }
  }

  lemma {:induction false} FeedAllInjective(a: uint16, b: uint16, s: seq<bool>)
    requires FeedAll(a, s) == FeedAll(b, s)
    ensures a == b
    decreases |s|
  {
    hide Step, Xor;
    if s != [] {
      FeedAllInjective(Feed(a, s[0]), Feed(b, s[0]), s[1..]);
      StepInjective(Xor16(a, Bit(s[0])), Xor16(b, Bit(s[0])));
      XorCancel(a, b, Bit(s[0]));
    }
  }

  // Two bit strings that differ, and only within 16 consecutive bits.
  ghost predicate DifferInBurst(s: seq<bool>, t: seq<bool>) {
    && |s| == |t|
    && s != t
    && exists p, q :: 0 <= p <= q <= |s| && q - p <= 16 && s[..p] == t[..p] && s[q..] == t[q..]
  }

  // Every burst of at most 16 bits changes the checksum.
  lemma BurstDetected(x: Bytes, y: Bytes)
    requires DifferInBurst(MessageBits(x), MessageBits(y))
    ensures Crc(x) != Crc(y)
  {
    hide MessageBits, FeedAll, Crc;
    CrcIsFeedAll(x);
    CrcIsFeedAll(y);
    var s, t := MessageBits(x), MessageBits(y);
    var p, q :| 0 <= p <= q <= |s| && q - p <= 16 && s[..p] == t[..p] && s[q..] == t[q..];
    if Crc(x) == Crc(y) {
      BurstWindow(s, t, p, q);
      assert false;
    }
  }

  lemma BurstWindow(s: seq<bool>, t: seq<bool>, p: nat, q: nat)
    requires p <= q <= |s| == |t| && q - p <= 16
    requires s[..p] == t[..p] && s[q..] == t[q..]
    requires FeedAll(0, s) == FeedAll(0, t)
    ensures s == t
  {
    hide FeedAll, Steps, Xor16, Pack;
    var u, v := s[p..q], t[p..q];
    var crc := FeedAll(0, s[..p]);
    assert s == s[..p] + (u + s[q..]) && t == t[..p] + (v + t[q..]);
    FeedAppend(0, s[..p], u + s[q..]);
    FeedAppend(0, t[..p], v + t[q..]);
    FeedAppend(crc, u, s[q..]);
    FeedAppend(crc, v, t[q..]);
    FeedAllInjective(FeedAll(crc, u), FeedAll(crc, v), s[q..]);
    FeedWindow(crc, u);
    FeedWindow(crc, v);
    StepsInjective(Xor16(crc, Pack(u)), Xor16(crc, Pack(v)), |u|);
    Xor16Is(crc, Pack(u));
    Xor16Is(crc, Pack(v));
    XorComm(crc, Pack(u));
    XorComm(crc, Pack(v));
    XorCancel(Pack(u), Pack(v), crc);
    PackInjective(u, v);
  }

  // ---------------------------------------------------------------- parity

  // The number of one bits in a bit string, and the number of positions where two differ.
  function CountOnes(s: seq<bool>): nat {
    if s == [] then 0 else Bit(s[0]) + CountOnes(s[1..])
  }

  function CountDifferences(s: seq<bool>, t: seq<bool>): nat
    requires |s| == |t|
  {
    if s == [] then 0 else (if s[0] == t[0] then 0 else 1) + CountDifferences(s[1..], t[1..])
  }

  lemma {:induction false} DifferencesParity(s: seq<bool>, t: seq<bool>)
    requires |s| == |t|
    ensures CountDifferences(s, t) % 2 == (CountOnes(s) + CountOnes(t)) % 2
  {
    if s != [] {
      DifferencesParity(s[1..], t[1..]);
    }
  }

  // A shift keeps the parity of the register: the polynomial has three one bits for the one shifted out.
  lemma StepParity(crc: uint16)
    ensures Ones(Step(crc)) % 2 == Ones(crc) % 2
  {
    hide Xor, Ones;
    var p, x := Digits(crc);
    OnesDigits(p, x);
    OnesXor(p, 0xA001);
    OnesOfPolynomial();
  }

  lemma OnesOfPolynomial()
    ensures Ones(0xA001) == 3
  {
    hide Ones;
    OnesZero();
    OnesDigits(0, 1);
    OnesDigits(1, 0);
    OnesDigits(2, 1);
    // 0xA001 == 2 * 0x5000 + 1, and 0x5000 is 5 shifted by 12
    OnesShift(5, 12);
    assert Pow2(3) == 8 && Pow2(6) == 64 && Pow2(9) == 512 && Pow2(12) == 0x1000;
    OnesDigits(0x5000, 1);
  }

  lemma {:induction false} OnesShift(a: nat, n: nat)
    ensures Ones(a * Pow2(n)) == Ones(a)
  {
    hide Ones;
    if n > 0 {
      assert a * Pow2(n) == 2 * (a * Pow2(n - 1));
      OnesDigits(a * Pow2(n - 1), 0);
      OnesShift(a, n - 1);
    }
  }

  lemma {:induction false} FeedAllParity(crc: uint16, s: seq<bool>)
    ensures Ones(FeedAll(crc, s)) % 2 == (Ones(crc) + CountOnes(s)) % 2
    decreases |s|
  {
    hide Xor, Ones, Step;
    if s != [] {
      FeedAllParity(Feed(crc, s[0]), s[1..]);
      StepParity(Xor16(crc, Bit(s[0])));
      OnesXor(crc, Bit(s[0]));
      OnesOfBit(s[0]);
    }
  }

  lemma OnesOfBit(b: bool)
    ensures Ones(Bit(b)) == Bit(b)
  {}

  // The checksum has as many one bits as the message, modulo 2.
  lemma CrcParity(data: Bytes)
    ensures Ones(Crc(data)) % 2 == CountOnes(MessageBits(data)) % 2
  {
    hide Crc, MessageBits, FeedAll, CountOnes;
    CrcIsFeedAll(data);
    FeedAllParity(0, MessageBits(data));
  }

  // Hence an odd number of flipped bits changes the checksum.
  lemma OddErrorsDetected(x: Bytes, y: Bytes)
    requires |x| == |y|
    requires CountDifferences(MessageBits(x), MessageBits(y)) % 2 == 1
    ensures Crc(x) != Crc(y)
  {
    hide Crc, MessageBits, Ones, CountOnes, CountDifferences;
    CrcParity(x);
    CrcParity(y);
    DifferencesParity(MessageBits(x), MessageBits(y));
  }
}

// Machine integers and their binary digits. A `uintN` is an int in range; `^`, `>> k` and `& 0xff`
// on unsigned values are `Xor`, division by a power of two and remainder.

module Bits {
  type byte = x: int | 0 <= x < 0x100
  type uint16 = x: int | 0 <= x < 0x1_0000
  type uint32 = x: int | 0 <= x < 0x1_0000_0000
  type uint64 = x: int | 0 <= x < 0x1_0000_0000_0000_0000
  type int16 = x: int | -0x8000 <= x < 0x8000
  type int32 = x: int | -0x8000_0000 <= x < 0x8000_0000

  type Bytes = seq<byte>

  function Pow2(n: nat): (p: nat)
    ensures p > 0
  {
    if n == 0 then 1 else 2 * Pow2(n - 1)
  }

  // Bitwise exclusive or, digit by digit.
  function Xor(a: nat, b: nat): nat
    decreases a + b
  {
    if a == 0 && b == 0 then 0 else 2 * Xor(a / 2, b / 2) + Differ(a % 2, b % 2)
  }

  // Numbers in the form 2a + x, with x the lowest digit.
  lemma XorDigits(a: nat, x: nat, b: nat, y: nat)
    requires x < 2 && y < 2
    ensures Xor(2 * a + x, 2 * b + y) == 2 * Xor(a, b) + Differ(x, y)
  {
    var c, d := 2 * a + x, 2 * b + y;
    assert c / 2 == a && c % 2 == x && d / 2 == b && d % 2 == y;
  }

  lemma {:induction false} XorBound(a: nat, b: nat, n: nat)
    requires a < Pow2(n) && b < Pow2(n)
    ensures Xor(a, b) < Pow2(n)
    decreases n
  {
    if n > 0 {
      XorBound(a / 2, b / 2, n - 1);
    }
  }

  lemma {:induction false} XorZero(a: nat)
    ensures Xor(a, 0) == a == Xor(0, a)
  {
    if a > 0 {
      XorZero(a / 2);
    }
  }

  lemma {:induction false} XorComm(a: nat, b: nat)
    ensures Xor(a, b) == Xor(b, a)
    decreases a + b
  {
    if a + b > 0 {
      XorComm(a / 2, b / 2);
    }
  }

  // Splits off the lowest digit.
  lemma Digits(a: nat) returns (p: nat, x: nat)
    ensures a == 2 * p + x && x < 2
    ensures a > 0 ==> p < a
  {
    p, x := a / 2, a % 2;
  }

  function Differ(x: nat, y: nat): nat { if x == y then 0 else 1 }

  lemma {:induction false} XorAssoc(a: nat, b: nat, c: nat)
    ensures Xor(Xor(a, b), c) == Xor(a, Xor(b, c))
    decreases a + b + c
  {
    hide Xor;
    XorZero(0);
    if a + b + c > 0 {
      var p, x := Digits(a);
      var q, y := Digits(b);
      var r, z := Digits(c);
      XorDigits(p, x, q, y);
      XorDigits(q, y, r, z);
      XorDigits(Xor(p, q), Differ(x, y), r, z);
      XorDigits(p, x, Xor(q, r), Differ(y, z));
      XorAssoc(p, q, r);
    }
  }

  lemma {:induction false} XorSelf(a: nat)
    ensures Xor(a, a) == 0
  {
    if a > 0 {
      XorSelf(a / 2);
    }
  }

  // Exclusive or with a fixed value is its own inverse, hence injective.
  lemma XorCancel(a: nat, b: nat, k: nat)
    requires Xor(a, k) == Xor(b, k)
    ensures a == b
  {
    XorAssoc(a, k, k);
    XorAssoc(b, k, k);
    XorSelf(k);
    XorZero(a);
    XorZero(b);
  }

  // (a ^ b) ^ (c ^ d) == (a ^ c) ^ (b ^ d)
  lemma XorExchange(a: nat, b: nat, c: nat, d: nat)
    ensures Xor(Xor(a, b), Xor(c, d)) == Xor(Xor(a, c), Xor(b, d))
  {
    XorAssoc(a, b, Xor(c, d));
    XorAssoc(b, c, d);
    XorComm(b, c);
    XorAssoc(c, b, d);
    XorAssoc(a, c, Xor(b, d));
  }

  // Adding numbers with disjoint digits is exclusive or: a multiple of 2^n and a number below 2^n.
  lemma {:induction false} XorDisjoint(high: nat, low: nat, n: nat)
    requires low < Pow2(n)
    ensures Xor(high * Pow2(n), low) == high * Pow2(n) + low
  {
    if n == 0 {
      XorZero(high);
    } else {
      var p := Pow2(n - 1);
      assert high * Pow2(n) == 2 * (high * p);
      XorDigits(high * p, 0, low / 2, low % 2);
      XorDisjoint(high, low / 2, n - 1);
    }
  }

  // The number of one bits.
  function Ones(a: nat): nat {
    if a == 0 then 0 else a % 2 + Ones(a / 2)
  }

  lemma OnesZero()
    ensures Ones(0) == 0
  {}

  lemma OnesDigits(a: nat, x: nat)
    requires x < 2
    ensures Ones(2 * a + x) == x + Ones(a)
  {
    var c := 2 * a + x;
    assert c / 2 == a && c % 2 == x;
  }

  lemma {:induction false} OnesXor(a: nat, b: nat)
    ensures Ones(Xor(a, b)) % 2 == (Ones(a) + Ones(b)) % 2
    decreases a + b
  {
    hide Xor, Ones;
    OnesZero();
    XorZero(0);
    if a + b > 0 {
      var p, x := Digits(a);
      var q, y := Digits(b);
      OnesXor(p, q);
      XorDigits(p, x, q, y);
      OnesDigits(p, x);
      OnesDigits(q, y);
      OnesDigits(Xor(p, q), Differ(x, y));
    }
  }

  // The n low bits of v, least significant first, and the number they spell.
  function BitsOf(v: nat, n: nat): (s: seq<bool>)
    ensures |s| == n
  {
    if n == 0 then [] else [v % 2 == 1] + BitsOf(v / 2, n - 1)
  }

  function Bit(b: bool): nat { if b then 1 else 0 }

  function Pack(s: seq<bool>): nat {
    if s == [] then 0 else Bit(s[0]) + 2 * Pack(s[1..])
  }

  lemma {:induction false} PackBitsOf(v: nat, n: nat)
    requires v < Pow2(n)
    ensures Pack(BitsOf(v, n)) == v
  {
    if n > 0 {
      PackBitsOf(v / 2, n - 1);
      assert BitsOf(v, n)[1..] == BitsOf(v / 2, n - 1);
    }
  }

  lemma {:induction false} PackBound(s: seq<bool>)
    ensures Pack(s) < Pow2(|s|)
  {
    if s != [] {
      PackBound(s[1..]);
    }
  }

  lemma {:induction false} PackInjective(s: seq<bool>, t: seq<bool>)
    requires |s| == |t| && Pack(s) == Pack(t)
    ensures s == t
  {
    if s != [] {
      assert Pack(s) % 2 == Bit(s[0]) && Pack(t) % 2 == Bit(t[0]);
      PackInjective(s[1..], t[1..]);
      assert s == [s[0]] + s[1..] && t == [t[0]] + t[1..];
    }
  }

  // ---------------------------------------------------------------- products

  // A product by name, so that proofs can hide it.
  function Times(q: nat, i: nat): nat { q * i }

  lemma TimesOrder(a: nat, b: nat, i: nat)
    requires i > 0
    ensures Times(a, i) < Times(b, i) <==> a < b
    ensures Times(a, i) == Times(b, i) <==> a == b
  {
    if a < b {
      assert (a + 1) * i <= b * i;
    } else if b < a {
      assert (b + 1) * i <= a * i;
    }
  }

  lemma TimesLaws(q: nat, i: nat)
    ensures Times(q, 2 * i) == Times(2 * q, i) == 2 * Times(q, i)
    ensures Times(q + 1, i) == Times(q, i) + i
    ensures Times(0, i) == 0 && Times(1, i) == i && Times(q, 1) == q
  {}
}

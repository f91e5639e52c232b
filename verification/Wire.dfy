// Big-endian integers on the wire, and the parse result every reader of a byte string returns.

module Wire {
  import opened Bits

  function Pow256(n: nat): (p: nat)
    ensures p > 0
  {
    if n == 0 then 1 else 0x100 * Pow256(n - 1)
  }

  lemma Widths()
    ensures Pow256(1) == 0x100 && Pow256(2) == 0x1_0000
    ensures Pow256(4) == 0x1_0000_0000 && Pow256(8) == 0x1_0000_0000_0000_0000
  {
    assert Pow256(2) == 0x1_0000;
    assert Pow256(4) == 0x1_0000_0000;
    assert Pow256(6) == 0x1_0000_0000_0000;
  }

  // The n low bytes of v, most significant first.
  function BigEndian(v: nat, n: nat): (s: Bytes)
    ensures |s| == n
  {
    if n == 0 then [] else BigEndian(v / 0x100, n - 1) + [v % 0x100]
  }

  function FromBigEndian(s: Bytes): nat {
    if s == [] then 0 else 0x100 * FromBigEndian(s[..|s| - 1]) + s[|s| - 1]
  }

  lemma {:induction false} FromBigEndianBound(s: Bytes)
    ensures FromBigEndian(s) < Pow256(|s|)
  {
    if s != [] {
      FromBigEndianBound(s[..|s| - 1]);
    }
  }

  lemma {:induction false} BigEndianInverse(v: nat, n: nat)
    requires v < Pow256(n)
    ensures FromBigEndian(BigEndian(v, n)) == v
  {
    if n > 0 {
      BigEndianInverse(v / 0x100, n - 1);
      assert BigEndian(v, n)[..n - 1] == BigEndian(v / 0x100, n - 1);
    }
  }

  lemma {:induction false} FromBigEndianInverse(s: Bytes)
    ensures BigEndian(FromBigEndian(s), |s|) == s
  {
    if s != [] {
      FromBigEndianInverse(s[..|s| - 1]);
      assert s == s[..|s| - 1] + [s[|s| - 1]];
    }
  }

  // ---------------------------------------------------------------- which byte counts how much

  // Byte i of n bytes counts 256 to the power of n - 1 - i.
  lemma {:induction false} BigEndianAt(v: nat, n: nat, i: nat)
    requires i < n
    ensures BigEndian(v, n)[i] == v / Pow256(n - 1 - i) % 0x100
  {
    if i < n - 1 {
      BigEndianAt(v / 0x100, n - 1, i);
      DivideTwice(v, Pow256(n - 2 - i));
    }
  }

  lemma DivideTwice(v: nat, p: nat)
    requires p > 0
    ensures v / 0x100 / p == v / (0x100 * p)
  {
    var q, r := v / 0x100 / p, v / 0x100 % p;
    assert 0x100 * (p * q) == Times(q, 0x100 * p);
    Quotient(v, 0x100 * p, q, 0x100 * r + v % 0x100);
  }

  lemma Quotient(v: nat, d: nat, q: nat, r: nat)
    requires v == Times(q, d) + r && r < d
    ensures v / d == q
  {
    var w := v / d;
    assert v == Times(w, d) + v % d;
    hide Times;
    TimesLaws(q, d);
    TimesLaws(w, d);
    TimesOrder(q, w + 1, d);
    TimesOrder(w, q + 1, d);
  }

  // The same with the powers written out, counted from the last byte.
  lemma BigEndianBytes(v: nat, n: nat)
    requires n <= 8
    ensures n >= 1 ==> BigEndian(v, n)[n - 1] == v % 0x100
    ensures n >= 2 ==> BigEndian(v, n)[n - 2] == v / 0x100 % 0x100
    ensures n >= 3 ==> BigEndian(v, n)[n - 3] == v / 0x1_0000 % 0x100
    ensures n >= 4 ==> BigEndian(v, n)[n - 4] == v / 0x100_0000 % 0x100
    ensures n >= 5 ==> BigEndian(v, n)[n - 5] == v / 0x1_0000_0000 % 0x100
    ensures n >= 6 ==> BigEndian(v, n)[n - 6] == v / 0x100_0000_0000 % 0x100
    ensures n >= 7 ==> BigEndian(v, n)[n - 7] == v / 0x1_0000_0000_0000 % 0x100
    ensures n >= 8 ==> BigEndian(v, n)[n - 8] == v / 0x100_0000_0000_0000 % 0x100
  {
    hide BigEndian, Pow256;
    Powers();
    if n >= 1 { BigEndianAt(v, n, n - 1); }
    if n >= 2 { BigEndianAt(v, n, n - 2); }
    if n >= 3 { BigEndianAt(v, n, n - 3); }
    if n >= 4 { BigEndianAt(v, n, n - 4); }
    if n >= 5 { BigEndianAt(v, n, n - 5); }
    if n >= 6 { BigEndianAt(v, n, n - 6); }
    if n >= 7 { BigEndianAt(v, n, n - 7); }
    if n >= 8 { BigEndianAt(v, n, n - 8); }
  }

  lemma Powers()
    ensures Pow256(0) == 1 && Pow256(1) == 0x100 && Pow256(2) == 0x1_0000 && Pow256(3) == 0x100_0000
    ensures Pow256(4) == 0x1_0000_0000 && Pow256(5) == 0x100_0000_0000
    ensures Pow256(6) == 0x1_0000_0000_0000 && Pow256(7) == 0x100_0000_0000_0000
  {
    assert Pow256(2) == 0x1_0000;
    assert Pow256(4) == 0x1_0000_0000;
    assert Pow256(6) == 0x1_0000_0000_0000;
  }

  lemma OneByte(v: nat)
    ensures BigEndian(v, 1) == [v % 0x100]
  {
    assert BigEndian(v / 0x100, 0) == [];
  }

  lemma TwoBytes(q: nat, high: byte, low: byte)
    ensures BigEndian(q * 0x1_0000 + high * 0x100 + low, 2) == [high, low]
  {
    var v := q * 0x1_0000 + high * 0x100 + low;
    assert v / 0x100 == q * 0x100 + high && v % 0x100 == low;
    OneByte(v / 0x100);
  }

  lemma FromPrefix(s: Bytes, k: nat)
    requires 0 < k <= |s|
    ensures FromBigEndian(s[..k]) == 0x100 * FromBigEndian(s[..k - 1]) + s[k - 1]
    ensures FromBigEndian(s[..0]) == 0
  {
    assert s[..k][..k - 1] == s[..k - 1];
  }

  // Reading: the value of each byte.
  lemma FromBytes(s: Bytes)
    ensures |s| == 1 ==> FromBigEndian(s) == s[0]
    ensures |s| == 2 ==> FromBigEndian(s) == 0x100 * (s[0] as int) + s[1]
    ensures |s| == 4 ==>
      FromBigEndian(s) == 0x100_0000 * (s[0] as int) + 0x1_0000 * (s[1] as int) + 0x100 * (s[2] as int) + s[3]
  {
    hide FromBigEndian;
    assert s[..|s|] == s;
    if |s| >= 1 { FromPrefix(s, 1); }
    if |s| >= 2 { FromPrefix(s, 2); }
    if |s| == 4 {
      FromPrefix(s, 3);
      FromPrefix(s, 4);
    }
  }

  lemma FromEightBytes(s: Bytes)
    requires |s| == 8
    ensures FromBigEndian(s)
            == 0x100_0000_0000_0000 * (s[0] as int) + 0x1_0000_0000_0000 * (s[1] as int)
               + 0x100_0000_0000 * (s[2] as int) + 0x1_0000_0000 * (s[3] as int)
               + 0x100_0000 * (s[4] as int) + 0x1_0000 * (s[5] as int) + 0x100 * (s[6] as int) + s[7]
  {
    hide FromBigEndian;
    FromPrefix(s, 8);
    FromPrefix(s, 7);
    FromPrefix(s, 6);
    FromPrefix(s, 5);
    FromBytes(s[..4]);
    assert s[..8] == s;
  }

  // ---------------------------------------------------------------- two's complement

  function Unsigned16(x: int16): (u: uint16)
    ensures (u - x) % 0x1_0000 == 0
  {
    if x < 0 then x + 0x1_0000 else x
  }

  function Signed16(x: uint16): (v: int16)
    ensures (v - x) % 0x1_0000 == 0
  {
    if x >= 0x8000 then x - 0x1_0000 else x
  }

  function Unsigned32(x: int32): (u: uint32)
    ensures (u - x) % 0x1_0000_0000 == 0
  {
    if x < 0 then x + 0x1_0000_0000 else x
  }

  function Signed32(x: uint32): (v: int32)
    ensures (v - x) % 0x1_0000_0000 == 0
  {
    if x >= 0x8000_0000 then x - 0x1_0000_0000 else x
  }

  // ---------------------------------------------------------------- parse results

  datatype Option<+T> = None | Some(value: T) {
    predicate IsFailure() { None? }
    function PropagateFailure<U>(): Option<U>
      requires None?
    {
      None
    }
    function Extract(): T
      requires Some?
    {
      value
    }
  }

  // A value read off the front of a byte string, with the bytes left over.
  datatype Parsed<+T> = Fail | Done(value: T, rest: Bytes) {
    predicate IsFailure() { Fail? }
    function PropagateFailure<U>(): Parsed<U>
      requires Fail?
    {
      Fail
    }
    function Extract(): (T, Bytes)
      requires Done?
    {
      (value, rest)
    }
  }

  function Take(s: Bytes, n: nat): Parsed<Bytes> {
    if n <= |s| then Done(s[..n], s[n..]) else Fail
  }

  function ParseUint(s: Bytes, n: nat): (p: Parsed<nat>)
    ensures p.Done? ==> p.value < Pow256(n)
  {
    if n <= |s| then
      FromBigEndianBound(s[..n]);
      Done(FromBigEndian(s[..n]), s[n..])
    else Fail
  }

  lemma TakeComplete(x: Bytes, t: Bytes)
    ensures Take(x + t, |x|) == Done(x, t)
  {
    assert (x + t)[..|x|] == x && (x + t)[|x|..] == t;
  }

  lemma TakeSound(s: Bytes, n: nat, x: Bytes, t: Bytes)
    requires Take(s, n) == Done(x, t)
    ensures |x| == n && s == x + t
  {}

  lemma UintComplete(v: nat, n: nat, t: Bytes)
    requires v < Pow256(n)
    ensures ParseUint(BigEndian(v, n) + t, n) == Done(v, t)
  {
    hide BigEndian, FromBigEndian, Pow256;
    BigEndianInverse(v, n);
    TakeComplete(BigEndian(v, n), t);
  }

  lemma UintSound(s: Bytes, n: nat, v: nat, t: Bytes)
    requires ParseUint(s, n) == Done(v, t)
    ensures v < Pow256(n) && s == BigEndian(v, n) + t
  {
    hide BigEndian, FromBigEndian, Pow256;
    FromBigEndianInverse(s[..n]);
  }

  // ---------------------------------------------------------------- writing into buffers

  // `now` is `original` with `out` written from index `start` on, and nothing else changed.
  ghost predicate Written(now: Bytes, original: Bytes, start: nat, out: Bytes) {
    && start + |out| <= |original|
    && now == original[..start] + out + original[start + |out|..]
  }

  lemma WrittenTwice(original: Bytes, start: nat, out: Bytes, now: Bytes, more: Bytes, after: Bytes)
    requires Written(now, original, start, out) && Written(after, now, start + |out|, more)
    ensures Written(after, original, start, out + more)
  {
    assert now[..start + |out|] == original[..start] + out;
    assert now[start + |out| + |more|..] == original[start + |out| + |more|..];
  }

  // Filling in the hole at the front of what was written.
  lemma WrittenHole(original: Bytes, start: nat, hole: Bytes, body: Bytes, now: Bytes, count: Bytes, after: Bytes)
    requires Written(now, original, start, hole + body)
    requires |count| == |hole| && Written(after, now, start, count)
    ensures Written(after, original, start, count + body)
  {
    assert now[..start] == original[..start];
    assert now[start + |count|..] == body + original[start + |hole + body|..];
  }

  lemma NothingWritten(original: Bytes, start: nat)
    requires start <= |original|
    ensures Written(original, original, start, [])
  {}

  // The first n bytes from start on, as they are.
  lemma HoleLeft(original: Bytes, start: nat, n: nat)
    requires start + n <= |original|
    ensures Written(original, original, start, original[start..start + n])
  {}

  lemma WrittenKeepsFront(now: Bytes, original: Bytes, start: nat, out: Bytes)
    requires Written(now, original, start, out)
    ensures now[..start] == original[..start]
  {}

  // Stores the n low bytes of v at buf[start..start + n].
  method PutUint(buf: array<byte>, start: nat, v: nat, n: nat)
    requires start + n <= buf.Length
    modifies buf
    ensures Written(buf[..], old(buf[..]), start, BigEndian(v, n))
  {
    hide FromBigEndian, Pow256;
    var rest := v;
    var i := n;
    while i > 0
      invariant 0 <= i <= n
      invariant buf[..start + i] == old(buf[..start + i])
      invariant BigEndian(rest, i) + buf[start + i..start + n] == BigEndian(v, n)
      invariant buf[start + n..] == old(buf[start + n..])
    {
      i := i - 1;
      ghost var tail := buf[start + i + 1..start + n];
      buf[start + i] := rest % 0x100;
      assert buf[start + i..start + n] == [rest % 0x100] + tail;
      rest := rest / 0x100;
    }
    assert old(buf[..])[..start] == old(buf[..start]) && old(buf[..])[start + n..] == old(buf[start + n..]);
  }

  method PutByte(buf: array<byte>, start: nat, b: byte)
    requires start < buf.Length
    modifies buf
    ensures Written(buf[..], old(buf[..]), start, [b])
  {
    buf[start] := b;
    assert buf[..] == old(buf[..])[..start] + [b] + old(buf[..])[start + 1..];
  }

  // Copies src to buf[start..start + |src|].
  method Copy(buf: array<byte>, start: nat, src: Bytes)
    requires start + |src| <= buf.Length
    modifies buf
    ensures Written(buf[..], old(buf[..]), start, src)
  {
    for i := 0 to |src|
      invariant buf[..start] == old(buf[..start])
      invariant buf[start..start + i] == src[..i]
      invariant buf[start + i..] == old(buf[start + i..])
    {
      buf[start + i] := src[i];
    }
    assert old(buf[..])[..start] == old(buf[..start]) && old(buf[..])[start + |src|..] == old(buf[start + |src|..]);
  }
}

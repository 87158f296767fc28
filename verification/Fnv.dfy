/** FNV-1a on 64-bit states, and why no one-byte edit survives it. */
module Fnv {
  import opened Bytes

  const PRIME: int := 0x100_0000_01b3
  const INVERSE: int := 0xce96_5057_aff6_957b
  const BASIS: Word := 0xcbf2_9ce4_8422_2325

  /** Bitwise exclusive or of the low `bits` bits. */
  function Xor(a: nat, b: nat, bits: nat): nat
    decreases bits
  {
    if bits == 0 then 0 else (a + b) % 2 + 2 * Xor(a / 2, b / 2, bits - 1)
  }

  function Pow2(bits: nat): nat {
    if bits == 0 then 1 else 2 * Pow2(bits - 1)
  }

  lemma {:induction false} XorBound(a: nat, b: nat, bits: nat)
    ensures Xor(a, b, bits) < Pow2(bits)
    decreases bits
  {
    if bits > 0 {
      XorBound(a / 2, b / 2, bits - 1);
    }
  }

  lemma {:induction false} XorUndone(a: nat, b: nat, bits: nat)
    requires a < Pow2(bits) && b < Pow2(bits)
    ensures Xor(Xor(a, b, bits), b, bits) == a && Xor(a, Xor(a, b, bits), bits) == b
    decreases bits
  {
    if bits > 0 {
      XorUndone(a / 2, b / 2, bits - 1);
      hide Xor, Pow2;
      var x := Xor(a, b, bits);
      XorDigit(a, b, bits);
      XorDigit(x, b, bits);
      XorDigit(a, x, bits);
      Parity(a, b, x);
    }
  }

  lemma XorDigit(a: nat, b: nat, bits: nat)
    requires bits > 0
    ensures Xor(a, b, bits) == (a + b) % 2 + 2 * Xor(a / 2, b / 2, bits - 1)
    ensures Xor(a, b, bits) / 2 == Xor(a / 2, b / 2, bits - 1) && Xor(a, b, bits) % 2 == (a + b) % 2
  {
  }

  lemma Parity(a: nat, b: nat, x: nat)
    requires x % 2 == (a + b) % 2
    ensures (x + b) % 2 == a % 2 && (a + x) % 2 == b % 2
    ensures a == a % 2 + 2 * (a / 2) && b == b % 2 + 2 * (b / 2)
  {
  }

  function XorByte(a: Byte, b: Byte): Byte {
    XorBound(a, b, 8);
    assert Pow2(4) == 16 && Pow2(6) == 64 && Pow2(8) == 256;
    Xor(a, b, 8)
  }

  /** `h ^ b` for a byte `b`: only the low byte changes. */
  function XorLow(h: Word, b: Byte): Word {
    hide XorByte;
    h - h % 256 + XorByte(h % 256, b)
  }

  function Step(h: Word, b: Byte): Word {
    Wrap64(XorLow(h, b) * PRIME)
  }

  /** The hash state after `s`, starting from `h`. */
  function HashFrom(h: Word, s: seq<Byte>): Word
    decreases |s|
  {
    if s == [] then h else HashFrom(Step(h, s[0]), s[1..])
  }

  function Hash(s: seq<Byte>): Word {
    HashFrom(BASIS, s)
  }

  method Fnv1a(bytes: seq<Byte>) returns (h: Word)
    ensures h == Hash(bytes)
  {
    h := BASIS;
    for i := 0 to |bytes|
      invariant HashFrom(h, bytes[i..]) == Hash(bytes)
    {
      assert bytes[i..][0] == bytes[i] && bytes[i..][1..] == bytes[i + 1..];
      h := XorLow(h, bytes[i]);
      h := Wrap64(h * PRIME);
    }
  }

  lemma XorTwice(a: Byte, b: Byte)
    ensures XorByte(XorByte(a, b), b) == a
    ensures XorByte(a, XorByte(a, b)) == b
  {
    assert Pow2(4) == 16 && Pow2(6) == 64 && Pow2(8) == 256;
    hide Xor;
    XorUndone(a, b, 8);
  }

  /** The prime has an inverse modulo 2^64, so multiplying by it loses nothing. */
  lemma MultiplicationUndone(x: Word)
    ensures Wrap64(Wrap64(x * PRIME) * INVERSE) == x
  {
    var k := PRIME * INVERSE / TWO64;
    assert PRIME * INVERSE == 1 + k * TWO64;
    var t := x * PRIME / TWO64;
    var y := Wrap64(x * PRIME);
    assert x * PRIME == t * TWO64 + y;
    calc {
      y * INVERSE;
      (x * PRIME - t * TWO64) * INVERSE;
      x * (PRIME * INVERSE) - (t * INVERSE) * TWO64;
      x * (1 + k * TWO64) - (t * INVERSE) * TWO64;
      x + (x * k - t * INVERSE) * TWO64;
    }
    ModUnique(x, x * k - t * INVERSE);
  }

  lemma ModUnique(x: Word, q: int)
    ensures Wrap64(x + q * TWO64) == x
  {
  }

  lemma XorLowUndone(h: Word, b: Byte)
    ensures XorLow(XorLow(h, b), b) == h
  {
    hide XorByte;
    var a := h % 256;
    XorTwice(a, b);
    assert XorLow(h, b) % 256 == XorByte(a, b);
  }

  /** Each step is a bijection on states, and on bytes for a fixed state. */
  lemma StepInjective(h: Word, h': Word, b: Byte)
    requires Step(h, b) == Step(h', b)
    ensures h == h'
  {
    MultiplicationUndone(XorLow(h, b));
    MultiplicationUndone(XorLow(h', b));
    XorLowUndone(h, b);
    XorLowUndone(h', b);
  }

  lemma StepSeesByte(h: Word, b: Byte, b': Byte)
    requires Step(h, b) == Step(h, b')
    ensures b == b'
  {
    hide XorByte;
    MultiplicationUndone(XorLow(h, b));
    MultiplicationUndone(XorLow(h, b'));
    XorTwice(h % 256, b);
    XorTwice(h % 256, b');
  }

  /** Distinct states stay distinct under any common suffix. */
  lemma {:induction false} SuffixKeepsDistinct(h: Word, h': Word, s: seq<Byte>)
    requires h != h'
    ensures HashFrom(h, s) != HashFrom(h', s)
    decreases |s|
  {
    if s != [] {
      if Step(h, s[0]) == Step(h', s[0]) {
        StepInjective(h, h', s[0]);
      }
      SuffixKeepsDistinct(Step(h, s[0]), Step(h', s[0]), s[1..]);
    }
  }

  /** Changing exactly one byte, anywhere in any input, changes the hash. */
  lemma {:induction false} OneByteEditDetected(h: Word, s: seq<Byte>, i: nat, b: Byte)
    requires i < |s| && b != s[i]
    ensures HashFrom(h, s[i := b]) != HashFrom(h, s)
    decreases |s|
  {
    if i == 0 {
      assert s[0 := b][1..] == s[1..];
      if Step(h, b) == Step(h, s[0]) {
        StepSeesByte(h, b, s[0]);
      }
      SuffixKeepsDistinct(Step(h, b), Step(h, s[0]), s[1..]);
    } else {
      assert s[i := b][1..] == s[1..][i - 1 := b];
      OneByteEditDetected(Step(h, s[0]), s[1..], i - 1, b);
    }
  }

  lemma XorExample()
    ensures XorByte(0x25, 0x61) == 0x44
  {
    assert Xor(0, 0, 1) == 0;
    assert Xor(0, 1, 2) == 1;
    assert Xor(1, 3, 3) == 2;
    assert Xor(2, 6, 4) == 4;
    assert Xor(4, 12, 5) == 8;
    assert Xor(9, 24, 6) == 17;
    assert Xor(18, 48, 7) == 34;
    assert Xor(37, 97, 8) == 68;
  }

  /** The published FNV-1a values of the empty string and of one letter. */
  lemma KnownHashes()
    ensures Hash([]) == 0xcbf2_9ce4_8422_2325
    ensures Hash([0x61]) == 0xaf63_dc4c_8601_ec8c
  {
    XorExample();
    hide XorByte;
    assert [0x61][1..] == [];
    assert BASIS % 256 == 0x25 && XorLow(BASIS, 0x61) == 0xcbf2_9ce4_8422_2344;
    assert Step(BASIS, 0x61) == 0xaf63_dc4c_8601_ec8c;
  }
}

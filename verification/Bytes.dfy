/** Bytes, 64-bit words and little-endian coding. */
module Bytes {

  type Byte = b: int | 0 <= b < 256
  type Word = w: int | 0 <= w < 0x1_0000_0000_0000_0000

  const TWO32: int := 0x1_0000_0000
  const TWO64: int := 0x1_0000_0000_0000_0000

  function Wrap64(n: int): Word {
    n % 0x1_0000_0000_0000_0000
  }

  function Pow256(k: nat): (p: nat)
    ensures p > 0
  {
    if k == 0 then 1 else 256 * Pow256(k - 1)
  }

  /** The number whose little-endian bytes are `s`. */
  function LeNat(s: seq<Byte>): nat {
    if s == [] then 0 else s[0] + 256 * LeNat(s[1..])
  }

  /** The low `k` bytes of `n`, least significant first. */
  function ToLe(n: nat, k: nat): (s: seq<Byte>)
    ensures |s| == k
  {
    if k == 0 then [] else [n % 256] + ToLe(n / 256, k - 1)
  }

  /** Byte `i` is the i-th least significant one. */
  lemma {:induction false} LittleEndian(n: nat, k: nat, i: nat)
    requires i < k
    ensures ToLe(n, k)[i] == n / Pow256(i) % 256
    decreases k
  {
    if i > 0 {
      LittleEndian(n / 256, k - 1, i - 1);
      assert n / 256 / Pow256(i - 1) == n / Pow256(i) by {
        DivideTwice(n, Pow256(i - 1));
      }
    }
  }

  lemma DivideTwice(n: nat, m: nat)
    requires m > 0
    ensures n / 256 / m == n / (256 * m)
  {
    var q, r := n / 256 / m, n / 256 % m;
    assert n / 256 == m * q + r;
    assert n == 256 * (n / 256) + n % 256;
    assert n == (256 * m) * q + (256 * r + n % 256);
    assert 0 <= 256 * r + n % 256 < 256 * m;
    QuotientIs(n, 256 * m, q, 256 * r + n % 256);
  }

  lemma TimesMonotone(d: nat, a: nat, b: nat)
    requires a <= b
    ensures d * a <= d * b
  {
  }

  lemma QuotientIs(n: nat, d: nat, q: nat, r: nat)
    requires 0 < d && r < d && n == d * q + r
    ensures n / d == q
  {
    var p := n / d;
    assert n == d * p + n % d;
    if p < q {
      TimesMonotone(d, p + 1, q);
    } else if q < p {
      TimesMonotone(d, q + 1, p);
    }
  }

  lemma {:induction false} LeRoundTrip(n: nat, k: nat)
    requires n < Pow256(k)
    ensures LeNat(ToLe(n, k)) == n
  {
    if k > 0 {
      assert ToLe(n, k)[1..] == ToLe(n / 256, k - 1);
      LeRoundTrip(n / 256, k - 1);
    }
  }

  lemma {:induction false} LeBound(s: seq<Byte>)
    ensures LeNat(s) < Pow256(|s|)
  {
    if s != [] {
      LeBound(s[1..]);
    }
  }

  lemma {:induction false} LeBack(s: seq<Byte>)
    ensures ToLe(LeNat(s), |s|) == s
  {
    if s != [] {
      LeBack(s[1..]);
      assert LeNat(s) % 256 == s[0] && LeNat(s) / 256 == LeNat(s[1..]);
    }
  }

  lemma SmallLe(n: Byte)
    ensures ToLe(n, 4) == [n, 0, 0, 0] && ToLe(n, 8) == [n, 0, 0, 0, 0, 0, 0, 0]
  {
    assert ToLe(0, 1) == [0] && ToLe(0, 2) == [0, 0] && ToLe(0, 3) == [0, 0, 0];
    assert ToLe(0, 4) == [0, 0, 0, 0] && ToLe(0, 5) == [0, 0, 0, 0, 0];
    assert ToLe(0, 6) == [0, 0, 0, 0, 0, 0] && ToLe(0, 7) == [0, 0, 0, 0, 0, 0, 0];
  }

  lemma Pow256Values()
    ensures Pow256(1) == 256 && Pow256(2) == 0x1_0000
    ensures Pow256(4) == 0x1_0000_0000
    ensures Pow256(8) == 0x1_0000_0000_0000_0000
  {
    assert Pow256(3) == 0x100_0000;
    assert Pow256(6) == 0x1_0000_0000_0000;
  }

  function Le4(s: seq<Byte>): (n: nat)
    requires |s| == 4
    ensures n < 0x1_0000_0000
  {
    LeBound(s);
    Pow256Values();
    LeNat(s)
  }

  function Le8(s: seq<Byte>): Word
    requires |s| == 8
  {
    LeBound(s);
    Pow256Values();
    LeNat(s)
  }

  lemma Le4RoundTrip(n: nat)
    requires n < 0x1_0000_0000
    ensures Le4(ToLe(n, 4)) == n
  {
    Pow256Values();
    LeRoundTrip(n, 4);
  }

  lemma Le8RoundTrip(w: Word)
    ensures Le8(ToLe(w, 8)) == w
  {
    Pow256Values();
    LeRoundTrip(w, 8);
  }
}

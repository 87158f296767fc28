/**
 Rust strings as Dafny strings: both are sequences of Unicode scalar values.
 `Encode` is the string's UTF-8 bytes and `LossyDecode` is `String::from_utf8_lossy`.
 */
module Utf8 {
  import opened Bytes

  function EncodeChar(c: char): (s: seq<Byte>)
    ensures 1 <= |s| <= 4
  {
    var n := c as int;
    if n < 0x80 then [n]
    else if n < 0x800 then [0xC0 + n / 0x40, 0x80 + n % 0x40]
    else if n < 0x1_0000 then [0xE0 + n / 0x1000, 0x80 + n / 0x40 % 0x40, 0x80 + n % 0x40]
    else [0xF0 + n / 0x4_0000, 0x80 + n / 0x1000 % 0x40, 0x80 + n / 0x40 % 0x40, 0x80 + n % 0x40]
  }

  function Encode(s: string): seq<Byte> {
    if s == [] then [] else EncodeChar(s[0]) + Encode(s[1..])
  }

  predicate Continuation(b: Byte) {
    0x80 <= b < 0xC0
  }

  /** Whether `b` may follow the lead byte `lead` (Table 3-7 of the Unicode Standard). */
  predicate SecondOk(lead: Byte, b: Byte) {
    if lead == 0xE0 then 0xA0 <= b < 0xC0
    else if lead == 0xED then 0x80 <= b < 0xA0
    else if lead == 0xF0 then 0x90 <= b < 0xC0
    else if lead == 0xF4 then 0x80 <= b < 0x90
    else Continuation(b)
  }

  const REPLACEMENT: int := 0xFFFD

  predicate Scalar(n: int) {
    0 <= n < 0xD800 || 0xE000 <= n < 0x11_0000
  }

  /** The code point and length of the first character of a non-empty byte string. */
  function DecodeFirst(s: seq<Byte>): (r: (int, nat))
    requires s != []
    ensures 1 <= r.1 <= |s| && Scalar(r.0)
  {
    var b: int := s[0];
    if b < 0x80 then (b, 1)
    else if b < 0xC2 || 0xF5 <= b then (REPLACEMENT, 1)
    else if |s| < 2 || !SecondOk(b, s[1]) then (REPLACEMENT, 1)
    else
      var p: int := s[1] as int - 0x80;
      if b < 0xE0 then (0x40 * (b - 0xC0) + p, 2)
      else if |s| < 3 || !Continuation(s[2]) then (REPLACEMENT, 2)
      else
        var q: int := s[2] as int - 0x80;
        if b < 0xF0 then (0x1000 * (b - 0xE0) + 0x40 * p + q, 3)
        else if |s| < 4 || !Continuation(s[3]) then (REPLACEMENT, 3)
        else
          var t: int := s[3] as int - 0x80;
          (0x4_0000 * (b - 0xF0) + 0x1000 * p + 0x40 * q + t, 4)
  }

  function LossyDecode(s: seq<Byte>): string {
    if s == [] then []
    else
      var (c, n) := DecodeFirst(s);
      [c as char] + LossyDecode(s[n..])
  }

  lemma SixBitDigits(n: nat)
    ensures n == 0x40 * (n / 0x40) + n % 0x40
    ensures n / 0x1000 == n / 0x40 / 0x40 && n / 0x4_0000 == n / 0x1000 / 0x40
    ensures n == 0x1000 * (n / 0x1000) + 0x40 * (n / 0x40 % 0x40) + n % 0x40
    ensures n == 0x4_0000 * (n / 0x4_0000) + 0x1000 * (n / 0x1000 % 0x40) + 0x40 * (n / 0x40 % 0x40) + n % 0x40
  {
  }

  lemma DecodeFirstEncoded(c: char, rest: seq<Byte>)
    ensures DecodeFirst(EncodeChar(c) + rest) == (c as int, |EncodeChar(c)|)
  {
    var n, e := c as int, EncodeChar(c);
    var s := e + rest;
    SixBitDigits(n);
    assert forall i | 0 <= i < |e| :: s[i] == e[i];
  }

  // ----- malformed bytes -----

  /** The bytes of some character begin with `p`. */
  ghost predicate Begun(p: seq<Byte>) {
    exists c: char :: p <= EncodeChar(c)
  }

  /** The byte string begins with a whole character. */
  ghost predicate Whole(s: seq<Byte>) {
    exists c: char :: EncodeChar(c) <= s
  }

  /** A prefix of a character's bytes is well formed as far as it goes. */
  lemma EncodedShape(c: char, p: seq<Byte>)
    requires p != [] && p <= EncodeChar(c)
    ensures p[0] < 0x80 ==> |p| == 1
    ensures p[0] >= 0x80 ==> 0xC2 <= p[0] < 0xF5 && (|p| > 1 ==> SecondOk(p[0], p[1]))
    ensures 0xC2 <= p[0] < 0xE0 ==> |p| <= 2
    ensures 0xE0 <= p[0] < 0xF0 ==> |p| <= 3
    ensures |p| > 2 ==> Continuation(p[2])
    ensures |p| > 3 ==> Continuation(p[3])
  {
    SixBitDigits(c as int);
    var e := EncodeChar(c);
    assert forall i | 0 <= i < |p| :: p[i] == e[i];
  }

  lemma TwoDigits(a: nat, q: nat)
    requires q < 0x40
    ensures (0x40 * a + q) / 0x40 == a && (0x40 * a + q) % 0x40 == q
  {
  }

  lemma Encode2(a: nat, p: nat)
    requires 2 <= a < 0x20 && p < 0x40
    ensures EncodeChar((0x40 * a + p) as char) == [0xC0 + a, 0x80 + p]
  {
    TwoDigits(a, p);
  }

  lemma Encode3(a: nat, p: nat, q: nat)
    requires a < 0x10 && p < 0x40 && q < 0x40 && SecondOk(0xE0 + a, 0x80 + p)
    ensures Scalar(0x1000 * a + 0x40 * p + q)
    ensures EncodeChar((0x1000 * a + 0x40 * p + q) as char) == [0xE0 + a, 0x80 + p, 0x80 + q]
  {
    var n := 0x1000 * a + 0x40 * p + q;
    assert n == 0x40 * (0x40 * a + p) + q;
    TwoDigits(0x40 * a + p, q);
    TwoDigits(a, p);
    SixBitDigits(n);
  }

  lemma Encode4(a: nat, p: nat, q: nat, t: nat)
    requires a < 5 && p < 0x40 && q < 0x40 && t < 0x40 && SecondOk(0xF0 + a, 0x80 + p)
    ensures Scalar(0x4_0000 * a + 0x1000 * p + 0x40 * q + t)
    ensures EncodeChar((0x4_0000 * a + 0x1000 * p + 0x40 * q + t) as char) == [0xF0 + a, 0x80 + p, 0x80 + q, 0x80 + t]
  {
    var n := 0x4_0000 * a + 0x1000 * p + 0x40 * q + t;
    assert n == 0x40 * (0x40 * (0x40 * a + p) + q) + t;
    TwoDigits(0x40 * (0x40 * a + p) + q, t);
    TwoDigits(0x40 * a + p, q);
    TwoDigits(a, p);
    SixBitDigits(n);
  }

  /** The decoder consumes the longest beginning of a character, or one byte when there is none. */
  lemma NoLonger(s: seq<Byte>, k: nat)
    requires s != [] && DecodeFirst(s).1 < k <= |s|
    ensures !Begun(s[..k])
  {
    if c: char :| s[..k] <= EncodeChar(c) {
      EncodedShape(c, s[..k]);
    }
  }

  lemma ConsumedBegins(s: seq<Byte>)
    requires s != []
    ensures DecodeFirst(s).1 == 1 || Begun(s[..DecodeFirst(s).1])
    ensures DecodeFirst(s).0 == REPLACEMENT || Whole(s)
  {
    hide EncodeChar;
    var b: nat, k := s[0], DecodeFirst(s).1;
    if b < 0x80 {
      Ascii1(b);
      assert EncodeChar(b as char) <= s;
    } else if k > 1 {
      var p: nat := s[1] as int - 0x80;
      if b < 0xE0 {
        Encode2(b - 0xC0, p);
        WholeBy(s, 2, (0x40 * (b - 0xC0) + p) as char);
      } else if b < 0xF0 {
        var q: nat := if k == 3 then s[2] as int - 0x80 else 0;
        Encode3(b - 0xE0, p, q);
        WholeBy(s, k, (0x1000 * (b - 0xE0) + 0x40 * p + q) as char);
      } else {
        var q: nat, t: nat := if k >= 3 then s[2] as int - 0x80 else 0, if k == 4 then s[3] as int - 0x80 else 0;
        Encode4(b - 0xF0, p, q, t);
        WholeBy(s, k, (0x4_0000 * (b - 0xF0) + 0x1000 * p + 0x40 * q + t) as char);
      }
    }
  }

  lemma Ascii1(b: nat)
    requires b < 0x80
    ensures EncodeChar(b as char) == [b]
  {
  }

  lemma WholeBy(s: seq<Byte>, k: nat, c: char)
    requires k <= |s| && k <= |EncodeChar(c)| && forall i | 0 <= i < k :: EncodeChar(c)[i] == s[i]
    ensures Begun(s[..k]) && (k == |EncodeChar(c)| ==> Whole(s))
  {
    hide EncodeChar;
    assert s[..k] <= EncodeChar(c);
    assert k == |EncodeChar(c)| ==> EncodeChar(c) <= s;
  }

  lemma FirstExactly(s: seq<Byte>)
    requires s != []
    ensures forall c: char | EncodeChar(c) <= s :: DecodeFirst(s) == (c as int, |EncodeChar(c)|)
    ensures (forall c: char :: !(EncodeChar(c) <= s)) ==> DecodeFirst(s).0 == 0xFFFD
    ensures DecodeFirst(s).1 == 1 || Begun(s[..DecodeFirst(s).1])
    ensures forall k | DecodeFirst(s).1 < k <= |s| :: !Begun(s[..k])
  {
    hide EncodeChar, DecodeFirst;
    forall c: char | EncodeChar(c) <= s
      ensures DecodeFirst(s) == (c as int, |EncodeChar(c)|)
    {
      DecodeFirstEncoded(c, s[|EncodeChar(c)|..]);
      assert s == EncodeChar(c) + s[|EncodeChar(c)|..];
    }
    ConsumedBegins(s);
    forall k | DecodeFirst(s).1 < k <= |s|
      ensures !Begun(s[..k])
    {
      NoLonger(s, k);
    }
  }

  /** The bytes one substitute stands for: the longest beginning of a character, or else one byte. */
  ghost predicate Substituted(s: seq<Byte>, k: nat) {
    1 <= k <= |s| && (k == 1 || Begun(s[..k])) && forall j | k < j <= |s| :: !Begun(s[..j])
  }

  /**
   Lossy decoding of any bytes, without the decoder: a character whose bytes stand at the
   front is decoded, and anything else gives U+FFFD for its longest beginning of a character.
   */
  lemma LossyExactly(s: seq<Byte>)
    requires s != []
    ensures forall c: char | EncodeChar(c) <= s :: LossyDecode(s) == [c] + LossyDecode(s[|EncodeChar(c)|..])
    ensures forall k: nat | !Whole(s) && Substituted(s, k) :: LossyDecode(s) == ['\U{FFFD}'] + LossyDecode(s[k..])
    ensures exists k :: Substituted(s, k)
    ensures LossyDecode([]) == []
  {
    hide EncodeChar, DecodeFirst, Begun;
    FirstExactly(s);
    var r := DecodeFirst(s);
    assert Substituted(s, r.1);
    forall k: nat | !Whole(s) && Substituted(s, k)
      ensures k == r.1
    {
      SubstitutedOnce(s, k, r.1);
    }
  }

  lemma SubstitutedOnce(s: seq<Byte>, j: nat, k: nat)
    requires Substituted(s, j) && Substituted(s, k)
    ensures j == k
  {
    hide Begun;
  }

  /** Decoding the UTF-8 bytes of any string gives the string back. */
  lemma {:induction false} DecodeEncode(s: string)
    ensures LossyDecode(Encode(s)) == s
  {
    if s != [] {
      var head, tail := EncodeChar(s[0]), Encode(s[1..]);
      DecodeFirstEncoded(s[0], tail);
      assert (head + tail)[|head|..] == tail;
      DecodeEncode(s[1..]);
      assert s == [s[0]] + s[1..];
    }
  }
}

/** Percent coding (sections 2.1 and 2.3 of RFC 3986) and form bodies. */
module UrlCodec {
  import opened Util
  import opened Bytes
  import Utf8

  // ----- encoding -----

  predicate Unreserved(b: Byte) {
    0x41 <= b <= 0x5A || 0x61 <= b <= 0x7A || 0x30 <= b <= 0x39 || b == 0x2D || b == 0x5F || b == 0x2E || b == 0x7E
  }

  function UpperHex(d: nat): (b: Byte)
    requires d < 16
    ensures HexValue(b) == Some(d)
  {
    if d < 10 then 0x30 + d else 0x41 + d - 10
  }

  /** The characters that stand for one byte, as ASCII codes. */
  function Unit(b: Byte): (u: seq<Byte>)
    ensures u != [] && forall i | 0 <= i < |u| :: Plain(u[i])
  {
    if Unreserved(b) then [b] else [0x25, UpperHex(b / 16), UpperHex(b % 16)]
  }

  /** ASCII codes that a form body does not use as separators, nor a decoder as a space. */
  predicate Plain(b: Byte) {
    b < 0x80 && b != 0x26 && b != 0x3D && b != 0x2B
  }

  function Units(bytes: seq<Byte>): (u: seq<Byte>)
    ensures forall i | 0 <= i < |u| :: Plain(u[i])
  {
    if bytes == [] then [] else Units(bytes[..|bytes| - 1]) + Unit(bytes[|bytes| - 1])
  }

  function Ascii(codes: seq<Byte>): (s: string)
    requires forall i | 0 <= i < |codes| :: codes[i] < 0x80
    ensures |s| == |codes|
  {
    seq(|codes|, i requires 0 <= i < |codes| => codes[i] as char)
  }

  /** The text grows by the unit of one more byte. */
  lemma EncodeStep(bytes: seq<Byte>, i: nat)
    requires i < |bytes|
    ensures Ascii(Units(bytes[..i + 1])) == Ascii(Units(bytes[..i])) + Ascii(Unit(bytes[i]))
  {
    hide Unit;
    assert bytes[..i + 1][..i] == bytes[..i];
  }

  method UrlEncode(s: string) returns (r: string)
    ensures r == Encoded(s)
  {
    r := "";
    var bytes := Utf8.Encode(s);
    for i := 0 to |bytes|
      invariant r == Ascii(Units(bytes[..i]))
    {
      hide Units;
      EncodeStep(bytes, i);
      var b := bytes[i];
      if Unreserved(b) {
        assert Ascii(Unit(b)) == [b as char];
        r := r + [b as char];
      } else {
        var unit := ['%', UpperHex(b / 16) as char, UpperHex(b % 16) as char];
        assert Ascii(Unit(b)) == unit;
        r := r + unit;
      }
    }
    assert bytes[..|bytes|] == bytes;
  }

  function Encoded(s: string): string {
    Ascii(Units(Utf8.Encode(s)))
  }

  // ----- decoding -----

  function HexValue(b: Byte): Option<nat> {
    if 0x30 <= b <= 0x39 then Some(b - 0x30)
    else if 0x41 <= b <= 0x46 then Some(b - 0x41 + 10)
    else if 0x61 <= b <= 0x66 then Some(b - 0x61 + 10)
    else None
  }

  /** Two characters as a hexadecimal number; a leading plus sign is a sign. */
  function HexPair(hi: Byte, lo: Byte): (r: Option<Byte>) {
    if hi == 0x2B then HexValue(lo)
    else if HexValue(hi).Some? && HexValue(lo).Some? then Some(16 * HexValue(hi).value + HexValue(lo).value)
    else None
  }

  /** The slice of two bytes after a percent sign would end inside a character. */
  predicate Splits(s: seq<Byte>, i: nat) {
    i + 3 < |s| && s[i] == 0x25 && Utf8.Continuation(s[i + 3])
  }

  /** What the cursor at `i` pushes, and how far it moves; `None` where slicing aborts. */
  function DecodeStep(s: seq<Byte>, i: nat): (r: Option<(Byte, nat)>)
    requires i < |s|
    ensures r.None? <==> Splits(s, i)
    ensures r.Some? ==> i < r.value.1 <= |s|
  {
    if s[i] == 0x2B then Some((0x20, i + 1))
    else if s[i] == 0x25 && i + 2 < |s| then
      if Splits(s, i) then None
      else
        match HexPair(s[i + 1], s[i + 2])
        case Some(b) => Some((b, i + 3))
        case None => Some((s[i], i + 1))
    else Some((s[i], i + 1))
  }

  function DecodeFrom(s: seq<Byte>, i: nat): Option<seq<Byte>>
    requires i <= |s|
    decreases |s| - i
  {
    if i == |s| then Some([])
    else
      var (b, j) :- DecodeStep(s, i);
      var rest :- DecodeFrom(s, j);
      Some([b] + rest)
  }

  lemma DecodeEnd(s: seq<Byte>)
    ensures DecodeFrom(s, |s|) == Some([])
  {
  }

  function Decoded(s: string): Option<string> {
    var bytes :- DecodeFrom(Utf8.Encode(s), 0);
    Some(Utf8.LossyDecode(bytes))
  }

  function After(out: seq<Byte>, rest: Option<seq<Byte>>): Option<seq<Byte>> {
    if rest.None? then None else Some(out + rest.value)
  }

  lemma Advance(s: seq<Byte>, out: seq<Byte>, i: nat)
    requires i < |s|
    ensures After(out, DecodeFrom(s, i))
         == if Splits(s, i) then None else var (b, j) := DecodeStep(s, i).value; After(out + [b], DecodeFrom(s, j))
  {
    if !Splits(s, i) {
      var (b, j) := DecodeStep(s, i).value;
      if DecodeFrom(s, j).Some? {
        var rest := DecodeFrom(s, j).value;
        assert out + ([b] + rest) == (out + [b]) + rest;
      }
    }
  }

  /** The decoding loop; `None` where the source's slice of the string would abort. */
  method UrlDecode(s: string) returns (r: Option<string>)
    ensures r == Decoded(s)
  {
    var bytes := Utf8.Encode(s);
    var out: seq<Byte> := [];
    var i := 0;
    hide DecodeFrom;
    assert DecodeFrom(bytes, 0) == After(out, DecodeFrom(bytes, 0)) by {
      if DecodeFrom(bytes, 0).Some? {
        assert [] + DecodeFrom(bytes, 0).value == DecodeFrom(bytes, 0).value;
      }
    }
    while i < |bytes|
      invariant i <= |bytes|
      invariant DecodeFrom(bytes, 0) == After(out, DecodeFrom(bytes, i))
    {
      Advance(bytes, out, i);
      if bytes[i] == 0x2B {
        assert DecodeStep(bytes, i) == Some((0x20, i + 1));
        out := out + [0x20];
        i := i + 1;
      } else if bytes[i] == 0x25 && i + 2 < |bytes| {
        if Splits(bytes, i) {
          return None;
        }
        var pair := HexPair(bytes[i + 1], bytes[i + 2]);
        if pair.Some? {
          assert DecodeStep(bytes, i) == Some((pair.value, i + 3));
          out := out + [pair.value];
          i := i + 3;
        } else {
          assert DecodeStep(bytes, i) == Some((bytes[i], i + 1));
          out := out + [bytes[i]];
          i := i + 1;
        }
      } else {
        assert DecodeStep(bytes, i) == Some((bytes[i], i + 1));
        out := out + [bytes[i]];
        i := i + 1;
      }
    }
    DecodeEnd(bytes);
    assert out + [] == out;
    return Some(Utf8.LossyDecode(out));
  }

  /** A step that succeeds passes over no percent sign other than its own. */
  lemma StepSkipsNoPercent(s: seq<Byte>, i: nat)
    requires i < |s| && DecodeStep(s, i).Some?
    ensures forall j | i < j < DecodeStep(s, i).value.1 :: s[j] != 0x25
  {
  }

  ghost predicate SplitsFrom(s: seq<Byte>, i: nat) {
    exists j: nat :: i <= j && Splits(s, j)
  }

  /** Decoding aborts exactly when some percent sign stands two bytes before a split character. */
  lemma {:induction false} AbortsFrom(s: seq<Byte>, i: nat)
    requires i <= |s|
    ensures DecodeFrom(s, i) == None <==> SplitsFrom(s, i)
    decreases |s| - i
  {
    if i < |s| && DecodeStep(s, i).Some? {
      var next := DecodeStep(s, i).value.1;
      AbortsFrom(s, next);
      StepSkipsNoPercent(s, i);
      if SplitsFrom(s, i) {
        var j: nat :| i <= j && Splits(s, j);
        assert j >= next;
      }
    } else if i < |s| {
      assert i <= i && Splits(s, i);
    }
  }

  lemma SplitsAnywhere(s: seq<Byte>)
    ensures SplitsFrom(s, 0) <==> exists j: nat :: Splits(s, j)
  {
    hide Splits;
    if j: nat :| Splits(s, j) {
      assert 0 <= j && Splits(s, j);
    }
    if SplitsFrom(s, 0) {
      var j: nat :| 0 <= j && Splits(s, j);
      assert Splits(s, j);
    }
  }

  lemma DecodeAbortsIff(s: string)
    ensures Decoded(s) == None <==> exists j: nat :: Splits(Utf8.Encode(s), j)
  {
    AbortsFrom(Utf8.Encode(s), 0);
    SplitsAnywhere(Utf8.Encode(s));
    assert Decoded(s) == None <==> DecodeFrom(Utf8.Encode(s), 0) == None;
  }

  /** Without percent signs, decoding only turns plus signs into spaces. */
  lemma {:induction false} NoPercentDecodes(s: seq<Byte>, i: nat)
    requires i <= |s| && forall j | 0 <= j < |s| :: s[j] != 0x25
    ensures DecodeFrom(s, i).Some? && |DecodeFrom(s, i).value| == |s| - i
    ensures forall j | i <= j < |s| :: DecodeFrom(s, i).value[j - i] == if s[j] == 0x2B then 0x20 else s[j]
    decreases |s| - i
  {
    if i < |s| {
      NoPercentDecodes(s, i + 1);
      var rest := DecodeFrom(s, i + 1).value;
      assert DecodeFrom(s, i).value == [if s[i] == 0x2B then 0x20 else s[i]] + rest;
      forall j | i <= j < |s| ensures DecodeFrom(s, i).value[j - i] == if s[j] == 0x2B then 0x20 else s[j] {
        if j > i {
          assert DecodeFrom(s, i).value[j - i] == rest[j - (i + 1)];
        }
      }
    }
  }

  /** A percent sign, one ASCII character and an accented letter: decoding aborts. */
  lemma AbortExample()
    ensures Decoded("%a\U{00E9}") == None
  {
    var s := "%a\U{00E9}";
    assert s[1..] == "a\U{00E9}" && s[1..][1..] == "\U{00E9}" && s[1..][1..][1..] == "";
    assert Utf8.Encode(s) == [0x25, 0x61, 0xC3, 0xA9];
    assert Splits(Utf8.Encode(s), 0);
    DecodeAbortsIff(s);
  }

  // ----- round trip -----

  lemma {:induction false} AsciiBytes(codes: seq<Byte>)
    requires forall i | 0 <= i < |codes| :: codes[i] < 0x80
    ensures Utf8.Encode(Ascii(codes)) == codes
  {
    if codes != [] {
      assert Ascii(codes)[1..] == Ascii(codes[1..]);
      AsciiBytes(codes[1..]);
      assert codes == [codes[0]] + codes[1..];
    }
  }

  lemma UnitDecodes(pre: seq<Byte>, b: Byte, post: seq<Byte>)
    requires forall i | 0 <= i < |post| :: post[i] < 0x80
    ensures DecodeStep(pre + Unit(b) + post, |pre|) == Some((b, |pre| + |Unit(b)|))
  {
    var s := pre + Unit(b) + post;
    var n := |pre|;
    assert forall i | 0 <= i < |Unit(b)| :: s[n + i] == Unit(b)[i];
    assert n + 3 < |s| && !Unreserved(b) ==> s[n + 3] == post[0];
    if !Unreserved(b) {
      assert s[n] == 0x25 && s[n + 1] == UpperHex(b / 16) && s[n + 2] == UpperHex(b % 16);
    }
  }

  lemma UnitsLast(s: seq<Byte>)
    requires s != []
    ensures Units(s) == Units(s[..|s| - 1]) + Unit(s[|s| - 1])
  {
  }

  lemma {:induction false} UnitsConcat(a: seq<Byte>, b: Byte, c: seq<Byte>)
    ensures Units(a + [b] + c) == Units(a) + Unit(b) + Units(c)
  {
    hide Unit;
    var s := a + [b] + c;
    if c == [] {
      assert s == a + [b] && s[..|a|] == a;
      UnitsLast(s);
    } else {
      var n := |c| - 1;
      UnitsConcat(a, b, c[..n]);
      assert s[..|a| + 1 + n] == a + [b] + c[..n];
      hide Units;
      UnitsLast(s);
      UnitsLast(c);
    }
  }

  lemma PrefixUnits(bytes: seq<Byte>, k: nat)
    requires k < |bytes|
    ensures Units(bytes[..k + 1]) == Units(bytes[..k]) + Unit(bytes[k])
  {
    hide Units, Unit;
    var s := bytes[..k + 1];
    assert s[..|s| - 1] == bytes[..k] && s[|s| - 1] == bytes[k];
    UnitsLast(s);
  }

  lemma MiddleUnits(bytes: seq<Byte>, k: nat)
    requires k < |bytes|
    ensures Units(bytes) == Units(bytes[..k]) + Unit(bytes[k]) + Units(bytes[k + 1..])
  {
    hide Units, Unit;
    var a, b, c := bytes[..k], bytes[k], bytes[k + 1..];
    Reassemble(bytes, k);
    UnitsConcat(a, b, c);
  }

  lemma Reassemble(bytes: seq<Byte>, k: nat)
    requires k < |bytes|
    ensures bytes[..k] + [bytes[k]] + bytes[k + 1..] == bytes
  {
  }

  ghost predicate AllAscii(s: seq<Byte>) {
    forall i | 0 <= i < |s| :: s[i] < 0x80
  }

  lemma UnitsAscii(bytes: seq<Byte>)
    ensures AllAscii(Units(bytes))
  {
    var u := Units(bytes);
    forall i | 0 <= i < |u| ensures u[i] < 0x80 {
      assert Plain(u[i]);
    }
  }

  lemma StepAt(s: seq<Byte>, pre: seq<Byte>, b: Byte, post: seq<Byte>)
    requires s == pre + Unit(b) + post && AllAscii(post)
    ensures DecodeStep(s, |pre|) == Some((b, |pre| + |Unit(b)|))
  {
    hide Unit, DecodeStep;
    UnitDecodes(pre, b, post);
  }

  lemma StepUnits(bytes: seq<Byte>, k: nat)
    requires k < |bytes|
    ensures |Units(bytes[..k])| < |Units(bytes[..k + 1])| <= |Units(bytes)|
    ensures DecodeStep(Units(bytes), |Units(bytes[..k])|) == Some((bytes[k], |Units(bytes[..k + 1])|))
  {
    hide Units, Unit, DecodeStep, Plain, AllAscii;
    PrefixUnits(bytes, k);
    MiddleUnits(bytes, k);
    UnitsAscii(bytes[k + 1..]);
    StepAt(Units(bytes), Units(bytes[..k]), bytes[k], Units(bytes[k + 1..]));
  }

  lemma {:induction false} UnitsDecode(bytes: seq<Byte>, k: nat)
    requires k <= |bytes|
    ensures |Units(bytes[..k])| <= |Units(bytes)|
    ensures DecodeFrom(Units(bytes), |Units(bytes[..k])|) == Some(bytes[k..])
    decreases |bytes| - k
  {
    hide Units, Unit, DecodeStep;
    if k == |bytes| {
      assert bytes[..k] == bytes;
    } else {
      StepUnits(bytes, k);
      UnitsDecode(bytes, k + 1);
      assert bytes[k..] == [bytes[k]] + bytes[k + 1..];
    }
  }

  /** Decoding an encoded string gives the string back, for every string. */
  lemma UrlRoundTrip(s: string)
    ensures Decoded(Encoded(s)) == Some(s)
  {
    var bytes := Utf8.Encode(s);
    AsciiBytes(Units(bytes));
    UnitsDecode(bytes, 0);
    assert bytes[..0] == [] && bytes[0..] == bytes;
    Utf8.DecodeEncode(s);
  }

  // ----- the coding, character by character -----

  /** Section 2.3 of RFC 3986: letters, digits and four marks. */
  predicate UnreservedChar(c: char) {
    'A' <= c <= 'Z' || 'a' <= c <= 'z' || '0' <= c <= '9' || c == '-' || c == '_' || c == '.' || c == '~'
  }

  /** Each byte as a percent sign and two upper-case hexadecimal digits. */
  function Percents(bytes: seq<Byte>): string {
    if bytes == [] then ""
    else ['%', "0123456789ABCDEF"[bytes[0] / 16], "0123456789ABCDEF"[bytes[0] % 16]] + Percents(bytes[1..])
  }

  function Spelled(s: string): string {
    if s == "" then ""
    else (if UnreservedChar(s[0]) then [s[0]] else Percents(Utf8.EncodeChar(s[0]))) + Spelled(s[1..])
  }

  lemma {:induction false} UnitsJoin(a: seq<Byte>, b: seq<Byte>)
    ensures Units(a + b) == Units(a) + Units(b)
    decreases |b|
  {
    hide Unit;
    if b == [] {
      assert a + b == a;
    } else {
      var n := |b| - 1;
      assert (a + b)[..|a| + n] == a + b[..n] && (a + b)[|a| + n] == b[n];
      UnitsJoin(a, b[..n]);
    }
  }

  lemma HexDigit(d: nat)
    requires d < 16
    ensures UpperHex(d) as char == "0123456789ABCDEF"[d]
  {
  }

  ghost predicate Low(codes: seq<Byte>) {
    forall i | 0 <= i < |codes| :: codes[i] < 0x80
  }

  lemma UnitsLow(bytes: seq<Byte>)
    ensures Low(Units(bytes))
  {
    UnitsAscii(bytes);
  }

  lemma AsciiJoin(a: seq<Byte>, b: seq<Byte>)
    requires Low(a) && Low(b)
    ensures Low(a + b) && Ascii(a + b) == Ascii(a) + Ascii(b)
  {
  }

  lemma UnitPercent(b: Byte)
    requires !Unreserved(b)
    ensures Low(Unit(b)) && Units([b]) == Unit(b)
    ensures Ascii(Unit(b)) == ['%', "0123456789ABCDEF"[b / 16], "0123456789ABCDEF"[b % 16]]
  {
    HexDigit(b / 16);
    HexDigit(b % 16);
    assert [b][..0] == [];
  }

  lemma {:induction false} UnitsPercents(bytes: seq<Byte>)
    requires forall i | 0 <= i < |bytes| :: !Unreserved(bytes[i])
    ensures Low(Units(bytes)) && Ascii(Units(bytes)) == Percents(bytes)
  {
    UnitsLow(bytes);
    if bytes != [] {
      var b, rest := bytes[0], bytes[1..];
      UnitsPercents(rest);
      UnitPercent(b);
      hide Units, Unit, Unreserved, Ascii, Low;
      assert bytes == [b] + rest;
      UnitsJoin([b], rest);
      AsciiJoin(Unit(b), Units(rest));
    }
  }

  lemma CharSpelled(c: char)
    ensures Ascii(Units(Utf8.EncodeChar(c))) == if UnreservedChar(c) then [c] else Percents(Utf8.EncodeChar(c))
  {
    var bytes := Utf8.EncodeChar(c);
    if UnreservedChar(c) {
      assert bytes == [c as int] && bytes[..0] == [];
      assert Units(bytes) == Unit(bytes[0]) == [c as int];
    } else {
      assert forall i | 0 <= i < |bytes| :: !Unreserved(bytes[i]);
      UnitsPercents(bytes);
    }
  }

  /** Unreserved characters stand for themselves, and every byte of any other character is a
      percent sign with two upper-case digits. */
  lemma {:induction false} EncodedSpelled(s: string)
    ensures Encoded(s) == Spelled(s)
  {
    if s != "" {
      hide Units, Ascii, Low, Utf8.EncodeChar, Percents, UnreservedChar;
      EncodedSpelled(s[1..]);
      CharSpelled(s[0]);
      var a, b := Utf8.EncodeChar(s[0]), Utf8.Encode(s[1..]);
      UnitsJoin(a, b);
      UnitsLow(a);
      UnitsLow(b);
      AsciiJoin(Units(a), Units(b));
    }
  }

  /** `b` is the ASCII code of the hexadecimal digit `x`, in either case. */
  predicate IsDigit(b: Byte, x: nat) {
    x < 16 && (b == "0123456789abcdef"[x] as int || b == "0123456789ABCDEF"[x] as int)
  }

  lemma DigitMeans(b: Byte, x: nat)
    ensures HexValue(b) == Some(x) <==> IsDigit(b, x)
    ensures IsDigit(b, x) ==> b != 0x2B
  {
  }

  ghost predicate NotDigit(b: Byte) {
    forall x | 0 <= x < 16 :: !IsDigit(b, x)
  }

  lemma NoDigit(b: Byte)
    ensures HexValue(b).None? <==> NotDigit(b)
  {
    hide IsDigit;
    forall x: nat
      ensures HexValue(b) == Some(x) <==> IsDigit(b, x)
    {
      DigitMeans(b, x);
    }
  }

  lemma FromStep(s: seq<Byte>, i: nat)
    requires i < |s| && DecodeStep(s, i).Some?
    ensures DecodeFrom(s, i) == After([DecodeStep(s, i).value.0], DecodeFrom(s, DecodeStep(s, i).value.1))
  {
  }

  /**
   What a percent sign decodes to where the slice does not abort: two digits of either
   case give their byte, a plus sign and a digit give the digit, and otherwise the percent
   sign stands for itself.
   */
  lemma PercentMeans(s: seq<Byte>, i: nat, x: nat, y: nat)
    requires i + 2 < |s| && s[i] == 0x25 && !Splits(s, i)
    ensures IsDigit(s[i + 1], x) && IsDigit(s[i + 2], y) ==> DecodeFrom(s, i) == After([16 * x + y], DecodeFrom(s, i + 3))
    ensures s[i + 1] == 0x2B && IsDigit(s[i + 2], y) ==> DecodeFrom(s, i) == After([y], DecodeFrom(s, i + 3))
    ensures (s[i + 1] != 0x2B && NotDigit(s[i + 1])) || NotDigit(s[i + 2]) ==> DecodeFrom(s, i) == After([0x25], DecodeFrom(s, i + 1))
  {
    hide IsDigit, NotDigit, DecodeFrom, Splits, HexValue;
    FromStep(s, i);
    NoDigit(s[i + 1]);
    NoDigit(s[i + 2]);
    DigitMeans(s[i + 1], x);
    DigitMeans(s[i + 2], y);
  }

  /** A percent sign with fewer than two bytes behind it stands for itself. */
  lemma LatePercent(s: seq<Byte>, i: nat)
    requires i < |s| <= i + 2 && s[i] == 0x25
    ensures DecodeFrom(s, i) == After([0x25], DecodeFrom(s, i + 1))
  {
    FromStep(s, i);
  }

  // ----- forms -----

  /** Where `c` first occurs at or after `i`, or the end. */
  function IndexOf(s: string, c: char, i: nat): (r: nat)
    requires i <= |s|
    ensures i <= r <= |s| && (forall j | i <= j < r :: s[j] != c) && (r < |s| ==> s[r] == c)
    decreases |s| - i
  {
    if i == |s| || s[i] == c then i else IndexOf(s, c, i + 1)
  }

  function Split(s: string, c: char): (parts: seq<string>)
    ensures parts != []
    decreases |s|
  {
    var i := IndexOf(s, c, 0);
    if i == |s| then [s] else [s[..i]] + Split(s[i + 1..], c)
  }

  /** `split_once('=')`, or the whole pair and the empty string. */
  function SplitPair(pair: string): (string, string) {
    var i := IndexOf(pair, '=', 0);
    if i == |pair| then (pair, "") else (pair[..i], pair[i + 1..])
  }

  type Form = seq<(string, string)>

  function ParsePairs(parts: seq<string>): Option<Form> {
    if parts == [] then Some([])
    else if parts[0] == "" then ParsePairs(parts[1..])
    else
      var (k, v) := SplitPair(parts[0]);
      var key :- Decoded(k);
      var value :- Decoded(v);
      var rest :- ParsePairs(parts[1..]);
      Some([(key, value)] + rest)
  }

  function FieldsOf(text: string): Option<Form> {
    ParsePairs(Split(text, '&'))
  }

  function ParseForm(body: seq<Byte>): Option<Form> {
    FieldsOf(Utf8.LossyDecode(body))
  }

  /** A form body: encoded pairs joined by ampersands. */
  function FormBody(form: Form): string {
    if form == [] then ""
    else
      var pair := Encoded(form[0].0) + "=" + Encoded(form[0].1);
      if |form| == 1 then pair else pair + "&" + FormBody(form[1..])
  }

  lemma EncodedPlain(s: string)
    ensures forall i | 0 <= i < |Encoded(s)| :: Encoded(s)[i] != '&' && Encoded(s)[i] != '='
  {
    var u := Units(Utf8.Encode(s));
    forall i | 0 <= i < |u| ensures Ascii(u)[i] != '&' && Ascii(u)[i] != '=' {
      assert Plain(u[i]);
    }
  }

  lemma PairSplits(k: string, v: string)
    ensures SplitPair(Encoded(k) + "=" + Encoded(v)) == (Encoded(k), Encoded(v))
  {
    hide Encoded;
    EncodedPlain(k);
    var pair := Encoded(k) + "=" + Encoded(v);
    var n := |Encoded(k)|;
    assert forall i | 0 <= i < n :: pair[i] == Encoded(k)[i];
    assert pair[n] == '=' && IndexOf(pair, '=', 0) == n;
    assert pair[..n] == Encoded(k) && pair[n + 1..] == Encoded(v);
  }

  lemma SplitHead(pair: string, rest: string)
    requires forall i | 0 <= i < |pair| :: pair[i] != '&'
    ensures Split(pair, '&') == [pair]
    ensures Split(pair + "&" + rest, '&') == [pair] + Split(rest, '&')
  {
    var s := pair + "&" + rest;
    assert forall i | 0 <= i < |pair| :: s[i] == pair[i];
    assert s[|pair|] == '&' && IndexOf(s, '&', 0) == |pair|;
    assert s[..|pair|] == pair && s[|pair| + 1..] == rest;
  }

  lemma EncodedPair(k: string, v: string)
    ensures var pair := Encoded(k) + "=" + Encoded(v);
            pair != "" && forall i | 0 <= i < |pair| :: pair[i] != '&'
  {
    hide Encoded;
    EncodedPlain(k);
    EncodedPlain(v);
  }

  /** One more pair in front. */
  lemma ParseFront(k: string, v: string, parts: seq<string>, rest: Form)
    requires ParsePairs(parts) == Some(rest)
    ensures ParsePairs([Encoded(k) + "=" + Encoded(v)] + parts) == Some([(k, v)] + rest)
  {
    hide Encoded, Decoded, SplitPair;
    var pair := Encoded(k) + "=" + Encoded(v);
    PairSplits(k, v);
    UrlRoundTrip(k);
    UrlRoundTrip(v);
    EncodedPair(k, v);
    var all := [pair] + parts;
    assert all[0] == pair && all[1..] == parts;
  }

  lemma ParseNothing()
    ensures ParsePairs([]) == Some([]) && ParsePairs([""]) == Some([])
  {
    assert [""][1..] == [];
  }

  lemma {:induction false} FormParses(form: Form)
    ensures ParsePairs(Split(FormBody(form), '&')) == Some(form)
  {
    hide Encoded, Split, ParsePairs;
    ParseNothing();
    if form == [] {
      SplitHead("", "");
    } else {
      var (k, v) := form[0];
      var pair := Encoded(k) + "=" + Encoded(v);
      EncodedPair(k, v);
      SplitHead(pair, FormBody(form[1..]));
      if |form| == 1 {
        ParseFront(k, v, [], []);
        assert form == [(k, v)] + [] && [pair] + [] == [pair];
      } else {
        FormParses(form[1..]);
        ParseFront(k, v, Split(FormBody(form[1..]), '&'), form[1..]);
        assert form == [(k, v)] + form[1..];
      }
    }
  }

  /** Parsing the body of any list of pairs recovers exactly those pairs, in order. */
  lemma FormRoundTrip(form: Form)
    ensures ParseForm(Utf8.Encode(FormBody(form))) == Some(form)
  {
    Utf8.DecodeEncode(FormBody(form));
    FormParses(form);
  }

  // ----- any body -----

  function Front(k: Option<string>, v: Option<string>, rest: Option<Form>): Option<Form> {
    if k.None? || v.None? || rest.None? then None else Some([(k.value, v.value)] + rest.value)
  }

  ghost predicate Lacks(s: string, c: char) {
    forall i | 0 <= i < |s| :: s[i] != c
  }

  lemma SplitOnce(k: string, v: string)
    requires Lacks(k, '=')
    ensures SplitPair(k) == (k, "") && SplitPair(k + "=" + v) == (k, v)
  {
    var pair := k + "=" + v;
    assert forall i | 0 <= i < |k| :: pair[i] == k[i];
    assert pair[|k|] == '=' && IndexOf(pair, '=', 0) == |k|;
    assert pair[..|k|] == k && pair[|k| + 1..] == v;
  }

  lemma FieldFirst(part: string, parts: seq<string>)
    ensures part == "" ==> ParsePairs([part] + parts) == ParsePairs(parts)
    ensures part != "" ==> ParsePairs([part] + parts) == Front(Decoded(SplitPair(part).0), Decoded(SplitPair(part).1), ParsePairs(parts))
  {
    hide Decoded, SplitPair;
    assert ([part] + parts)[1..] == parts;
  }

  lemma NothingDecodes()
    ensures Decoded("") == Some("")
  {
    assert Utf8.Encode("") == [];
  }

  /**
   Reading any form by its first field: an empty field is skipped, a field without an
   equals sign has an empty value, and otherwise the first equals sign divides it.
   */
  lemma FormFront(k: string, v: string, rest: string)
    requires Lacks(k, '=') && Lacks(k, '&') && Lacks(v, '&')
    ensures FieldsOf("") == Some([]) && FieldsOf("&" + rest) == FieldsOf(rest)
    ensures k != "" ==> FieldsOf(k) == Front(Decoded(k), Some(""), Some([]))
    ensures k != "" ==> FieldsOf(k + "&" + rest) == Front(Decoded(k), Some(""), FieldsOf(rest))
    ensures FieldsOf(k + "=" + v) == Front(Decoded(k), Decoded(v), Some([]))
    ensures FieldsOf(k + "=" + v + "&" + rest) == Front(Decoded(k), Decoded(v), FieldsOf(rest))
  {
    hide Decoded, SplitPair, ParsePairs, Split;
    var pair := k + "=" + v;
    ParseNothing();
    NothingDecodes();
    SplitOnce(k, v);
    SplitHead("", rest);
    SplitHead(k, rest);
    SplitHead(pair, rest);
    assert "" + "&" + rest == "&" + rest;
    FieldFirst("", Split(rest, '&'));
    FieldFirst(k, Split(rest, '&'));
    FieldFirst(pair, Split(rest, '&'));
    FieldFirst(k, []);
    FieldFirst(pair, []);
    assert [k] + [] == [k] && [pair] + [] == [pair];
  }
}

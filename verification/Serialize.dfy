/** The pause/resume serializer: words, byte strings and linear tokens in a fixed buffer. */
module Serialize {
  import opened Util
  import opened Bytes

  datatype Token = Token(id: Word, secret: Word)

  datatype Item = U64(v: Word) | Blob(data: seq<Byte>) | Linear(t: Token)

  /** What a reader must know to read an item back: its kind and, for a byte string, its length. */
  datatype Shape = WordShape | BlobShape(len: nat) | TokenShape

  function ShapeOf(i: Item): Shape {
    match i
    case U64(_) => WordShape
    case Blob(d) => BlobShape(|d|)
    case Linear(_) => TokenShape
  }

  function Shapes(items: seq<Item>): (r: seq<Shape>)
    ensures |r| == |items|
  {
    if items == [] then [] else [ShapeOf(items[0])] + Shapes(items[1..])
  }

  function Encode(i: Item): seq<Byte> {
    match i
    case U64(v) => ToLe(v, 8)
    case Blob(d) => ToLe(|d|, 8) + d
    case Linear(t) => ToLe(t.id, 8) + ToLe(t.secret, 8)
  }

  function EncodeAll(items: seq<Item>): seq<Byte> {
    if items == [] then [] else Encode(items[0]) + EncodeAll(items[1..])
  }

  function DecodeU64(s: seq<Byte>, pos: nat): Option<(Word, nat)> {
    if pos + 8 > |s| then None else Some((Le8(s[pos..pos + 8]), pos + 8))
  }

  function Decode(sh: Shape, s: seq<Byte>, pos: nat): Option<(Item, nat)> {
    match sh
    case WordShape =>
      var (v, p) :- DecodeU64(s, pos);
      Some((U64(v), p))
    case BlobShape(n) =>
      var (m, p) :- DecodeU64(s, pos);
      if m != n || p + n > |s| then None else Some((Blob(s[p..p + n]), p + n))
    case TokenShape =>
      var (id, p) :- DecodeU64(s, pos);
      var (secret, q) :- DecodeU64(s, p);
      Some((Linear(Token(id, secret)), q))
  }

  function DecodeAll(shs: seq<Shape>, s: seq<Byte>, pos: nat): Option<(seq<Item>, nat)>
    decreases |shs|
  {
    if shs == [] then Some(([], pos))
    else
      var (i, p) :- Decode(shs[0], s, pos);
      var (more, q) :- DecodeAll(shs[1..], s, p);
      Some(([i] + more, q))
  }

  lemma Regroup(a: seq<Byte>, b: seq<Byte>, c: seq<Byte>)
    ensures a + b + c == a + (b + c)
  {
  }

  // ----- in place -----

  /** A buffer being filled; a failed assertion (no room) stops the program. */
  class Serializer {
    const buffer: array<Byte>
    var size: nat
    var pos: nat

    ghost predicate Valid()
      reads this
    {
      size == pos <= buffer.Length
    }

    ghost function Written(): seq<Byte>
      requires Valid()
      reads this, buffer
    {
      buffer[..pos]
    }

    constructor (capacity: nat)
      ensures Valid() && fresh(buffer) && buffer.Length == capacity && Written() == []
    {
      buffer := new Byte[capacity](i => 0);
      size, pos := 0, 0;
    }

    /** `memcpy` of `s` at the cursor. */
    method Copy(s: seq<Byte>)
      requires Valid() && pos + |s| <= buffer.Length
      modifies this, buffer
      ensures Valid() && Written() == old(Written()) + s
    {
      ghost var was := buffer[..pos];
      for i := 0 to |s|
        invariant pos == old(pos) && size == old(size)
        invariant buffer[..pos] == was && buffer[pos..pos + i] == s[..i]
      {
        buffer[pos + i] := s[i];
        assert buffer[pos..pos + i + 1] == buffer[pos..pos + i] + [s[i]];
        assert s[..i + 1] == s[..i] + [s[i]];
      }
      assert s[..|s|] == s;
      assert buffer[..pos + |s|] == buffer[..pos] + buffer[pos..pos + |s|];
      pos := pos + |s|;
      if pos > size {
        size := pos;
      }
    }

    method PutU64(v: Word) returns (ok: bool)
      requires Valid()
      modifies this, buffer
      ensures Valid() && ok == (old(pos) + 8 <= buffer.Length)
      ensures Written() == old(Written()) + if ok then ToLe(v, 8) else []
    {
      if pos + 8 > buffer.Length {
        assert Written() + [] == Written();
        return false;
      }
      Copy(ToLe(v, 8));
      ok := true;
    }

    method PutBytes(d: seq<Byte>) returns (ok: bool)
      requires Valid() && |d| < TWO64
      modifies this, buffer
      ensures Valid() && ok == (old(pos) + |d| + 8 <= buffer.Length)
      ensures ok ==> Written() == old(Written()) + Encode(Blob(d))
    {
      if pos + |d| + 8 > buffer.Length {
        return false;
      }
      ghost var was := Written();
      var _ := PutU64(|d|);
      Copy(d);
      assert was + ToLe(|d|, 8) + d == was + (ToLe(|d|, 8) + d);
      ok := true;
    }

    /** Writing a token consumes it: the caller's copy is zeroed. */
    method PutToken(t: Token) returns (ok: bool, left: Token)
      requires Valid()
      modifies this, buffer
      ensures Valid() && ok == (old(pos) + 16 <= buffer.Length)
      ensures ok ==> Written() == old(Written()) + Encode(Linear(t)) && left == Token(0, 0)
    {
      hide ToLe;
      ghost var was := Written();
      left := t;
      ok := PutU64(t.id);
      if !ok {
        return;
      }
      ok := PutU64(t.secret);
      if !ok {
        return;
      }
      Regroup(was, ToLe(t.id, 8), ToLe(t.secret, 8));
      left := Token(0, 0);
    }
  }

  class Deserializer {
    const buffer: seq<Byte>
    var pos: nat

    constructor (s: seq<Byte>)
      ensures buffer == s && pos == 0
    {
      buffer := s;
      pos := 0;
    }

    method GetU64() returns (r: Option<Word>)
      modifies this
      ensures (if r.Some? then Some((r.value, pos)) else None) == DecodeU64(buffer, old(pos))
    {
      if pos + 8 > |buffer| {
        return None;
      }
      r := Some(Le8(buffer[pos..pos + 8]));
      pos := pos + 8;
    }

    method GetBytes(n: nat) returns (r: Option<seq<Byte>>)
      modifies this
      ensures (if r.Some? then Some((Blob(r.value), pos)) else None) == Decode(BlobShape(n), buffer, old(pos))
    {
      var m := GetU64();
      if m.None? || m.value != n || pos + n > |buffer| {
        return None;
      }
      r := Some(buffer[pos..pos + n]);
      pos := pos + n;
    }

    method GetToken() returns (r: Option<Token>)
      modifies this
      ensures (if r.Some? then Some((Linear(r.value), pos)) else None) == Decode(TokenShape, buffer, old(pos))
    {
      var id := GetU64();
      if id.None? {
        return None;
      }
      var secret := GetU64();
      if secret.None? {
        return None;
      }
      r := Some(Token(id.value, secret.value));
    }
  }

  // ----- round trip -----

  lemma ReadsWord(s: seq<Byte>, pos: nat, v: Word)
    requires pos + 8 <= |s| && s[pos..pos + 8] == ToLe(v, 8)
    ensures DecodeU64(s, pos) == Some((v, pos + 8))
  {
    Le8RoundTrip(v);
  }

  lemma DecodeOne(pre: seq<Byte>, i: Item, post: seq<Byte>)
    requires i.Blob? ==> |i.data| < TWO64
    ensures Decode(ShapeOf(i), pre + Encode(i) + post, |pre|) == Some((i, |pre| + |Encode(i)|))
  {
    hide ToLe, DecodeU64;
    var s, p := pre + Encode(i) + post, |pre|;
    assert s[p..p + |Encode(i)|] == Encode(i);
    match i
    case U64(v) =>
      ReadsWord(s, p, v);
    case Blob(d) =>
      assert s[p..p + 8] == Encode(i)[..8] == ToLe(|d|, 8);
      ReadsWord(s, p, |d|);
      assert s[p + 8..p + 8 + |d|] == Encode(i)[8..] == d;
    case Linear(t) =>
      assert s[p..p + 8] == Encode(i)[..8] == ToLe(t.id, 8);
      assert s[p + 8..p + 16] == Encode(i)[8..] == ToLe(t.secret, 8);
      ReadsWord(s, p, t.id);
      ReadsWord(s, p + 8, t.secret);
  }

  ghost predicate Fits(items: seq<Item>) {
    forall i | 0 <= i < |items| :: items[i].Blob? ==> |items[i].data| < TWO64
  }

  /** A word, a byte string and a token as they lie in the buffer. */
  lemma KnownItems(v: Byte, a: Byte, b: Byte, t: Token)
    requires t.id < 256 && t.secret < 256
    ensures Encode(U64(v)) == [v, 0, 0, 0, 0, 0, 0, 0]
    ensures Encode(Blob([a, b])) == [2, 0, 0, 0, 0, 0, 0, 0, a, b]
    ensures Encode(Linear(t)) == [t.id, 0, 0, 0, 0, 0, 0, 0] + [t.secret, 0, 0, 0, 0, 0, 0, 0]
  {
    hide ToLe;
    SmallLe(v);
    SmallLe(2);
    SmallLe(t.id);
    SmallLe(t.secret);
  }

  /** Any sequence of writes reads back equal, item by item, and ends exactly at its end. */
  lemma {:induction false} RoundTripAll(pre: seq<Byte>, items: seq<Item>)
    requires Fits(items)
    ensures DecodeAll(Shapes(items), pre + EncodeAll(items), |pre|) == Some((items, |pre| + |EncodeAll(items)|))
    decreases |items|
  {
    hide Decode, Encode, ShapeOf;
    if items != [] {
      var e, rest := Encode(items[0]), EncodeAll(items[1..]);
      DecodeOne(pre, items[0], rest);
      assert pre + EncodeAll(items) == pre + e + rest;
      assert (pre + e) + rest == pre + e + rest && |pre + e| == |pre| + |e|;
      RoundTripAll(pre + e, items[1..]);
      assert Shapes(items)[1..] == Shapes(items[1..]);
      assert items == [items[0]] + items[1..];
    }
  }

  // ----- whole sequences, in place -----

  lemma {:induction false} EncodeSnoc(items: seq<Item>, i: Item)
    ensures EncodeAll(items + [i]) == EncodeAll(items) + Encode(i)
    decreases |items|
  {
    hide Encode;
    if items == [] {
      assert items + [i] == [i] && [i][1..] == [];
    } else {
      assert (items + [i])[1..] == items[1..] + [i];
      EncodeSnoc(items[1..], i);
    }
  }

  lemma {:induction false} EncodePrefix(items: seq<Item>, n: nat)
    requires n <= |items|
    ensures |EncodeAll(items[..n])| <= |EncodeAll(items)|
    decreases |items| - n
  {
    if n < |items| {
      assert items[..n + 1] == items[..n] + [items[n]];
      EncodeSnoc(items[..n], items[n]);
      EncodePrefix(items, n + 1);
    } else {
      assert items[..n] == items;
    }
  }

  /** One write of any kind. */
  method Put(ser: Serializer, i: Item) returns (ok: bool)
    requires ser.Valid() && (i.Blob? ==> |i.data| < TWO64)
    modifies ser, ser.buffer
    ensures ser.Valid() && ok == (old(ser.pos) + |Encode(i)| <= ser.buffer.Length)
    ensures ok ==> ser.Written() == old(ser.Written()) + Encode(i)
  {
    match i {
      case U64(v) => ok := ser.PutU64(v);
      case Blob(d) => ok := ser.PutBytes(d);
      case Linear(t) =>
        var done, _ := ser.PutToken(t);
        ok := done;
    }
  }

  /** A sequence of writes, which stops at the first that does not fit: all succeed exactly when
      the whole fits. */
  method PutAll(ser: Serializer, items: seq<Item>) returns (ok: bool)
    requires ser.Valid() && Fits(items)
    modifies ser, ser.buffer
    ensures ser.Valid() && ok == (old(ser.pos) + |EncodeAll(items)| <= ser.buffer.Length)
    ensures ok ==> ser.Written() == old(ser.Written()) + EncodeAll(items)
  {
    hide Encode;
    ghost var was := ser.Written();
    assert was + [] == was;
    for n := 0 to |items|
      invariant ser.Valid() && ser.Written() == was + EncodeAll(items[..n])
    {
      assert items[..n + 1] == items[..n] + [items[n]];
      EncodeSnoc(items[..n], items[n]);
      EncodePrefix(items, n + 1);
      var done := Put(ser, items[n]);
      if !done {
        return false;
      }
      assert was + EncodeAll(items[..n]) + Encode(items[n]) == was + EncodeAll(items[..n + 1]);
    }
    assert items[..|items|] == items;
    ok := true;
  }

  /** One read of any kind. */
  method Get(des: Deserializer, sh: Shape) returns (r: Option<Item>)
    modifies des
    ensures (if r.Some? then Some((r.value, des.pos)) else None) == Decode(sh, des.buffer, old(des.pos))
  {
    match sh {
      case WordShape =>
        var v := des.GetU64();
        r := if v.Some? then Some(U64(v.value)) else None;
      case BlobShape(n) =>
        var d := des.GetBytes(n);
        r := if d.Some? then Some(Blob(d.value)) else None;
      case TokenShape =>
        var t := des.GetToken();
        r := if t.Some? then Some(Linear(t.value)) else None;
    }
  }

  /** A sequence of reads. */
  method GetAll(des: Deserializer, shs: seq<Shape>) returns (r: Option<seq<Item>>)
    modifies des
    ensures (if r.Some? then Some((r.value, des.pos)) else None) == DecodeAll(shs, des.buffer, old(des.pos))
  {
    hide Decode;
    var items: seq<Item> := [];
    assert shs[0..] == shs;
    PrependNothing(DecodeAll(shs, des.buffer, des.pos));
    for n := 0 to |shs|
      invariant DecodeAll(shs, des.buffer, old(des.pos)) == Prepend(items, DecodeAll(shs[n..], des.buffer, des.pos))
    {
      assert shs[n..][0] == shs[n] && shs[n..][1..] == shs[n + 1..];
      ghost var p := des.pos;
      var i := Get(des, shs[n]);
      if i.None? {
        return None;
      }
      PrependStep(items, i.value, DecodeAll(shs[n + 1..], des.buffer, des.pos));
      items := items + [i.value];
    }
    assert items + [] == items;
    return Some(items);
  }

  function Prepend(items: seq<Item>, r: Option<(seq<Item>, nat)>): Option<(seq<Item>, nat)> {
    if r.None? then None else Some((items + r.value.0, r.value.1))
  }

  lemma PrependNothing(r: Option<(seq<Item>, nat)>)
    ensures Prepend([], r) == r
  {
    if r.Some? {
      assert [] + r.value.0 == r.value.0;
    }
  }

  lemma PrependStep(items: seq<Item>, i: Item, r: Option<(seq<Item>, nat)>)
    ensures Prepend(items, Prepend([i], r)) == Prepend(items + [i], r)
  {
    if r.Some? {
      assert items + ([i] + r.value.0) == items + [i] + r.value.0;
    }
  }

  /**
   Pause and resume: any items written to a buffer of any capacity and read back with the same
   calls. The writes all succeed exactly when the whole fits, and then the reads return the
   same items and stop exactly at `size`.
   */
  method SaveAndRestore(capacity: nat, items: seq<Item>) returns (ok: bool, back: Option<seq<Item>>, size: nat, end: nat)
    requires Fits(items)
    ensures ok <==> |EncodeAll(items)| <= capacity
    ensures ok ==> back == Some(items) && end == size == |EncodeAll(items)|
  {
    var ser := new Serializer(capacity);
    ok := PutAll(ser, items);
    size, end, back := ser.size, 0, None;
    if ok {
      var des := new Deserializer(ser.buffer[..ser.size]);
      back := GetAll(des, Shapes(items));
      end := des.pos;
      RoundTripAll([], items);
      assert [] + EncodeAll(items) == EncodeAll(items);
    }
  }
}

/** The AVCE container: captured functions, their relocations, and the import table. */
module Avce {
  import opened Util
  import opened Bytes

  type Blob = seq<Byte>

  /** A relocation; `addend` holds the two's-complement bits of the signed addend. */
  datatype Reloc = Reloc(offset: Word, addend: Word, kind: Blob, symbol: Blob)

  datatype Func = Func(name: Blob, body: Blob, relocs: seq<Reloc>)

  datatype Capture = Capture(arch: Blob, funcs: seq<Func>, imports: seq<Blob>)

  // ----- the encoder -----

  function U32(n: nat): Blob {
    ToLe(n, 4)
  }

  function Sized(b: Blob): Blob {
    U32(|b|) + b
  }

  function PutReloc(r: Reloc): Blob {
    ToLe(r.offset, 8) + ToLe(r.addend, 8) + Sized(r.kind) + Sized(r.symbol)
  }

  function PutRelocs(rs: seq<Reloc>): Blob {
    if rs == [] then [] else PutReloc(rs[0]) + PutRelocs(rs[1..])
  }

  function PutFunc(f: Func): Blob {
    Sized(f.name) + Sized(f.body) + U32(|f.relocs|) + PutRelocs(f.relocs)
  }

  function PutFuncs(fs: seq<Func>): Blob {
    if fs == [] then [] else PutFunc(fs[0]) + PutFuncs(fs[1..])
  }

  function PutNames(ns: seq<Blob>): Blob {
    if ns == [] then [] else Sized(ns[0]) + PutNames(ns[1..])
  }

  function Magic(): Blob {
    ToLe(0x4156_4345, 4) + ToLe(1, 2)
  }

  function Encoded(c: Capture): Blob {
    Magic() + (Sized(c.arch) + (U32(|c.funcs|) + (PutFuncs(c.funcs) + (U32(|c.imports|) + PutNames(c.imports)))))
  }

  lemma {:induction false} RelocsSnoc(rs: seq<Reloc>, r: Reloc)
    ensures PutRelocs(rs + [r]) == PutRelocs(rs) + PutReloc(r)
  {
    hide PutReloc;
    if rs == [] {
      assert rs + [r] == [r] && [r][1..] == [];
    } else {
      assert (rs + [r])[1..] == rs[1..] + [r];
      RelocsSnoc(rs[1..], r);
    }
  }

  lemma {:induction false} FuncsSnoc(fs: seq<Func>, f: Func)
    ensures PutFuncs(fs + [f]) == PutFuncs(fs) + PutFunc(f)
  {
    hide PutFunc;
    if fs == [] {
      assert fs + [f] == [f] && [f][1..] == [];
    } else {
      assert (fs + [f])[1..] == fs[1..] + [f];
      FuncsSnoc(fs[1..], f);
    }
  }

  lemma {:induction false} NamesSnoc(ns: seq<Blob>, n: Blob)
    ensures PutNames(ns + [n]) == PutNames(ns) + Sized(n)
  {
    hide Sized;
    if ns == [] {
      assert ns + [n] == [n] && [n][1..] == [];
    } else {
      assert (ns + [n])[1..] == ns[1..] + [n];
      NamesSnoc(ns[1..], n);
    }
  }

  method EncodeRelocs(b0: Blob, rs: seq<Reloc>) returns (b: Blob)
    ensures b == b0 + PutRelocs(rs)
  {
    hide PutRelocs, U32;
    b := b0;
    assert PutRelocs([]) == [] by { NoRelocs(); }
    for i := 0 to |rs|
      invariant b == b0 + PutRelocs(rs[..i])
    {
      var r := rs[i];
      assert rs[..i + 1] == rs[..i] + [r];
      RelocsSnoc(rs[..i], r);
      b := b + ToLe(r.offset, 8);
      b := b + ToLe(r.addend, 8);
      b := b + U32(|r.kind|) + r.kind;
      b := b + U32(|r.symbol|) + r.symbol;
      assert b == b0 + PutRelocs(rs[..i]) + PutReloc(r);
    }
    assert rs[..|rs|] == rs;
  }

  lemma NoRelocs()
    ensures PutRelocs([]) == [] && PutFuncs([]) == [] && PutNames([]) == []
  {
  }

  /** The encoder appends field by field; lengths and counts are cut to 32 bits. */
  method EncodeAvce(c: Capture) returns (b: Blob)
    ensures b == Encoded(c)
  {
    hide PutFuncs, PutNames, PutRelocs, ToLe;
    NoRelocs();
    b := ToLe(0x4156_4345, 4);
    b := b + ToLe(1, 2);
    b := b + U32(|c.arch|) + c.arch;
    b := b + U32(|c.funcs|);
    ghost var head := b;
    for i := 0 to |c.funcs|
      invariant b == head + PutFuncs(c.funcs[..i])
    {
      var f := c.funcs[i];
      assert c.funcs[..i + 1] == c.funcs[..i] + [f];
      FuncsSnoc(c.funcs[..i], f);
      b := b + U32(|f.name|) + f.name;
      b := b + U32(|f.body|) + f.body;
      b := b + U32(|f.relocs|);
      b := EncodeRelocs(b, f.relocs);
      assert b == head + PutFuncs(c.funcs[..i]) + PutFunc(f);
    }
    assert c.funcs[..|c.funcs|] == c.funcs;
    b := b + U32(|c.imports|);
    ghost var mid := b;
    for i := 0 to |c.imports|
      invariant b == mid + PutNames(c.imports[..i])
    {
      var n := c.imports[i];
      assert c.imports[..i + 1] == c.imports[..i] + [n];
      NamesSnoc(c.imports[..i], n);
      b := b + U32(|n|) + n;
    }
    assert c.imports[..|c.imports|] == c.imports;
  }

  // ----- a full-consumption decoder for the documented layout -----

  /** A value read from the front, and the bytes left. */
  type Got<T> = Option<(T, Blob)>

  function TakeNat(b: Blob, k: nat): Got<nat> {
    if |b| < k then None else Some((LeNat(b[..k]), b[k..]))
  }

  function TakeWord(b: Blob): Got<Word> {
    if |b| < 8 then None else Some((Le8(b[..8]), b[8..]))
  }

  function TakeSized(b: Blob): Got<Blob> {
    var (n, b1) :- TakeNat(b, 4);
    if |b1| < n then None else Some((b1[..n], b1[n..]))
  }

  function TakeReloc(b: Blob): Got<Reloc> {
    var (offset, b1) :- TakeWord(b);
    var (addend, b2) :- TakeWord(b1);
    var (kind, b3) :- TakeSized(b2);
    var (symbol, b4) :- TakeSized(b3);
    Some((Reloc(offset, addend, kind, symbol), b4))
  }

  function TakeRelocs(n: nat, b: Blob): Got<seq<Reloc>> {
    if n == 0 then Some(([], b))
    else
      var (r, b1) :- TakeReloc(b);
      var (rs, b2) :- TakeRelocs(n - 1, b1);
      Some(([r] + rs, b2))
  }

  function TakeFunc(b: Blob): Got<Func> {
    var (name, b1) :- TakeSized(b);
    var (body, b2) :- TakeSized(b1);
    var (n, b3) :- TakeNat(b2, 4);
    var (relocs, b4) :- TakeRelocs(n, b3);
    Some((Func(name, body, relocs), b4))
  }

  function TakeFuncs(n: nat, b: Blob): Got<seq<Func>> {
    if n == 0 then Some(([], b))
    else
      var (f, b1) :- TakeFunc(b);
      var (fs, b2) :- TakeFuncs(n - 1, b1);
      Some(([f] + fs, b2))
  }

  function TakeNames(n: nat, b: Blob): Got<seq<Blob>> {
    if n == 0 then Some(([], b))
    else
      var (s, b1) :- TakeSized(b);
      var (ss, b2) :- TakeNames(n - 1, b1);
      Some(([s] + ss, b2))
  }

  function Decoded(b: Blob): Option<Capture> {
    if |b| < 6 || b[..6] != Magic() then None
    else
      var (arch, b1) :- TakeSized(b[6..]);
      var (n, b2) :- TakeNat(b1, 4);
      var (funcs, b3) :- TakeFuncs(n, b2);
      var (m, b4) :- TakeNat(b3, 4);
      var (imports, b5) :- TakeNames(m, b4);
      if b5 == [] then Some(Capture(arch, funcs, imports)) else None
  }

  // ----- unique decodability -----

  predicate Fits(n: nat) {
    n < 0x1_0000_0000
  }

  predicate RelocFits(r: Reloc) {
    Fits(|r.kind|) && Fits(|r.symbol|)
  }

  predicate FuncFits(f: Func) {
    Fits(|f.name|) && Fits(|f.body|) && Fits(|f.relocs|) && forall i | 0 <= i < |f.relocs| :: RelocFits(f.relocs[i])
  }

  predicate CaptureFits(c: Capture) {
    && Fits(|c.arch|) && Fits(|c.funcs|) && Fits(|c.imports|)
    && (forall i | 0 <= i < |c.funcs| :: FuncFits(c.funcs[i]))
    && (forall i | 0 <= i < |c.imports| :: Fits(|c.imports[i]|))
  }

  lemma NatBack(n: nat, rest: Blob)
    requires Fits(n)
    ensures TakeNat(U32(n) + rest, 4) == Some((n, rest))
  {
    var b := U32(n) + rest;
    assert b[..4] == ToLe(n, 4) && b[4..] == rest;
    Pow256Values();
    LeRoundTrip(n, 4);
  }

  lemma WordBack(w: Word, rest: Blob)
    ensures TakeWord(ToLe(w, 8) + rest) == Some((w, rest))
  {
    var b := ToLe(w, 8) + rest;
    assert b[..8] == ToLe(w, 8) && b[8..] == rest;
    Le8RoundTrip(w);
  }

  lemma SizedBack(s: Blob, rest: Blob)
    requires Fits(|s|)
    ensures TakeSized(Sized(s) + rest) == Some((s, rest))
  {
    assert Sized(s) + rest == U32(|s|) + (s + rest);
    NatBack(|s|, s + rest);
    assert (s + rest)[..|s|] == s && (s + rest)[|s|..] == rest;
  }

  lemma RelocBack(r: Reloc, rest: Blob)
    requires RelocFits(r)
    ensures TakeReloc(PutReloc(r) + rest) == Some((r, rest))
  {
    hide Sized, TakeWord, TakeSized, ToLe;
    var b3 := Sized(r.symbol) + rest;
    var b2 := Sized(r.kind) + b3;
    var b1 := ToLe(r.addend, 8) + b2;
    assert PutReloc(r) + rest == ToLe(r.offset, 8) + b1;
    WordBack(r.offset, b1);
    WordBack(r.addend, b2);
    SizedBack(r.kind, b3);
    SizedBack(r.symbol, rest);
  }

  lemma {:induction false} RelocsBack(rs: seq<Reloc>, rest: Blob)
    requires forall i | 0 <= i < |rs| :: RelocFits(rs[i])
    ensures TakeRelocs(|rs|, PutRelocs(rs) + rest) == Some((rs, rest))
  {
    hide PutReloc, TakeReloc, RelocFits;
    if rs == [] {
      assert PutRelocs(rs) + rest == rest;
    } else {
      var b1 := PutRelocs(rs[1..]) + rest;
      assert PutRelocs(rs) + rest == PutReloc(rs[0]) + b1;
      RelocBack(rs[0], b1);
      RelocsBack(rs[1..], rest);
      assert rs == [rs[0]] + rs[1..];
    }
  }

  lemma FuncBack(f: Func, rest: Blob)
    requires FuncFits(f)
    ensures TakeFunc(PutFunc(f) + rest) == Some((f, rest))
  {
    hide Sized, TakeSized, TakeNat, TakeRelocs, PutRelocs, RelocFits, U32;
    var b3 := PutRelocs(f.relocs) + rest;
    var b2 := U32(|f.relocs|) + b3;
    var b1 := Sized(f.body) + b2;
    assert PutFunc(f) + rest == Sized(f.name) + b1;
    SizedBack(f.name, b1);
    SizedBack(f.body, b2);
    NatBack(|f.relocs|, b3);
    RelocsBack(f.relocs, rest);
  }

  lemma {:induction false} FuncsBack(fs: seq<Func>, rest: Blob)
    requires forall i | 0 <= i < |fs| :: FuncFits(fs[i])
    ensures TakeFuncs(|fs|, PutFuncs(fs) + rest) == Some((fs, rest))
  {
    hide PutFunc, TakeFunc, FuncFits;
    if fs == [] {
      assert PutFuncs(fs) + rest == rest;
    } else {
      var b1 := PutFuncs(fs[1..]) + rest;
      assert PutFuncs(fs) + rest == PutFunc(fs[0]) + b1;
      FuncBack(fs[0], b1);
      FuncsBack(fs[1..], rest);
      assert fs == [fs[0]] + fs[1..];
    }
  }

  lemma {:induction false} NamesBack(ns: seq<Blob>, rest: Blob)
    requires forall i | 0 <= i < |ns| :: Fits(|ns[i]|)
    ensures TakeNames(|ns|, PutNames(ns) + rest) == Some((ns, rest))
  {
    hide Sized, TakeSized;
    if ns == [] {
      assert PutNames(ns) + rest == rest;
    } else {
      var b1 := PutNames(ns[1..]) + rest;
      assert PutNames(ns) + rest == Sized(ns[0]) + b1;
      SizedBack(ns[0], b1);
      NamesBack(ns[1..], rest);
      assert ns == [ns[0]] + ns[1..];
    }
  }

  /** Every container whose lengths and counts fit is read back whole, with nothing left. */
  lemma AvceRoundTrip(c: Capture)
    requires CaptureFits(c)
    ensures Decoded(Encoded(c)) == Some(c)
  {
    hide Sized, TakeSized, TakeNat, U32, PutFuncs, TakeFuncs, PutNames, TakeNames, FuncFits, Magic;
    var b4 := PutNames(c.imports);
    var b3 := U32(|c.imports|) + b4;
    var b2 := PutFuncs(c.funcs) + b3;
    var b1 := U32(|c.funcs|) + b2;
    assert |Magic()| == 6 by { MagicLength(); }
    var b := Encoded(c);
    assert b[..6] == Magic() && b[6..] == Sized(c.arch) + b1;
    SizedBack(c.arch, b1);
    NatBack(|c.funcs|, b2);
    FuncsBack(c.funcs, b3);
    NatBack(|c.imports|, b4);
    assert b4 == PutNames(c.imports) + [];
    NamesBack(c.imports, []);
  }

  lemma MagicLength()
    ensures |Magic()| == 6
  {
  }

  /** The header as it lies in the file. */
  lemma HeaderBytes(c: Capture)
    ensures Encoded(c)[..6] == [0x45, 0x43, 0x56, 0x41, 0x01, 0x00]
  {
    MagicIs();
    hide Magic, Sized, U32, PutFuncs, PutNames;
  }

  lemma SizedByte(x: Byte)
    ensures Sized([x]) == [1, 0, 0, 0, x]
  {
    hide ToLe;
    SmallLe(1);
  }

  lemma KnownReloc(o: Byte, d: Byte, k: Byte, y: Byte)
    ensures PutReloc(Reloc(o, d, [k], [y])) ==
            [o, 0, 0, 0, 0, 0, 0, 0] + [d, 0, 0, 0, 0, 0, 0, 0] + [1, 0, 0, 0, k] + [1, 0, 0, 0, y]
  {
    hide ToLe, Sized;
    SmallLe(o);
    SmallLe(d);
    SizedByte(k);
    SizedByte(y);
  }

  lemma KnownFunc(f: Byte, b: Byte, r: Reloc)
    ensures PutFunc(Func([f], [b], [r])) == [1, 0, 0, 0, f] + [1, 0, 0, 0, b] + [1, 0, 0, 0] + PutReloc(r)
  {
    hide ToLe, Sized, PutReloc;
    SmallLe(1);
    SizedByte(f);
    SizedByte(b);
    assert PutRelocs([r]) == PutReloc(r) by {
      assert [r][1..] == [] && PutRelocs([]) == [] && PutReloc(r) + [] == PutReloc(r);
    }
  }

  /** A small capture as it lies in the file: the order of every field. */
  lemma KnownCapture(a: Byte, f: Func, i: Byte)
    ensures Encoded(Capture([a], [f], [[i]])) ==
            [0x45, 0x43, 0x56, 0x41, 0x01, 0x00] + ([1, 0, 0, 0, a] + ([1, 0, 0, 0] + (PutFunc(f) + ([1, 0, 0, 0] + [1, 0, 0, 0, i]))))
  {
    hide ToLe, Sized, PutFunc, Magic;
    MagicIs();
    SmallLe(1);
    SizedByte(a);
    SizedByte(i);
    assert PutFuncs([f]) == PutFunc(f) by {
      assert [f][1..] == [] && PutFuncs([]) == [] && PutFunc(f) + [] == PutFunc(f);
    }
    assert PutNames([[i]]) == Sized([i]) by {
      assert [[i]][1..] == [] && PutNames([]) == [] && Sized([i]) + [] == Sized([i]);
    }
  }

  lemma MagicIs()
    ensures Magic() == [0x45, 0x43, 0x56, 0x41, 0x01, 0x00]
  {
    assert ToLe(0x41, 1) == [0x41] && ToLe(0x4156, 2) == [0x56, 0x41] && ToLe(0x41_5643, 3) == [0x43, 0x56, 0x41];
    assert ToLe(0x4156_4345, 4) == [0x45, 0x43, 0x56, 0x41];
    assert ToLe(1, 2) == [1, 0];
  }

  /** Different captures never share an encoding. */
  lemma UniquelyDecodable(c: Capture, d: Capture)
    requires CaptureFits(c) && CaptureFits(d) && Encoded(c) == Encoded(d)
    ensures c == d
  {
    AvceRoundTrip(c);
    AvceRoundTrip(d);
  }
}

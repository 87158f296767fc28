/** The `liquid.ok` load gate: which sources a digest covers, and when a module is refused. */
module Attest {
  import opened Util
  import opened Bytes
  import opened Fnv
  import opened LiquidMode
  import Utf8

  /** A directory entry: its raw name and its bytes, when readable. */
  datatype File = File(name: seq<Byte>, data: Option<seq<Byte>>)

  datatype Attestation = Attestation(sourcesHash: Word, mlwHash: Word, prover: string, proverVersion: string, verdict: string, trusted: nat)

  /** The sidecar as `verify_module` finds it. */
  datatype Sidecar = Missing | Unparsable | Parsed(att: Attestation)

  datatype Gate = Accepted | Refused(why: string)

  // ----- file names -----

  function LastDot(name: seq<Byte>, n: nat): int
    requires n <= |name|
  {
    if n == 0 then -1 else if name[n - 1] == 0x2E then n - 1 else LastDot(name, n - 1)
  }

  lemma {:induction false} LastDotRange(name: seq<Byte>, n: nat)
    requires n <= |name|
    ensures -1 <= LastDot(name, n) < n
  {
    if n > 0 {
      LastDotRange(name, n - 1);
    }
  }

  /** What follows the last dot, unless that dot starts the name. */
  function Extension(name: seq<Byte>): Option<seq<Byte>> {
    LastDotRange(name, |name|);
    var k := LastDot(name, |name|);
    if k <= 0 then None else Some(name[k + 1..])
  }

  const AUI: seq<Byte> := [0x61, 0x75, 0x69]
  const AUM: seq<Byte> := [0x61, 0x75, 0x6D]
  const MLW: seq<Byte> := [0x6D, 0x6C, 0x77]

  predicate IsSource(f: File) {
    Extension(f.name) == Some(AUI) || Extension(f.name) == Some(AUM)
  }

  /** A non-empty base, a dot, and `ext`. */
  ghost predicate EndsIn(name: seq<Byte>, ext: seq<Byte>) {
    exists base :: base != [] && name == base + [0x2E] + ext
  }

  /** A name that ends in `.aui` or `.aum`. */
  ghost predicate SourceName(name: seq<Byte>) {
    EndsIn(name, [0x61, 0x75, 0x69]) || EndsIn(name, [0x61, 0x75, 0x6D])
  }

  lemma {:induction false} LastDotIs(name: seq<Byte>, n: nat, k: nat)
    requires k < n <= |name| && name[k] == 0x2E && forall i | k < i < n :: name[i] != 0x2E
    ensures LastDot(name, n) == k
  {
    if k < n - 1 {
      LastDotIs(name, n - 1, k);
    }
  }

  lemma {:induction false} LastDotFinds(name: seq<Byte>, n: nat)
    requires n <= |name| && LastDot(name, n) >= 0
    ensures LastDot(name, n) < n && name[LastDot(name, n)] == 0x2E
  {
    LastDotRange(name, n);
    if name[n - 1] != 0x2E {
      LastDotFinds(name, n - 1);
    }
  }

  /** A name has the extension exactly when it is a non-empty base, a dot and that extension. */
  lemma ExtensionMeans(name: seq<Byte>, ext: seq<Byte>)
    requires forall i | 0 <= i < |ext| :: ext[i] != 0x2E
    ensures Extension(name) == Some(ext) <==> EndsIn(name, ext)
  {
    if base :| base != [] && name == base + [0x2E] + ext {
      LastDotIs(name, |name|, |base|);
      assert name[|base| + 1..] == ext;
    }
    if Extension(name) == Some(ext) {
      var k := LastDot(name, |name|);
      LastDotFinds(name, |name|);
      assert name == name[..k] + [0x2E] + ext;
    }
  }

  lemma SourceNames(f: File)
    ensures IsSource(f) <==> SourceName(f.name)
  {
    hide Extension, EndsIn;
    ExtensionMeans(f.name, [0x61, 0x75, 0x69]);
    ExtensionMeans(f.name, [0x61, 0x75, 0x6D]);
  }

  predicate ValidUtf8(s: seq<Byte>) {
    Utf8.Encode(Utf8.LossyDecode(s)) == s
  }

  // ----- sorting by name -----

  predicate Leq(a: seq<Byte>, b: seq<Byte>)
    decreases |a|
  {
    a == [] || (b != [] && (a[0] < b[0] || (a[0] == b[0] && Leq(a[1..], b[1..]))))
  }

  lemma {:induction false} LeqTotal(a: seq<Byte>, b: seq<Byte>)
    ensures Leq(a, b) || Leq(b, a)
    decreases |a|
  {
    if a != [] && b != [] {
      LeqTotal(a[1..], b[1..]);
    }
  }

  lemma {:induction false} LeqAntisymmetric(a: seq<Byte>, b: seq<Byte>)
    requires Leq(a, b) && Leq(b, a)
    ensures a == b
    decreases |a|
  {
    if a != [] {
      LeqAntisymmetric(a[1..], b[1..]);
      assert a == [a[0]] + a[1..] && b == [b[0]] + b[1..];
    }
  }

  lemma {:induction false} LeqTransitive(a: seq<Byte>, b: seq<Byte>, c: seq<Byte>)
    requires Leq(a, b) && Leq(b, c)
    ensures Leq(a, c)
    decreases |a|
  {
    if a != [] && a[0] == b[0] && b[0] == c[0] {
      LeqTransitive(a[1..], b[1..], c[1..]);
    }
  }

  function Insert(f: File, s: seq<File>): (r: seq<File>)
    ensures |r| == |s| + 1
    decreases |s|
  {
    if s == [] then [f]
    else if Leq(f.name, s[0].name) then [f] + s
    else [s[0]] + Insert(f, s[1..])
  }

  function Sort(fs: seq<File>): (r: seq<File>)
    ensures |r| == |fs|
    decreases |fs|
  {
    if fs == [] then [] else Insert(fs[0], Sort(fs[1..]))
  }

  lemma {:induction false} InsertCommutes(a: File, b: File, s: seq<File>)
    requires a.name != b.name
    ensures Insert(a, Insert(b, s)) == Insert(b, Insert(a, s))
    decreases |s|
  {
    LeqTotal(a.name, b.name);
    if Leq(a.name, b.name) && Leq(b.name, a.name) {
      LeqAntisymmetric(a.name, b.name);
    }
    if s != [] {
      var c := s[0];
      LeqTotal(a.name, c.name);
      LeqTotal(b.name, c.name);
      if Leq(a.name, c.name) && !Leq(b.name, c.name) {
        if Leq(b.name, a.name) { LeqTransitive(b.name, a.name, c.name); }
      } else if !Leq(a.name, c.name) && Leq(b.name, c.name) {
        if Leq(a.name, b.name) { LeqTransitive(a.name, b.name, c.name); }
      } else if !Leq(a.name, c.name) {
        InsertCommutes(a, b, s[1..]);
      }
    }
  }

  ghost predicate Distinct(fs: seq<File>) {
    forall i, j | 0 <= i < j < |fs| :: fs[i].name != fs[j].name
  }

  function Without<T>(s: seq<T>, i: nat): seq<T>
    requires i < |s|
  {
    s[..i] + s[i + 1..]
  }

  /** Any element may be inserted last. */
  lemma {:induction false} SortPulls(fs: seq<File>, i: nat)
    requires Distinct(fs) && i < |fs|
    ensures Sort(fs) == Insert(fs[i], Sort(Without(fs, i)))
    decreases |fs|
  {
    if i == 0 {
      assert Without(fs, 0) == fs[1..];
    } else {
      var rest := fs[1..];
      assert Distinct(rest);
      SortPulls(rest, i - 1);
      assert Without(fs, i)[1..] == Without(rest, i - 1);
      assert Without(fs, i)[0] == fs[0];
      InsertCommutes(fs[0], fs[i], Sort(Without(rest, i - 1)));
    }
  }

  lemma WithoutMultiset<T>(s: seq<T>, i: nat)
    requires i < |s|
    ensures multiset(Without(s, i)) == multiset(s) - multiset{s[i]}
  {
    assert s == s[..i] + [s[i]] + s[i + 1..];
  }

  lemma WithoutDistinct(fs: seq<File>, i: nat)
    requires Distinct(fs) && i < |fs|
    ensures Distinct(Without(fs, i)) && |Without(fs, i)| == |fs| - 1
  {
  }

  lemma SharedElement<T>(s: seq<T>, t: seq<T>) returns (i: nat)
    requires s != [] && multiset(s) == multiset(t)
    ensures i < |t| && t[i] == s[0]
  {
    assert s[0] in multiset(s);
    assert s[0] in t;
    i :| 0 <= i < |t| && t[i] == s[0];
  }

  /** Sorting forgets the order in which distinct names were listed. */
  lemma {:induction false} SortCanonical(fs: seq<File>, gs: seq<File>)
    requires multiset(fs) == multiset(gs) && Distinct(fs) && Distinct(gs)
    ensures Sort(fs) == Sort(gs)
    decreases |fs|
  {
    assert |multiset(fs)| == |fs| && |multiset(gs)| == |gs|;
    if fs != [] {
      hide Sort, Insert, Distinct, Without;
      var i := SharedElement(fs, gs);
      SortPulls(gs, i);
      SortPulls(fs, 0);
      WithoutMultiset(gs, i);
      WithoutMultiset(fs, 0);
      WithoutDistinct(gs, i);
      WithoutDistinct(fs, 0);
      SortCanonical(Without(fs, 0), Without(gs, i));
    }
  }

  // ----- the digest -----

  function Sources(dir: seq<File>): seq<File> {
    if dir == [] then []
    else (if IsSource(dir[0]) then [dir[0]] else []) + Sources(dir[1..])
  }

  /** `source_files`: the sources of the directory, sorted by path. */
  function SourceFiles(dir: seq<File>): seq<File> {
    Sort(Sources(dir))
  }

  /** The bytes hashed: name, zero, contents, zero, file after file. */
  function Covered(fs: seq<File>): Option<seq<Byte>> {
    if fs == [] then Some([])
    else if !ValidUtf8(fs[0].name) || fs[0].data.None? then None
    else
      var rest :- Covered(fs[1..]);
      Some(fs[0].name + [0] + fs[0].data.value + [0] + rest)
  }

  function Digest(dir: seq<File>): Option<Word> {
    var s :- Covered(SourceFiles(dir));
    Some(Hash(s))
  }

  /** `sources_digest`: the accumulator is built file by file, then hashed. */
  method SourcesDigest(dir: seq<File>) returns (r: Option<Word>)
    ensures r == Digest(dir)
  {
    hide ValidUtf8;
    var fs := SourceFiles(dir);
    var acc: seq<Byte> := [];
    assert fs[0..] == fs;
    assert Covered(fs).Some? ==> [] + Covered(fs).value == Covered(fs).value;
    for i := 0 to |fs|
      invariant Covered(fs) == (var rest := Covered(fs[i..]); if rest.None? then None else Some(acc + rest.value))
    {
      assert fs[i..][0] == fs[i] && fs[i..][1..] == fs[i + 1..];
      if !ValidUtf8(fs[i].name) || fs[i].data.None? {
        return None;
      }
      ghost var rest := Covered(fs[i + 1..]);
      assert rest.Some? ==>
          acc + (fs[i].name + [0] + fs[i].data.value + [0] + rest.value) ==
          acc + fs[i].name + [0] + fs[i].data.value + [0] + rest.value;
      acc := acc + fs[i].name + [0];
      acc := acc + fs[i].data.value + [0];
    }
    assert acc + [] == acc;
    var h := Fnv1a(acc);
    r := Some(h);
  }

  // ----- the digest does not depend on listing order -----

  lemma {:induction false} SourcesCount(dir: seq<File>, f: File)
    ensures multiset(Sources(dir))[f] == if IsSource(f) then multiset(dir)[f] else 0
    decreases |dir|
  {
    hide IsSource;
    if dir != [] {
      SourcesCount(dir[1..], f);
      assert dir == [dir[0]] + dir[1..];
    }
  }

  lemma {:induction false} SourcesIn(dir: seq<File>, i: nat) returns (k: nat)
    requires i < |Sources(dir)|
    ensures k < |dir| && dir[k] == Sources(dir)[i] && i <= k
    ensures Distinct(dir) ==> forall j | 0 <= j < i :: exists m :: 0 <= m < k && dir[m] == Sources(dir)[j]
    decreases |dir|
  {
    hide IsSource;
    var d := if IsSource(dir[0]) then 1 else 0;
    if i < d {
      k := 0;
    } else {
      var k1 := SourcesIn(dir[1..], i - d);
      k := k1 + 1;
      if Distinct(dir) {
        assert Distinct(dir[1..]);
        forall j | 0 <= j < i
          ensures exists m :: 0 <= m < k && dir[m] == Sources(dir)[j]
        {
          if j < d {
            assert dir[0] == Sources(dir)[j];
          } else {
            assert Sources(dir)[j] == Sources(dir[1..])[j - d];
            var m :| 0 <= m < k1 && dir[1..][m] == Sources(dir[1..])[j - d];
            assert dir[m + 1] == Sources(dir)[j];
          }
        }
      }
    }
  }

  lemma SourcesDistinct(dir: seq<File>)
    requires Distinct(dir)
    ensures Distinct(Sources(dir))
  {
    hide IsSource;
    forall i, j | 0 <= i < j < |Sources(dir)|
      ensures Sources(dir)[i].name != Sources(dir)[j].name
    {
      var k := SourcesIn(dir, j);
      var m :| 0 <= m < k && dir[m] == Sources(dir)[i];
    }
  }

  /** The digest does not depend on the order in which the directory is read. */
  lemma DigestIgnoresOrder(dir: seq<File>, dir': seq<File>)
    requires multiset(dir) == multiset(dir') && Distinct(dir) && Distinct(dir')
    ensures Digest(dir) == Digest(dir')
  {
    hide IsSource, Covered;
    forall f: File
      ensures multiset(Sources(dir))[f] == multiset(Sources(dir'))[f]
    {
      SourcesCount(dir, f);
      SourcesCount(dir', f);
    }
    assert multiset(Sources(dir)) == multiset(Sources(dir'));
    SourcesDistinct(dir);
    SourcesDistinct(dir');
    SortCanonical(Sources(dir), Sources(dir'));
  }

  // ----- a one-byte edit of one source moves one byte of what is hashed -----

  lemma {:induction false} EditSources(dir: seq<File>, i: nat, f: File) returns (j: nat)
    requires i < |dir| && f.name == dir[i].name && IsSource(dir[i])
    ensures j < |Sources(dir)| && Sources(dir)[j] == dir[i] && Sources(dir[i := f]) == Sources(dir)[j := f]
    decreases |dir|
  {
    assert IsSource(f);
    hide IsSource;
    var d := if IsSource(dir[0]) then 1 else 0;
    if i == 0 {
      j := 0;
      assert dir[0 := f][1..] == dir[1..];
    } else {
      var j1 := EditSources(dir[1..], i - 1, f);
      assert dir[i := f][1..] == dir[1..][i - 1 := f];
      j := j1 + d;
    }
  }

  lemma {:induction false} EditInsert(g: File, s: seq<File>, j: nat, f: File) returns (k: nat)
    requires j < |s| && f.name == s[j].name
    ensures k < |s| + 1 && Insert(g, s)[k] == s[j] && Insert(g, s[j := f]) == Insert(g, s)[k := f]
    decreases |s|
  {
    if Leq(g.name, s[0].name) {
      k := j + 1;
    } else if j == 0 {
      k := 0;
      assert s[0 := f][1..] == s[1..];
    } else {
      var k1 := EditInsert(g, s[1..], j - 1, f);
      assert s[j := f][1..] == s[1..][j - 1 := f];
      k := k1 + 1;
    }
  }

  lemma {:induction false} InsertHead(g: File, f: File, s: seq<File>) returns (k: nat)
    requires f.name == g.name
    ensures k < |s| + 1 && Insert(g, s)[k] == g && Insert(f, s) == Insert(g, s)[k := f]
    decreases |s|
  {
    if s == [] || Leq(g.name, s[0].name) {
      k := 0;
    } else {
      var k1 := InsertHead(g, f, s[1..]);
      k := k1 + 1;
    }
  }

  lemma {:induction false} EditSort(fs: seq<File>, i: nat, f: File) returns (k: nat)
    requires i < |fs| && f.name == fs[i].name
    ensures k < |fs| && Sort(fs)[k] == fs[i] && Sort(fs[i := f]) == Sort(fs)[k := f]
    decreases |fs|
  {
    if i == 0 {
      assert fs[0 := f][1..] == fs[1..];
      k := InsertHead(fs[0], f, Sort(fs[1..]));
    } else {
      var k1 := EditSort(fs[1..], i - 1, f);
      assert fs[i := f][1..] == fs[1..][i - 1 := f];
      k := EditInsert(fs[0], Sort(fs[1..]), k1, f);
    }
  }

  /** Editing byte `p` of file `k` edits exactly one byte of the covered bytes. */
  lemma {:induction false} EditCovered(fs: seq<File>, k: nat, p: nat, b: Byte) returns (q: nat)
    requires k < |fs| && fs[k].data.Some? && p < |fs[k].data.value| && Covered(fs).Some?
    ensures var d := fs[k].data.value;
            && q < |Covered(fs).value| && Covered(fs).value[q] == d[p]
            && Covered(fs[k := fs[k].(data := Some(d[p := b]))]) == Some(Covered(fs).value[q := b])
    decreases |fs|
  {
    hide ValidUtf8;
    var f := fs[0];
    var rest := Covered(fs[1..]).value;
    var g := fs[k].(data := Some(fs[k].data.value[p := b]));
    var front: seq<Byte> := f.name + [0] + f.data.value + [0];
    var whole: seq<Byte> := front + rest;
    if k == 0 {
      q := |f.name| + 1 + p;
      assert fs[0 := g][1..] == fs[1..];
      assert g.name + [0] + g.data.value + [0] + rest == whole[q := b];
    } else {
      var q1 := EditCovered(fs[1..], k - 1, p, b);
      assert fs[k := g][1..] == fs[1..][k - 1 := g];
      q := |front| + q1;
      assert front + rest[q1 := b] == whole[q := b];
    }
  }

  /** A one-byte edit of one source gives a different digest, never the same and never none. */
  lemma EditChangesDigest(dir: seq<File>, i: nat, p: nat, b: Byte)
    requires i < |dir| && SourceName(dir[i].name) && dir[i].data.Some?
    requires p < |dir[i].data.value| && b != dir[i].data.value[p] && Digest(dir).Some?
    ensures var dir' := dir[i := dir[i].(data := Some(dir[i].data.value[p := b]))];
            Digest(dir').Some? && Digest(dir') != Digest(dir)
  {
    SourceNames(dir[i]);
    hide IsSource, Covered, Sort, Sources, HashFrom;
    var f := dir[i].(data := Some(dir[i].data.value[p := b]));
    var j := EditSources(dir, i, f);
    var k := EditSort(Sources(dir), j, f);
    var fs := SourceFiles(dir);
    var q := EditCovered(fs, k, p, b);
    OneByteEditDetected(BASIS, Covered(fs).value, q, b);
  }

  // ----- the gate -----

  /** Every readable `.mlw` must hash to the recorded value. */
  predicate MlwMatches(dir: seq<File>, h: Word) {
    forall i | 0 <= i < |dir| && Extension(dir[i].name) == Some(MLW) && dir[i].data.Some? :: Hash(dir[i].data.value) == h
  }

  /** When a module may be hosted. */
  ghost predicate Accepts(dir: seq<File>, sidecar: Sidecar, mode: Liquid) {
    || mode == Off
    || (mode == Optional && !sidecar.Parsed?)
    || (sidecar.Parsed? && Digest(dir) == Some(sidecar.att.sourcesHash)
        && MlwMatches(dir, sidecar.att.mlwHash) && sidecar.att.verdict == "proved")
  }

  /** `verify_module` as a decision cascade with its one checking loop. */
  method VerifyModule(dir: seq<File>, sidecar: Sidecar, mode: Liquid) returns (g: Gate)
    ensures g.Accepted? <==> Accepts(dir, sidecar, mode)
    ensures mode != Off && sidecar.Parsed? && Digest(dir) != Some(sidecar.att.sourcesHash) ==>
              g == Refused(if Digest(dir).None? then "LiquidAttestationUndecidable" else "LiquidAttestationStale")
    ensures mode == Required && sidecar.Missing? ==> g == Refused("LiquidAttestationMissing")
    ensures mode == Required && sidecar.Unparsable? ==> g == Refused("LiquidAttestationInvalid")
    ensures mode != Off && sidecar.Parsed? && Digest(dir) == Some(sidecar.att.sourcesHash) && !MlwMatches(dir, sidecar.att.mlwHash) ==>
              g == Refused("LiquidAttestationStale")
    ensures mode != Off && sidecar.Parsed? && Digest(dir) == Some(sidecar.att.sourcesHash) && MlwMatches(dir, sidecar.att.mlwHash) ==>
              match sidecar.att.verdict
              case "proved" => g == Accepted
              case "refused" => g == Refused("LiquidAttestationRefused")
              case "unknown" => g == Refused("LiquidAttestationUnknown")
              case _ => g == Refused("LiquidAttestationInvalid")
  {
    hide Digest, Extension, HashFrom;
    if mode == Off {
      return Accepted;
    }
    match sidecar {
      case Missing =>
        return if mode == Optional then Accepted else Refused("LiquidAttestationMissing");
      case Unparsable =>
        return if mode == Optional then Accepted else Refused("LiquidAttestationInvalid");
      case Parsed(att) =>
        var want := SourcesDigest(dir);
        if want.None? {
          return Refused("LiquidAttestationUndecidable");
        }
        if att.sourcesHash != want.value {
          return Refused("LiquidAttestationStale");
        }
        var entries := Sort(dir);
        for i := 0 to |entries|
          invariant MlwMatches(entries[..i], att.mlwHash)
        {
          if Extension(entries[i].name) == Some(MLW) && entries[i].data.Some? {
            var actual := Fnv1a(entries[i].data.value);
            if actual != att.mlwHash {
              SortedMember(dir, i);
              return Refused("LiquidAttestationStale");
            }
          }
          assert entries[..i + 1] == entries[..i] + [entries[i]];
        }
        assert entries[..|entries|] == entries;
        AllSorted(dir, att.mlwHash);
        if att.verdict == "proved" {
          return Accepted;
        } else if att.verdict == "refused" {
          return Refused("LiquidAttestationRefused");
        } else if att.verdict == "unknown" {
          return Refused("LiquidAttestationUnknown");
        } else {
          return Refused("LiquidAttestationInvalid");
        }
    }
  }

  lemma {:induction false} InsertMultiset(f: File, s: seq<File>)
    ensures multiset(Insert(f, s)) == multiset(s) + multiset{f}
    decreases |s|
  {
    hide Leq;
    if s != [] && !Leq(f.name, s[0].name) {
      InsertMultiset(f, s[1..]);
      assert s == [s[0]] + s[1..];
    }
  }

  lemma {:induction false} SortMultiset(fs: seq<File>)
    ensures multiset(Sort(fs)) == multiset(fs)
    decreases |fs|
  {
    if fs != [] {
      SortMultiset(fs[1..]);
      InsertMultiset(fs[0], Sort(fs[1..]));
      assert fs == [fs[0]] + fs[1..];
    }
  }

  lemma SortedMember(dir: seq<File>, i: nat)
    requires i < |Sort(dir)|
    ensures Sort(dir)[i] in dir
  {
    SortMultiset(dir);
    assert Sort(dir)[i] in multiset(Sort(dir));
  }

  lemma AllSorted(dir: seq<File>, h: Word)
    requires MlwMatches(Sort(dir), h)
    ensures MlwMatches(dir, h)
  {
    hide Extension, HashFrom;
    SortMultiset(dir);
    forall i | 0 <= i < |dir| && Extension(dir[i].name) == Some(MLW) && dir[i].data.Some?
      ensures Hash(dir[i].data.value) == h
    {
      assert dir[i] in multiset(Sort(dir));
    }
  }

  /** Once the sidecar describes the sources, any one-byte edit of any source is refused in both
      checking modes, and only with checking off is it let through. */
  lemma EditRefused(dir: seq<File>, att: Attestation, mode: Liquid, i: nat, p: nat, b: Byte)
    requires Digest(dir) == Some(att.sourcesHash)
    requires i < |dir| && SourceName(dir[i].name) && dir[i].data.Some?
    requires p < |dir[i].data.value| && b != dir[i].data.value[p]
    ensures Accepts(dir[i := dir[i].(data := Some(dir[i].data.value[p := b]))], Parsed(att), mode) <==> mode == Off
  {
    hide Digest, SourceName;
    EditChangesDigest(dir, i, p, b);
  }

  /** A file of any other name never changes the digest, whatever becomes of it. */
  lemma {:induction false} OthersIgnored(dir: seq<File>, i: nat, f: File)
    requires i < |dir| && !SourceName(dir[i].name) && !SourceName(f.name)
    ensures Digest(dir[i := f]) == Digest(dir) && Digest(dir[..i] + dir[i + 1..]) == Digest(dir)
  {
    SourceNames(dir[i]);
    SourceNames(f);
    hide IsSource, SourceName, Covered, Sort;
    OtherSources(dir, i, f);
  }

  lemma {:induction false} OtherSources(dir: seq<File>, i: nat, f: File)
    requires i < |dir| && !IsSource(dir[i]) && !IsSource(f)
    ensures Sources(dir[i := f]) == Sources(dir) && Sources(dir[..i] + dir[i + 1..]) == Sources(dir)
    decreases |dir|
  {
    hide IsSource;
    if i == 0 {
      assert dir[0 := f][1..] == dir[1..] && dir[..0] + dir[1..] == dir[1..];
    } else {
      OtherSources(dir[1..], i - 1, f);
      assert dir[i := f][1..] == dir[1..][i - 1 := f];
      assert (dir[..i] + dir[i + 1..])[1..] == dir[1..][..i - 1] + dir[1..][i..];
    }
  }

  /** A readable `.mlw` file that does not hash to the recorded value is refused in both checking modes. */
  lemma StaleObligations(dir: seq<File>, att: Attestation, mode: Liquid, i: nat)
    requires i < |dir| && EndsIn(dir[i].name, [0x6D, 0x6C, 0x77]) && dir[i].data.Some?
    requires Hash(dir[i].data.value) != att.mlwHash
    ensures Accepts(dir, Parsed(att), mode) <==> mode == Off
  {
    ExtensionMeans(dir[i].name, [0x6D, 0x6C, 0x77]);
    hide Extension, Digest, HashFrom;
  }

  /** The gate in the words of the directory and the sidecar. */
  lemma AcceptedMeans(dir: seq<File>, sidecar: Sidecar, mode: Liquid)
    ensures Accepts(dir, sidecar, mode) <==>
            || mode == Off
            || (mode == Optional && !sidecar.Parsed?)
            || (sidecar.Parsed? && sidecar.att.verdict == "proved" && Digest(dir) == Some(sidecar.att.sourcesHash)
                && forall f | f in dir && EndsIn(f.name, [0x6D, 0x6C, 0x77]) && f.data.Some? :: Hash(f.data.value) == sidecar.att.mlwHash)
  {
    hide Extension, Digest, HashFrom, EndsIn;
    forall f | f in dir
      ensures Extension(f.name) == Some(MLW) <==> EndsIn(f.name, [0x6D, 0x6C, 0x77])
    {
      ExtensionMeans(f.name, [0x6D, 0x6C, 0x77]);
    }
  }

  // ----- directories without a digest -----

  /** A source that cannot be read, or whose name is the UTF-8 form of no string. */
  ghost predicate Unhashable(f: File) {
    SourceName(f.name) && (f.data.None? || forall t :: Utf8.Encode(t) != f.name)
  }

  lemma NameOfString(name: seq<Byte>)
    ensures ValidUtf8(name) <==> exists t :: Utf8.Encode(t) == name
  {
    if t :| Utf8.Encode(t) == name {
      Utf8.DecodeEncode(t);
    }
  }

  lemma {:induction false} CoveredExactly(fs: seq<File>)
    ensures Covered(fs).None? <==> exists i :: 0 <= i < |fs| && (!ValidUtf8(fs[i].name) || fs[i].data.None?)
  {
    hide ValidUtf8;
    if fs != [] {
      CoveredExactly(fs[1..]);
      if i :| 0 < i < |fs| && (!ValidUtf8(fs[i].name) || fs[i].data.None?) {
        assert fs[1..][i - 1] == fs[i];
      }
      if i :| 0 <= i < |fs| - 1 && (!ValidUtf8(fs[1..][i].name) || fs[1..][i].data.None?) {
        assert fs[1..][i] == fs[i + 1];
      }
    }
  }

  /** A directory has no digest exactly when it holds such a source. */
  lemma UndecidableExactly(dir: seq<File>)
    ensures Digest(dir).None? <==> exists f :: f in dir && Unhashable(f)
  {
    hide IsSource, ValidUtf8, Covered, Sort, Sources, SourceName, HashFrom;
    var fs := SourceFiles(dir);
    CoveredExactly(fs);
    SortMultiset(Sources(dir));
    if i :| 0 <= i < |fs| && (!ValidUtf8(fs[i].name) || fs[i].data.None?) {
      var f := fs[i];
      assert f in multiset(Sort(Sources(dir)));
      SourcesCount(dir, f);
      SourceNames(f);
      NameOfString(f.name);
      assert f in multiset(dir);
      assert SourceName(f.name);
      assert f.data.None? || forall t :: Utf8.Encode(t) != f.name;
      assert Unhashable(f);
    }
    if f :| f in dir && Unhashable(f) {
      SourceNames(f);
      NameOfString(f.name);
      SourcesCount(dir, f);
      assert f in multiset(dir);
      assert f in multiset(Sort(Sources(dir)));
      var i :| 0 <= i < |fs| && fs[i] == f;
    }
  }

  // ----- the hashed bytes -----

  /** Byte-wise lexicographic order: a proper prefix, or the smaller byte at the first difference. */
  predicate Before(a: seq<Byte>, b: seq<Byte>, k: nat) {
    k <= |a| && k <= |b| && a[..k] == b[..k] && (k == |a| || (k < |b| && a[k] < b[k]))
  }

  ghost predicate Ordered(a: seq<Byte>, b: seq<Byte>) {
    exists k: nat :: Before(a, b, k)
  }

  lemma FirstByte(a: seq<Byte>, b: seq<Byte>, k: nat)
    requires a != [] && Before(a, b, k)
    ensures b != [] && a[0] <= b[0]
  {
    if k > 0 {
      assert a[..k][0] == b[..k][0];
    }
  }

  lemma {:induction false} LeqMeans(a: seq<Byte>, b: seq<Byte>)
    ensures Leq(a, b) <==> Ordered(a, b)
    decreases |a|
  {
    if a == [] {
      assert Before(a, b, 0);
    } else if b != [] && a[0] == b[0] {
      LeqMeans(a[1..], b[1..]);
      if k: nat :| Before(a[1..], b[1..], k) {
        assert a[..k + 1] == [a[0]] + a[1..][..k] && b[..k + 1] == [b[0]] + b[1..][..k];
        assert Before(a, b, k + 1);
      }
      if k: nat :| Before(a, b, k) {
        assert k > 0;
        assert a[1..][..k - 1] == a[..k][1..] && b[1..][..k - 1] == b[..k][1..];
        assert Before(a[1..], b[1..], k - 1);
      }
    } else if b != [] && a[0] < b[0] {
      assert Before(a, b, 0);
    } else {
      forall k: nat ensures !Before(a, b, k) {
        if Before(a, b, k) {
          FirstByte(a, b, k);
        }
      }
    }
  }

  /** Name, zero, contents, zero, file after file. */
  function Frames(fs: seq<File>): seq<Byte>
    requires forall i | 0 <= i < |fs| :: fs[i].data.Some?
  {
    if fs == [] then []
    else
      var f := fs[|fs| - 1];
      Frames(fs[..|fs| - 1]) + f.name + [0] + f.data.value + [0]
  }

  ghost predicate Listed(fs: seq<File>) {
    && (forall i | 0 <= i < |fs| :: fs[i].data.Some? && ValidUtf8(fs[i].name) && SourceName(fs[i].name))
    && (forall i, j | 0 <= i < j < |fs| :: Ordered(fs[i].name, fs[j].name))
  }

  /** Readable sources listed in order hash as the frames of their names and contents. */
  lemma DigestOfFrames(fs: seq<File>)
    requires Listed(fs)
    ensures Digest(fs) == Some(Hash(Frames(fs)))
  {
    hide ValidUtf8, SourceName, Ordered, Covered, Frames, Sort, Sources, HashFrom;
    AllSources(fs);
    SortedStays(fs);
    FramesCovered(fs);
  }

  lemma {:induction false} AllSources(fs: seq<File>)
    requires forall i | 0 <= i < |fs| :: SourceName(fs[i].name)
    ensures Sources(fs) == fs
  {
    hide IsSource, SourceName;
    if fs != [] {
      SourceNames(fs[0]);
      AllSources(fs[1..]);
      assert fs == [fs[0]] + fs[1..];
    }
  }

  lemma {:induction false} SortedStays(fs: seq<File>)
    requires forall i, j | 0 <= i < j < |fs| :: Ordered(fs[i].name, fs[j].name)
    ensures Sort(fs) == fs
  {
    hide Leq, Ordered;
    if fs != [] {
      assert forall i | 0 <= i < |fs| - 1 :: fs[1..][i] == fs[i + 1];
      SortedStays(fs[1..]);
      if |fs| > 1 {
        LeqMeans(fs[0].name, fs[1].name);
      }
      assert fs == [fs[0]] + fs[1..];
    }
  }

  lemma {:induction false} CoveredSnoc(fs: seq<File>, f: File)
    requires Covered(fs).Some? && f.data.Some? && ValidUtf8(f.name)
    ensures Covered(fs + [f]) == Some(Covered(fs).value + f.name + [0] + f.data.value + [0])
  {
    hide ValidUtf8;
    if fs == [] {
      assert [f][1..] == [] && fs + [f] == [f];
      var frame: seq<Byte> := f.name + [0] + f.data.value + [0];
      assert Covered([f]) == Some(frame + []) && frame + [] == frame;
      assert Covered(fs).value + f.name == f.name;
    } else {
      assert (fs + [f])[1..] == fs[1..] + [f];
      CoveredSnoc(fs[1..], f);
      FrameJoin(fs[0].name + [0] + fs[0].data.value + [0], Covered(fs[1..]).value, f.name, f.data.value);
    }
  }

  lemma FrameJoin(front: seq<Byte>, mid: seq<Byte>, name: seq<Byte>, data: seq<Byte>)
    ensures front + (mid + name + [0] + data + [0]) == front + mid + name + [0] + data + [0]
  {
  }

  lemma {:induction false} FramesCovered(fs: seq<File>)
    requires forall i | 0 <= i < |fs| :: fs[i].data.Some? && ValidUtf8(fs[i].name)
    ensures Covered(fs) == Some(Frames(fs))
  {
    hide ValidUtf8;
    if fs != [] {
      var n := |fs| - 1;
      FramesCovered(fs[..n]);
      CoveredSnoc(fs[..n], fs[n]);
      assert fs == fs[..n] + [fs[n]];
    }
  }
}

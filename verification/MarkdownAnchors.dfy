/** When the anchors the renderer emits stay whole: a quote-free address, then the rest of the tag. */
module MarkdownAnchors {
  import opened Util
  import opened Markdown
  import opened MarkdownIntegrity

  ghost predicate NoQuote(s: string) {
    forall i | 0 <= i < |s| :: s[i] != '\"'
  }

  /** The first quote, or the end. */
  function Quote(s: string): (n: nat)
    ensures n <= |s| && (forall i | 0 <= i < n :: s[i] != '\"') && (n < |s| ==> s[n] == '\"')
  {
    if s == [] || s[0] == '\"' then 0 else 1 + Quote(s[1..])
  }

  predicate OpensAt(s: string, i: nat) {
    i <= |s| && AnchorOpen() <= s[i..]
  }

  /** A quote-free address and the rest of an anchor's tag. */
  predicate Closes(s: string) {
    AnchorMid() <= s[Quote(s)..]
  }

  /** Every `<a href="` is followed by a quote-free address and the rest of the tag. */
  ghost predicate Intact(s: string) {
    forall i: nat | OpensAt(s, i) :: Closes(s[i + |AnchorOpen()|..])
  }

  // ----- reading from left to right -----

  /** Reads `s`, starting inside an address or outside: none when an address does not end in the
      rest of its tag, otherwise whether the end is inside one. */
  function Walk(s: string, inside: bool): Option<bool>
    decreases |s|
  {
    if s == [] then Some(inside)
    else if AnchorOpen() <= s then
      if inside then None else Walk(s[|AnchorOpen()|..], true)
    else if inside && s[0] == '\"' then
      if AnchorMid() <= s then Walk(s[|AnchorMid()|..], false) else None
    else Walk(s[1..], inside)
  }

  lemma Shapes()
    ensures |AnchorOpen()| == 9 && AnchorOpen()[0] == '<' && AnchorOpen()[1] == 'a' && AnchorOpen()[8] == '\"'
    ensures forall i | 1 <= i < 9 :: AnchorOpen()[i] != '<'
    ensures forall i | 0 <= i < 8 :: AnchorOpen()[i] != '\"'
    ensures |AnchorMid()| == 28 && AnchorMid()[0] == '\"' && AnchorMid()[1] == ' '
    ensures forall i | 0 <= i < 28 :: AnchorMid()[i] !in "<[]()*`"
    ensures forall i | 0 <= i < 9 :: AnchorOpen()[i] !in "[]()*`"
  {
  }

  lemma PrefixAt(t: string, s: string, i: nat)
    requires t <= s && i < |t|
    ensures s[i] == t[i]
  {
  }

  /** What must stand where an anchor, or the rest of one, begins. */
  lemma Needs(s: string)
    ensures AnchorOpen() <= s ==> |s| >= 9 && s[0] == '<' && s[1] == 'a' && s[8] == '\"'
    ensures AnchorMid() <= s ==> |s| >= 28 && s[0] == '\"' && s[1] == ' '
  {
    Shapes();
  }

  lemma NoQuoteTail(s: string)
    requires s != [] && s[0] != '\"'
    ensures NoQuote(s[1..]) ==> NoQuote(s)
  {
    assert s == [s[0]] + s[1..];
  }

  lemma PrefixOf(t: string, x: string, y: string)
    ensures t <= x ==> t <= x + y
    ensures t <= x + y && |t| <= |x| ==> t <= x
  {
  }

  /** Quote-free text leaves the reader where it was. */
  lemma {:induction false} WalkPlain(s: string, inside: bool)
    requires NoQuote(s)
    ensures Walk(s, inside) == Some(inside)
    decreases |s|
  {
    if s != [] {
      Needs(s);
      WalkPlain(s[1..], inside);
    }
  }

  /** The only tag that begins like an anchor is the anchor. */
  lemma OnlyAnchor(k: nat)
    requires k < |AllTags()|
    ensures |AllTags()[k]| >= 3 && (AllTags()[k][1] == 'a' ==> AllTags()[k] == AnchorStart())
  {
  }

  /** In text of whole tags, an anchor that opens before more text opens within it. */
  lemma OpensWithin(x: string, y: string)
    requires Tagged(AllTags(), x) && x != [] && AnchorOpen() <= x + y
    ensures AnchorOpen() <= x
  {
    Shapes();
    PrefixAt(AnchorOpen(), x + y, 0);
    PrefixAt(AnchorOpen(), x + y, 1);
    assert x[0] == '<' && x[0..] == x;
    assert StartsTag(AllTags(), x);
    assert AnchorOpen() <= AnchorStart();
    hide AllTags, AnchorOpen, AnchorStart;
    var k :| 0 <= k < |AllTags()| && AllTags()[k] <= x;
    OnlyAnchor(k);
    assert x[1] == 'a';
  }

  /** How far one step of the reading goes, and where it leaves the reader. */
  function WalkStep(t: string, inside: bool): Option<(nat, bool)>
    requires t != ""
  {
    if AnchorOpen() <= t then (if inside then None else Some((9, true)))
    else if inside && t[0] == '\"' then (if AnchorMid() <= t then Some((28, false)) else None)
    else Some((1, inside))
  }

  lemma WalkUnfold(t: string, inside: bool)
    requires t != ""
    ensures var w := WalkStep(t, inside);
            if w.None? then Walk(t, inside) == None
            else 0 < w.value.0 <= |t| && Walk(t, inside) == Walk(t[w.value.0..], w.value.1)
  {
    Shapes();
    Needs(t);
  }

  lemma WalkEmpty(inside: bool)
    ensures Walk("", inside) == Some(inside)
  {
  }

  /** More text behind whole tags does not change the step. */
  lemma ConcatStep(x: string, y: string, inside: bool)
    requires Tagged(AllTags(), x) && x != "" && WalkStep(x, inside).Some?
    ensures WalkStep(x + y, inside) == WalkStep(x, inside)
  {
    if AnchorOpen() <= x + y {
      OpensWithin(x, y);
    }
    PrefixOf(AnchorOpen(), x, y);
    PrefixOf(AnchorMid(), x, y);
    hide Tagged, AllTags, AnchorOpen, AnchorMid;
    assert (x + y)[0] == x[0];
  }

  /** Reading is compositional where no tag is cut. */
  lemma {:induction false} WalkConcat(x: string, y: string, inside: bool)
    requires Tagged(AllTags(), x) && Walk(x, inside).Some?
    ensures Walk(x + y, inside) == Walk(y, Walk(x, inside).value)
    decreases |x|
  {
    hide Tagged, AllTags, WalkStep, Walk;
    if x == [] {
      WalkEmpty(inside);
      assert x + y == y;
    } else {
      WalkUnfold(x, inside);
      WalkUnfold(x + y, inside);
      ConcatStep(x, y, inside);
      var (k, next) := WalkStep(x, inside).value;
      Suffix(AllTags(), x, k);
      assert (x + y)[k..] == x[k..] + y;
      WalkConcat(x[k..], y, next);
    }
  }

  /** What reading goes on to, if it got that far. */
  function Then(w: Option<bool>, y: string): Option<bool> {
    if w.None? then None else Walk(y, w.value)
  }

  /** Characters that no anchor literal holds past its first. */
  predicate Cutter(c: char) {
    c == '<' || c == '*' || c == '`'
  }

  lemma JoinStep(x: string, y: string, inside: bool)
    requires x != "" && (y == "" || Cutter(y[0])) && WalkStep(x, inside) == None
    ensures WalkStep(x + y, inside) == None
  {
    Needs(x);
    Needs(x + y);
    PrefixOf(AnchorOpen(), x, y);
    assert (x + y)[0] == x[0];
    MidCut(x, y);
    hide AnchorOpen, AnchorMid;
  }

  lemma MidCut(x: string, y: string)
    requires y == "" || Cutter(y[0])
    ensures AnchorMid() <= x + y ==> AnchorMid() <= x
  {
    Shapes();
    var t := x + y;
    assert y != "" ==> t[|x|] == y[0];
    assert AnchorMid() <= t ==> forall j | 0 <= j < 28 :: t[j] == AnchorMid()[j];
    PrefixOf(AnchorMid(), x, y);
  }

  /** Reading is compositional, failures included, in front of a tag or a marker. */
  lemma {:induction false} WalkJoin(x: string, y: string, inside: bool)
    requires Tagged(AllTags(), x) && (y == "" || Cutter(y[0]))
    ensures Walk(x + y, inside) == Then(Walk(x, inside), y)
    decreases |x|
  {
    hide Tagged, AllTags, WalkStep, Walk;
    if x == [] {
      WalkEmpty(inside);
      assert x + y == y;
    } else {
      WalkUnfold(x, inside);
      WalkUnfold(x + y, inside);
      if WalkStep(x, inside).None? {
        JoinStep(x, y, inside);
      } else {
        ConcatStep(x, y, inside);
        var (k, next) := WalkStep(x, inside).value;
        Suffix(AllTags(), x, k);
        assert (x + y)[k..] == x[k..] + y;
        WalkJoin(x[k..], y, next);
      }
    }
  }

  // ----- what the reading means -----

  /** In text of whole tags every anchor's address begins with an `h`. */
  lemma AnchorsStart(s: string, i: nat)
    requires Tagged(AllTags(), s) && OpensAt(s, i)
    ensures i + 9 < |s| && s[i + 9] == 'h'
  {
    Needs(s[i..]);
    assert s[i] == '<' && s[i + 1] == 'a';
    assert StartsTag(AllTags(), s[i..]);
    assert |AnchorStart()| == 10 && AnchorStart()[9] == 'h';
    hide AllTags, AnchorStart;
    var k :| 0 <= k < |AllTags()| && AllTags()[k] <= s[i..];
    OnlyAnchor(k);
    PrefixAt(AllTags()[k], s[i..], 1);
    PrefixAt(AllTags()[k], s[i..], 9);
  }

  /** A reading that fails meets an address that does not close. */
  lemma {:induction false} WalkFails(s: string, inside: bool) returns (i: Option<nat>)
    requires Walk(s, inside) == None && Tagged(AllTags(), s)
    ensures i.None? ==> inside && !Closes(s)
    ensures i.Some? ==> OpensAt(s, i.value) && !Closes(s[i.value + |AnchorOpen()|..])
    decreases |s|
  {
    Needs(s);
    if AnchorOpen() <= s && inside {
      i := None;
      AnchorsStart0(s);
      hide Walk, Tagged, AllTags;
      InnerOpen(s);
    } else if AnchorOpen() <= s {
      Suffix(AllTags(), s, 9);
      var j := WalkFails(s[9..], true);
      if j.None? {
        i := Some(0);
        assert s[0..] == s;
      } else {
        i := Some(j.value + 9);
        Shift(s, 9, j.value);
      }
    } else if inside && s[0] == '\"' {
      if AnchorMid() <= s {
        Suffix(AllTags(), s, 28);
        var j := WalkFails(s[28..], false);
        i := Some(j.value + 28);
        Shift(s, 28, j.value);
      } else {
        i := None;
        assert Quote(s) == 0 && s[0..] == s;
      }
    } else {
      Suffix(AllTags(), s, 1);
      var j := WalkFails(s[1..], inside);
      if j.None? {
        i := None;
        assert s[1..][Quote(s[1..])..] == s[1 + Quote(s[1..])..];
      } else {
        i := Some(j.value + 1);
        Shift(s, 1, j.value);
      }
    }
  }

  lemma Shift(s: string, k: nat, j: nat)
    requires k <= |s| && OpensAt(s[k..], j)
    ensures OpensAt(s, j + k) && s[k..][j + |AnchorOpen()|..] == s[j + k + |AnchorOpen()|..]
  {
    hide AnchorOpen;
    assert s[k..][j..] == s[j + k..];
  }

  lemma AnchorsStart0(s: string)
    requires Tagged(AllTags(), s) && AnchorOpen() <= s
    ensures |s| > 9 && s[9] == 'h'
  {
    assert s[0..] == s;
    AnchorsStart(s, 0);
  }

  lemma InnerOpen(s: string)
    requires AnchorOpen() <= s && |s| > 9 && s[9] == 'h'
    ensures !Closes(s)
  {
    Shapes();
    assert forall i | 0 <= i < 9 :: s[i] == AnchorOpen()[i];
    assert Quote(s) == 8;
    assert s[8..][1] == 'h';
    Needs(s[8..]);
  }

  lemma {:induction false} WalkCloses(s: string)
    requires Walk(s, true) == Some(false)
    ensures Closes(s)
    decreases |s|
  {
    Needs(s);
    if s[0] == '\"' {
      assert s[0..] == s;
    } else {
      WalkCloses(s[1..]);
      assert s[1..][Quote(s[1..])..] == s[1 + Quote(s[1..])..];
    }
  }

  /** A reading that ends outside every address means that every anchor is whole. */
  lemma {:induction false} WalkIntact(s: string, inside: bool, i: nat)
    requires Walk(s, inside) == Some(false) && OpensAt(s, i)
    ensures Closes(s[i + |AnchorOpen()|..])
    decreases |s|
  {
    OpensAfter(s, i);
    Needs(s);
    assert s[0..] == s;
    if AnchorOpen() <= s {
      if i == 0 {
        WalkCloses(s[|AnchorOpen()|..]);
      } else {
        Shifted(s, i, 9);
        WalkIntact(s[9..], true, i - 9);
      }
    } else if inside && s[0] == '\"' {
      Shifted(s, i, 28);
      WalkIntact(s[28..], false, i - 28);
    } else {
      Shifted(s, i, 1);
      WalkIntact(s[1..], inside, i - 1);
    }
  }

  /** Where an anchor opens, no other literal is under way. */
  lemma OpensAfter(s: string, i: nat)
    requires OpensAt(s, i)
    ensures i < |s| && s[i] == '<' && |AnchorOpen()| == 9 && |AnchorMid()| == 28
    ensures AnchorOpen() <= s && i > 0 ==> i >= 9
    ensures AnchorMid() <= s ==> i >= 28
  {
    Shapes();
    Needs(s[i..]);
    assert AnchorOpen() <= s ==> forall j | 0 <= j < 9 :: s[j] == AnchorOpen()[j];
    assert AnchorMid() <= s ==> forall j | 0 <= j < 28 :: s[j] == AnchorMid()[j];
  }

  lemma Shifted(s: string, i: nat, k: nat)
    requires k <= i && OpensAt(s, i)
    ensures OpensAt(s[k..], i - k) && i + |AnchorOpen()| <= |s|
    ensures s[k..][i - k + |AnchorOpen()|..] == s[i + |AnchorOpen()|..]
  {
    hide AnchorOpen;
    assert s[k..][i - k..] == s[i..];
  }

  lemma ReadsIntact(s: string)
    requires Walk(s, false) == Some(false)
    ensures Intact(s)
  {
    forall i: nat | OpensAt(s, i)
      ensures Closes(s[i + |AnchorOpen()|..])
    {
      WalkIntact(s, false, i);
    }
  }

  /** A reading that ends inside an address has an anchor whose address runs to the end. */
  lemma {:induction false} WalkOpen(s: string, inside: bool) returns (i: nat)
    requires Walk(s, inside) == Some(true) && (inside ==> !NoQuote(s))
    ensures OpensAt(s, i) && i + 9 <= |s| && NoQuote(s[i + 9..])
    decreases |s|
  {
    Shapes();
    if AnchorOpen() <= s {
      if NoQuote(s[9..]) {
        i := 0;
        assert s[0..] == s;
      } else {
        var j := WalkOpen(s[9..], true);
        i := j + 9;
        assert s[9..][j..] == s[i..] && s[9..][j + 9..] == s[i + 9..];
      }
    } else if inside && s[0] == '\"' {
      var j := WalkOpen(s[28..], false);
      i := j + 28;
      assert s[28..][j..] == s[i..] && s[28..][j + 9..] == s[i + 9..];
    } else {
      assert s != [];
      if inside {
        NoQuoteTail(s);
      }
      var j := WalkOpen(s[1..], inside);
      i := j + 1;
      assert s[1..][j..] == s[i..] && s[1..][j + 9..] == s[i + 9..];
    }
  }

  /** Over text of whole tags, every anchor is whole exactly when the reading ends outside. */
  lemma IntactReads(s: string)
    requires Tagged(AllTags(), s)
    ensures Intact(s) <==> Walk(s, false) == Some(false)
  {
    if Walk(s, false) == Some(false) {
      ReadsIntact(s);
    } else if Walk(s, false).None? {
      var i := WalkFails(s, false);
      assert OpensAt(s, i.value);
    } else {
      assert Walk(s, false).value;
      var i := WalkOpen(s, false);
      Endless(s[i + 9..]);
      Shapes();
      assert OpensAt(s, i) && !Closes(s[i + |AnchorOpen()|..]);
    }
  }

  lemma Endless(t: string)
    requires NoQuote(t)
    ensures !Closes(t)
  {
    Needs(t[Quote(t)..]);
  }

  // ----- the first quote -----

  /** The first quote, if any, belongs to an anchor that opens before every bracket. */
  ghost predicate OpensFirst(s: string) {
    NoQuote(s) || (8 <= Quote(s) < |s| && OpensAt(s, Quote(s) - 8) && NoBrackets(s[..Quote(s) + 1]))
  }

  /** Read from inside an address, such text never gets outside. */
  lemma {:induction false} OpensFirstReads(s: string)
    requires NoQuote(s) || (8 <= Quote(s) < |s| && OpensAt(s, Quote(s) - 8))
    ensures Walk(s, true) != Some(false)
    decreases |s|
  {
    if NoQuote(s) {
      WalkPlain(s, true);
    } else if !(AnchorOpen() <= s) {
      assert s[0..] == s;
      var q := Quote(s);
      assert q > 8 && Quote(s[1..]) == q - 1;
      assert s[1..][q - 9..] == s[q - 8..];
      OpensFirstReads(s[1..]);
    }
  }

  lemma FirstQuote(s: string, q: nat)
    requires q < |s| && s[q] == '\"' && NoQuote(s[..q])
    ensures Quote(s) == q
  {
    assert forall i | 0 <= i < q :: s[i] == s[..q][i];
  }

  /** The link loop keeps the first quote in front of the brackets. */
  lemma OpensFirstStep(s: string, c: Cut)
    requires OpensFirst(s) && CutOf(s, c) && NoBrackets(s[..c.start])
    ensures OpensFirst(ReplaceLink(s, c))
  {
    if !NoQuote(s) {
      KeptFirst(s, c);
    } else if SafeScheme(s[c.mid + 2..c.end]) {
      NewFirst(s, c);
    } else {
      UnsafeText(s, c);
      hide ReplaceLink, SafeScheme;
      var t, k := ReplaceLink(s, c), c.start;
      assert t == t[..k] + t[k..];
    }
  }

  lemma KeptFirst(s: string, c: Cut)
    requires OpensFirst(s) && !NoQuote(s) && CutOf(s, c)
    ensures OpensFirst(ReplaceLink(s, c))
  {
    hide ReplaceLink, AnchorOpen;
    var q, t := Quote(s), ReplaceLink(s, c);
    CutAfter(s, q + 1, c);
    KeepsPrefix(s, c, q + 1);
    var p := s[..q + 1];
    assert t[q] == p[q] && s[q] == p[q];
    assert NoQuote(t[..q]) by {
      assert forall i | 0 <= i < q :: t[..q][i] == p[i] && s[i] == p[i];
    }
    FirstQuote(t, q);
    OpenKept(s, t, q);
  }

  lemma OpenKept(s: string, t: string, q: nat)
    requires 8 <= q < |s| && q < |t| && t[..q + 1] == s[..q + 1] && OpensAt(s, q - 8)
    ensures OpensAt(t, q - 8)
  {
    Shapes();
    hide AnchorOpen;
    assert s[q - 8..][..9] == s[..q + 1][q - 8..] && t[q - 8..][..9] == t[..q + 1][q - 8..];
  }

  lemma NewFirst(s: string, c: Cut)
    requires NoQuote(s) && CutOf(s, c) && NoBrackets(s[..c.start]) && SafeScheme(s[c.mid + 2..c.end])
    ensures OpensFirst(ReplaceLink(s, c))
  {
    SafeText(s, c);
    Shapes();
    var p, o := s[..c.start], AnchorOpen();
    var rest := s[c.mid + 2..c.end] + (AnchorMid() + (s[c.start + 1..c.mid] + AnchorClose() + s[c.end + 1..]));
    hide AnchorOpen, AnchorMid, AnchorClose, SafeScheme, ReplaceLink;
    assert NoQuote(p);
    OpenedFirst(p, o, rest);
  }

  lemma OpenedFirst(p: string, o: string, rest: string)
    requires NoQuote(p) && NoBrackets(p) && o == AnchorOpen()
    ensures OpensFirst(p + (o + rest))
  {
    Shapes();
    var t, q := p + (o + rest), |p| + 8;
    assert t[..q] == p + o[..8] && t[q] == o[8];
    FirstQuote(t, q);
    assert t[..q + 1] == p + o;
    assert t[|p|..] == o + rest && (o + rest)[..9] == o;
  }

  lemma {:induction false} OpensFirstLoop(s: string)
    requires OpensFirst(s)
    ensures OpensFirst(Links(s))
    decreases Count(s)
  {
    hide OpensFirst, FindLink, ReplaceLink;
    var c := FindLink(s);
    if c.Some? {
      CutFacts(s, c.value);
      LinkLoopFalls(s, c.value);
      OpensFirstStep(s, c.value);
      OpensFirstLoop(ReplaceLink(s, c.value));
    }
  }

  // ----- one turn of the link loop -----

  predicate NoBrackets(s: string) {
    forall i | 0 <= i < |s| :: s[i] != '['
  }

  predicate NoParens(s: string) {
    forall i | 0 <= i < |s| :: s[i] != ')'
  }

  /** Read up to `n` without a bracket, with whole tags only. */
  ghost predicate ReadTo(s: string, n: nat, inside: bool) {
    n <= |s| && NoBrackets(s[..n]) && Tagged(AllTags(), s[..n]) && Walk(s[..n], false) == Some(inside)
  }

  /** All anchors are whole and lie before `n`; what follows is quote-free. */
  ghost predicate Settled(s: string, n: nat) {
    ReadTo(s, n, false) && NoQuote(s[n..])
  }

  /** The last anchor's address is the `m` characters from `n`, and what follows it is quote-free. */
  ghost predicate Addressed(s: string, n: nat, m: nat) {
    && ReadTo(s, n, true) && n + m <= |s|
    && NoQuote(s[n..n + m]) && NoParens(s[n..n + m]) && Tagged(AllTags(), s[n..n + m])
    && AnchorMid() <= s[n + m..] && NoQuote(s[n + m + |AnchorMid()|..])
  }

  /** An address that never closes: no quote follows, or the next one is followed by an `h`. */
  ghost predicate Dead(s: string, n: nat) {
    && ReadTo(s, n, true)
    && (NoQuote(s[n..]) ||
        exists k :: n <= k && k + 2 <= |s| && NoQuote(s[n..k]) && s[k..k + 2] == "\"h" && NoBrackets(s[..k + 2]))
  }

  /** The reader stands inside an address at `x`. */
  predicate InAddress(s: string, x: nat)
    requires x <= |s|
  {
    Walk(s[..x], false) == Some(true)
  }

  /** The cut starts inside an address, and either ends its caption there too or emits an anchor there. */
  predicate Breaks(s: string, c: Cut)
    requires c.start < c.mid && c.mid + 2 <= c.end < |s|
  {
    InAddress(s, c.start) && (InAddress(s, c.mid) || SafeScheme(s[c.mid + 2..c.end]))
  }

  /** No turn of the link loop breaks an address. */
  predicate Unbroken(s: string)
    decreases Count(s)
  {
    var c := FindLink(s);
    if c.None? then true
    else
      LinkLoopFalls(s, c.value);
      !Breaks(s, c.value) && Unbroken(ReplaceLink(s, c.value))
  }

  /** Reading to `n` and on over `z`. */
  lemma ReadOn(s: string, n: nat, inside: bool)
    requires ReadTo(s, n, inside)
    ensures Walk(s, false) == Walk(s[n..], inside)
  {
    assert s == s[..n] + s[n..];
    WalkConcat(s[..n], s[n..], false);
  }

  lemma SettledIntact(s: string, n: nat)
    requires Settled(s, n)
    ensures Intact(s) && Walk(s, false) == Some(false)
  {
    ReadOn(s, n, false);
    WalkPlain(s[n..], false);
    ReadsIntact(s);
  }

  /** Reading an address, the rest of its tag, and quote-free text behind. */
  lemma AddressReads(u: string, rest: string)
    requires NoQuote(u) && Tagged(AllTags(), u) && NoQuote(rest)
    ensures Walk(u + (AnchorMid() + rest), true) == Some(false)
  {
    WalkPlain(u, true);
    WalkPlain(rest, false);
    var mid := AnchorMid();
    Needs(mid + rest);
    assert (mid + rest)[|mid|..] == rest;
    assert Walk(mid + rest, true) == Some(false);
    hide AllTags, Tagged, Walk, AnchorMid;
    WalkConcat(u, mid + rest, true);
  }

  lemma AddressedReads(s: string, n: nat, m: nat)
    requires Addressed(s, n, m)
    ensures Walk(s[n..n + m + |AnchorMid()|], true) == Some(false)
    ensures Walk(s[n..], true) == Some(false)
  {
    hide ReadTo, AllTags, Tagged, Walk, AnchorMid;
    var u, mid, rest := s[n..n + m], AnchorMid(), s[n + m + |AnchorMid()|..];
    assert s[n..] == u + s[n + m..] && s[n + m..] == mid + rest;
    assert s[n..n + m + |mid|] == u + (mid + "");
    AddressReads(u, rest);
    AddressReads(u, "");
  }

  lemma AddressedIntact(s: string, n: nat, m: nat)
    requires Addressed(s, n, m)
    ensures Intact(s) && Walk(s, false) == Some(false)
  {
    ReadOn(s, n, true);
    AddressedReads(s, n, m);
    ReadsIntact(s);
  }

  /** An anchor in `s[..n]` whose address reaches `n`, and no quote before `k`. */
  lemma OpenReaches(s: string, n: nat, k: nat) returns (i: nat)
    requires n <= k <= |s| && Walk(s[..n], false) == Some(true) && NoQuote(s[n..k])
    ensures OpensAt(s, i) && i + 9 <= n && NoQuote(s[i + 9..k])
  {
    hide Walk, AnchorOpen;
    var p := s[..n];
    i := WalkOpen(p, false);
    assert s[i..] == p[i..] + s[n..];
    PrefixOf(AnchorOpen(), p[i..], s[n..]);
    assert s[i + 9..k] == p[i + 9..] + s[n..k];
  }

  lemma DeadNotIntact(s: string, n: nat)
    requires Dead(s, n)
    ensures !Intact(s)
  {
    Shapes();
    if NoQuote(s[n..]) {
      assert s[n..|s|] == s[n..];
      var i := OpenReaches(s, n, |s|);
      assert s[i + 9..|s|] == s[i + 9..];
      Needs(s[i + 9..][Quote(s[i + 9..])..]);
      assert !Closes(s[i + 9..]);
    } else {
      var k :| n <= k && k + 2 <= |s| && NoQuote(s[n..k]) && s[k..k + 2] == "\"h" && NoBrackets(s[..k + 2]);
      var i := OpenReaches(s, n, k);
      QuoteThenH(s, i + 9, k);
      assert !Closes(s[i + 9..]);
    }
  }

  lemma QuoteThenH(s: string, a: nat, k: nat)
    requires a <= k && k + 2 <= |s| && NoQuote(s[a..k]) && s[k..k + 2] == "\"h"
    ensures !Closes(s[a..])
  {
    var t := s[a..];
    assert s[k] == s[k..k + 2][0] && s[k + 1] == s[k..k + 2][1];
    assert forall j | 0 <= j < k - a :: t[j] == s[a..k][j];
    assert t[k - a] == '\"' && Quote(t) == k - a;
    assert t[k - a..][1] == 'h';
    Needs(t[k - a..]);
  }

  // ----- the cut -----

  lemma StartsWithChar(s: string, c: char)
    ensures s != [] && s[0] == c ==> [c] <= s
  {
  }

  lemma StartsWithPair(s: string)
    ensures |s| >= 2 && s[0] == ']' && s[1] == '(' ==> "](" <= s
  {
  }

  lemma FindNone(s: string, c: char, k: nat)
    requires Find(s, [c]) == Some(k)
    ensures forall j | 0 <= j < k :: s[j] != c
  {
    hide Find;
    forall j | 0 <= j < k
      ensures s[j] != c
    {
      StartsWithChar(s[j..], c);
      FindIsFirst(s, [c], j);
    }
  }

  /** The searches behind a cut. */
  lemma LinkSearches(s: string, c: Cut)
    requires FindLink(s) == Some(c)
    ensures CutOf(s, c)
    ensures Find(s, "[") == Some(c.start) && Find(s[c.start..], "](") == Some(c.mid - c.start)
    ensures Find(s[c.mid + 2..], ")") == Some(c.end - c.mid - 2)
  {
    hide Find;
    assert Find(s, "[") == Some(c.start);
    assert Find(s[c.start..], "](") == Some(c.mid - c.start);
  }

  lemma CaptionEnd(s: string, c: Cut)
    requires CutOf(s, c) && Find(s[c.start..], "](") == Some(c.mid - c.start)
    ensures forall j | c.start <= j < c.mid :: !(s[j] == ']' && s[j + 1] == '(')
  {
    hide Find;
    forall j | c.start <= j < c.mid
      ensures !(s[j] == ']' && s[j + 1] == '(')
    {
      assert s[c.start..][j - c.start..] == s[j..];
      StartsWithPair(s[j..]);
      FindIsFirst(s[c.start..], "](", j - c.start);
    }
  }

  /** The cut is the first bracket, the first caption end after it, and the first parenthesis after that. */
  lemma CutFacts(s: string, c: Cut)
    requires FindLink(s) == Some(c)
    ensures CutOf(s, c) && NoBrackets(s[..c.start]) && NoParens(s[c.mid + 2..c.end])
    ensures forall j | c.start <= j < c.mid :: !(s[j] == ']' && s[j + 1] == '(')
  {
    hide Find, FindLink;
    LinkSearches(s, c);
    FindNone(s, '[', c.start);
    var t := s[c.mid + 2..];
    FindNone(t, ')', c.end - c.mid - 2);
    assert forall i | 0 <= i < c.end - c.mid - 2 :: s[c.mid + 2..c.end][i] == t[i];
    CaptionEnd(s, c);
  }

  /** The parts around a cut hold whole tags. */
  lemma CutTagged(s: string, c: Cut)
    requires CutOf(s, c) && Tagged(NeutralTags(), s)
    ensures Tagged(AllTags(), s[..c.start]) && Tagged(AllTags(), s[c.mid + 2..c.end])
  {
    hide Tagged, MarkerFree, NeutralTags, AllTags;
    LinkMarkers();
    LinkPieces(NeutralTags(), s, c);
    Wider(s[..c.start]);
    Wider(s[c.mid + 2..c.end]);
  }

  lemma NoQuotePart(s: string, n: nat, a: nat, b: nat)
    requires n <= a <= b <= |s| && NoQuote(s[n..])
    ensures NoQuote(s[a..b])
  {
    assert forall i | 0 <= i < b - a :: s[a..b][i] == s[n..][a - n + i];
  }

  /** Quote-free text up to the cut leaves the reader where it was. */
  lemma Advance(s: string, n: nat, x: nat, inside: bool)
    requires ReadTo(s, n, inside) && n <= x <= |s| && NoQuote(s[n..x]) && NoBrackets(s[..x]) && Tagged(AllTags(), s[..x])
    ensures ReadTo(s, x, inside)
  {
    assert s[..x] == s[..n] + s[n..x];
    hide AllTags;
    WalkConcat(s[..n], s[n..x], false);
    WalkPlain(s[n..x], inside);
  }

  /** No bracket before `n` puts the cut at or after `n`. */
  lemma CutAfter(s: string, n: nat, c: Cut)
    requires n <= |s| && NoBrackets(s[..n]) && CutOf(s, c)
    ensures n <= c.start
  {
    var p := s[..n];
    assert forall i | 0 <= i < n :: p[i] == s[i];
  }

  /** The same prefix is read the same way. */
  lemma SameRead(s: string, t: string, n: nat, inside: bool)
    requires ReadTo(s, n, inside) && n <= |t| && t[..n] == s[..n]
    ensures ReadTo(t, n, inside)
  {
  }

  lemma SafeStarts(url: string)
    requires SafeScheme(url)
    ensures |url| > 0 && url[0] == 'h'
  {
  }

  /** One text, grouped in three ways. */
  lemma Flat(p: string, o: string, url: string, mid: string, cap: string, close: string, q: string)
    ensures var t := p + (o + url + mid + cap + close) + q;
            t == p + (o + (url + (mid + (cap + close + q)))) && t == p + o + url + mid + (cap + close + q)
  {
    var tail := cap + close + q;
    assert o + url + mid + cap + close + q == o + url + mid + tail;
    assert o + url + mid + tail == o + (url + (mid + tail));
    assert p + (o + url + mid + cap + close) + q == p + (o + url + mid + cap + close + q);
    assert p + (o + url + mid + tail) == p + o + url + mid + tail;
  }

  /** Where the quote of an anchor behind `p` stands. */
  lemma OpenQuote(p: string, o: string, rest: string)
    requires |o| == 9 && o[8] == '\"' && NoQuote(o[..8]) && NoBrackets(o) && NoBrackets(p) && rest != "" && rest[0] == 'h'
    ensures var t, k := p + (o + rest), |p| + 8;
            k + 2 <= |t| && NoQuote(t[|p|..k]) && t[k..k + 2] == "\"h" && NoBrackets(t[..k + 2])
  {
    var t, k := p + (o + rest), |p| + 8;
    assert t[|p|..k] == o[..8];
    assert t[k] == o[8] && t[k + 1] == rest[0];
    assert t[..k + 2] == p + o + [rest[0]];
  }

  lemma DeadAt(t: string, n: nat, k: nat)
    requires ReadTo(t, n, true) && n <= k && k + 2 <= |t| && NoQuote(t[n..k]) && t[k..k + 2] == "\"h" && NoBrackets(t[..k + 2])
    ensures Dead(t, n)
  {
    hide ReadTo;
  }

  lemma KillText(s: string, n: nat, url: string, rest: string)
    requires ReadTo(s, n, true) && url != "" && url[0] == 'h'
    ensures Dead(s[..n] + (AnchorOpen() + (url + rest)), n)
  {
    Shapes();
    assert NoBrackets(s[..n]) && NoBrackets(AnchorOpen()) && NoQuote(AnchorOpen()[..8]);
    hide ReadTo, Dead, AnchorOpen, NoQuote, NoBrackets;
    var t := s[..n] + (AnchorOpen() + (url + rest));
    assert t[..n] == s[..n];
    SameRead(s, t, n, true);
    OpenQuote(s[..n], AnchorOpen(), url + rest);
    DeadAt(t, n, n + 8);
  }

  /** An anchor emitted inside an address kills the address. */
  lemma AnchorKills(s: string, c: Cut)
    requires CutOf(s, c) && ReadTo(s, c.start, true) && SafeScheme(s[c.mid + 2..c.end])
    ensures Dead(ReplaceLink(s, c), c.start)
  {
    Shapes();
    SafeStarts(s[c.mid + 2..c.end]);
    assert NoBrackets(s[..c.start]);
    hide ReadTo, Dead, SafeScheme, AnchorOpen, AnchorMid, AnchorClose, NoQuote, NoBrackets;
    hide ReplaceLink;
    SafeText(s, c);
    var url, tail := s[c.mid + 2..c.end], s[c.start + 1..c.mid] + AnchorClose() + s[c.end + 1..];
    KillText(s, c.start, url, AnchorMid() + tail);
  }

  /** The parts of a text put together from five. */
  lemma Parts(p: string, o: string, url: string, mid: string, tail: string)
    ensures var t, n, m := p + o + url + mid + tail, |p| + |o|, |url|;
            && t[..n] == p + o && t[n..n + m] == url && t[n + m..] == mid + tail && t[n + m + |mid|..] == tail
            && mid <= t[n + m..]
  {
    var t, n, m := p + o + url + mid + tail, |p| + |o|, |url|;
    assert t == (p + o) + (url + (mid + tail));
    assert (mid + tail)[..|mid|] == mid;
    assert t[n + m + |mid|..] == (mid + tail)[|mid|..];
  }

  lemma AddressedFrom(t: string, p: string, u: string, tail: string)
    requires NoBrackets(p) && Tagged(AllTags(), p) && Walk(p, false) == Some(false)
    requires NoQuote(u) && NoParens(u) && Tagged(AllTags(), u) && NoQuote(tail)
    requires var n, m := |p| + |AnchorStart()|, |u|;
             && n + m + |AnchorMid()| <= |t| && t[..n] == p + AnchorStart() && t[n..n + m] == u
             && t[n + m + |AnchorMid()|..] == tail && AnchorMid() <= t[n + m..]
    ensures Addressed(t, |p| + |AnchorStart()|, |u|)
  {
    AfterStart(p);
    hide Tagged, AllTags, Walk, AnchorStart, AnchorMid, NoQuote, NoParens, NoBrackets;
  }

  lemma SettledSafe(s: string, c: Cut)
    requires CutOf(s, c) && ReadTo(s, c.start, false) && NoQuote(s[c.start..])
    requires NoParens(s[c.mid + 2..c.end]) && Tagged(AllTags(), s[c.mid + 2..c.end]) && SafeScheme(s[c.mid + 2..c.end])
    ensures c.end - c.mid - 3 >= 0 && Addressed(ReplaceLink(s, c), c.start + |AnchorStart()|, c.end - c.mid - 3)
  {
    hide NoQuote, Tagged, AllTags, Walk, AnchorOpen, AnchorStart, AnchorMid, AnchorClose, Addressed, SafeScheme, NoParens, NoBrackets, ReplaceLink;
    var n, url, cap, q := c.start, s[c.mid + 2..c.end], s[c.start + 1..c.mid], s[c.end + 1..];
    var p, tail := s[..n], cap + AnchorClose() + q;
    NoQuotePart(s, n, n + 1, c.mid);
    NoQuotePart(s, n, c.end + 1, |s|);
    assert s[c.end + 1..|s|] == q;
    TailQuote(cap, q);
    NoQuotePart(s, n, c.mid + 2, c.end);
    SafeText(s, c);
    SafeStarts(url);
    AddressedText(p, url, tail);
  }

  lemma TailQuote(cap: string, q: string)
    requires NoQuote(cap) && NoQuote(q)
    ensures NoQuote(cap + AnchorClose() + q)
  {
  }

  /** The text after a cut that emits an anchor. */
  lemma SafeText(s: string, c: Cut)
    requires CutOf(s, c) && SafeScheme(s[c.mid + 2..c.end])
    ensures var url, tail := s[c.mid + 2..c.end], s[c.start + 1..c.mid] + AnchorClose() + s[c.end + 1..];
            && ReplaceLink(s, c) == s[..c.start] + AnchorOpen() + url + AnchorMid() + tail
            && ReplaceLink(s, c) == s[..c.start] + (AnchorOpen() + (url + (AnchorMid() + tail)))
  {
    hide SafeScheme, AnchorOpen, AnchorMid, AnchorClose;
    Flat(s[..c.start], AnchorOpen(), s[c.mid + 2..c.end], AnchorMid(), s[c.start + 1..c.mid], AnchorClose(), s[c.end + 1..]);
  }

  lemma AddressedText(p: string, url: string, tail: string)
    requires NoBrackets(p) && Tagged(AllTags(), p) && Walk(p, false) == Some(false) && url != "" && url[0] == 'h'
    requires NoQuote(url) && NoParens(url) && Tagged(AllTags(), url) && NoQuote(tail)
    ensures Addressed(p + AnchorOpen() + url + AnchorMid() + tail, |p| + |AnchorStart()|, |url| - 1)
  {
    hide Tagged, AllTags, Walk, AnchorOpen, AnchorStart, AnchorMid, NoQuote, NoParens, NoBrackets, Addressed;
    var u := url[1..];
    TailPlain(url);
    StartText(p, url);
    Suffix(AllTags(), url, 1);
    Parts(p, AnchorStart(), u, AnchorMid(), tail);
    AddressedFrom(p + AnchorStart() + u + AnchorMid() + tail, p, u, tail);
  }

  lemma TailPlain(url: string)
    requires url != "" && NoQuote(url) && NoParens(url)
    ensures NoQuote(url[1..]) && NoParens(url[1..])
  {
  }

  lemma StartText(p: string, url: string)
    requires url != "" && url[0] == 'h'
    ensures p + AnchorOpen() + url == p + AnchorStart() + url[1..]
  {
    hide AnchorOpen;
    assert url == "h" + url[1..];
  }

  lemma AfterStart(p: string)
    requires NoBrackets(p) && Tagged(AllTags(), p) && Walk(p, false) == Some(false)
    ensures NoBrackets(p + AnchorStart()) && Tagged(AllTags(), p + AnchorStart()) && Walk(p + AnchorStart(), false) == Some(true)
  {
    var o := AnchorStart();
    StartReads();
    hide Tagged, AllTags, Walk, AnchorStart;
    Join(AllTags(), p, o);
    WalkConcat(p, o, false);
  }

  lemma StartReads()
    ensures NoBrackets(AnchorStart()) && Tagged(AllTags(), AnchorStart()) && Walk(AnchorStart(), false) == Some(true)
  {
    Shapes();
    Literals();
    Wider(AnchorStart());
    var o := AnchorStart();
    assert o[9..] == "h" && AnchorOpen() <= o;
    hide Tagged, AllTags;
    WalkPlain("h", true);
  }

  lemma SettledUnsafe(s: string, c: Cut)
    requires CutOf(s, c) && ReadTo(s, c.start, false) && NoQuote(s[c.start..]) && !SafeScheme(s[c.mid + 2..c.end])
    ensures Settled(ReplaceLink(s, c), c.start)
  {
    var t, n := ReplaceLink(s, c), c.start;
    assert t[..n] == s[..n] && t[n..] == s[n + 1..c.mid] + s[c.end + 1..];
    SameRead(s, t, n, false);
    NoQuotePart(s, n, n + 1, c.mid);
    NoQuotePart(s, n, c.end + 1, |s|);
  }

  lemma SettledAtCut(s: string, n: nat, c: Cut)
    requires Settled(s, n) && FindLink(s) == Some(c) && Tagged(NeutralTags(), s)
    ensures CutOf(s, c) && n <= c.start && Settled(s, c.start)
  {
    hide Tagged, AllTags, NeutralTags, Walk, FindLink, NoBrackets, NoQuote, NoParens;
    CutFacts(s, c);
    CutTagged(s, c);
    CutAfter(s, n, c);
    NoQuotePart(s, n, n, c.start);
    NoQuotePart(s, n, c.start, |s|);
    assert s[c.start..|s|] == s[c.start..];
    Advance(s, n, c.start, false);
  }

  /** A settled text never breaks, and stays settled or gains one address. */
  lemma SettledStep(s: string, n: nat, c: Cut) returns (k: nat)
    requires Settled(s, n) && FindLink(s) == Some(c) && Tagged(NeutralTags(), s)
    ensures CutOf(s, c) && !Breaks(s, c)
    ensures SafeScheme(s[c.mid + 2..c.end]) ==> c.end - c.mid - 3 >= 0 && Addressed(ReplaceLink(s, c), k, c.end - c.mid - 3)
    ensures !SafeScheme(s[c.mid + 2..c.end]) ==> Settled(ReplaceLink(s, c), k)
  {
    SettledAtCut(s, n, c);
    CutFacts(s, c);
    CutTagged(s, c);
    hide Tagged, AllTags, NeutralTags;
    if SafeScheme(s[c.mid + 2..c.end]) {
      SettledSafe(s, c);
      k := c.start + |AnchorStart()|;
    } else {
      SettledUnsafe(s, c);
      k := c.start;
    }
  }

  // ----- cuts around an address -----

  lemma MidPlain(s: string, a: nat, x: nat)
    requires a <= x < a + |AnchorMid()| && a <= |s| && AnchorMid() <= s[a..]
    ensures x < |s| && s[x] !in "<[]()*`" && s[a] == '\"'
  {
    Shapes();
    Needs(s[a..]);
    PrefixAt(AnchorMid(), s[a..], x - a);
  }

  lemma MidTagged()
    ensures Tagged(AllTags(), AnchorMid())
  {
    Shapes();
    NoBracket(AllTags(), AnchorMid());
  }

  /** An address without brackets leaves the text settled behind its tag. */
  lemma AddressClosed(s: string, n: nat, m: nat)
    requires Addressed(s, n, m) && NoBrackets(s[..n + m + |AnchorMid()|])
    ensures Settled(s, n + m + |AnchorMid()|)
  {
    hide Tagged, AllTags, Walk, AnchorMid, NoQuote, NoParens, NoBrackets;
    AddressedReads(s, n, m);
    MidTagged();
    var k, mid := n + m + |AnchorMid()|, AnchorMid();
    assert s[n..k] == s[n..n + m] + mid by {
      assert s[n + m..k] == s[n + m..][..|mid|];
      assert s[n..k] == s[n..n + m] + s[n + m..k];
    }
    Join(AllTags(), s[n..n + m], mid);
    ClosedRead(s, n, k);
  }

  lemma ClosedRead(s: string, n: nat, k: nat)
    requires n <= k <= |s| && ReadTo(s, n, true) && Tagged(AllTags(), s[n..k]) && Walk(s[n..k], true) == Some(false) && NoBrackets(s[..k])
    ensures ReadTo(s, k, false)
  {
    hide Tagged, AllTags, Walk;
    assert s[..k] == s[..n] + s[n..k];
    Join(AllTags(), s[..n], s[n..k]);
    WalkConcat(s[..n], s[n..k], false);
  }

  /** A cut behind the address finds the text settled. */
  lemma AddressPassed(s: string, n: nat, m: nat, c: Cut)
    requires Addressed(s, n, m) && CutOf(s, c) && NoBrackets(s[..c.start]) && n + m <= c.start
    ensures Settled(s, n + m + |AnchorMid()|)
  {
    var k := n + m + |AnchorMid()|;
    if c.start < k {
      MidPlain(s, n + m, c.start);
    }
    assert forall i | 0 <= i < k :: s[..k][i] == s[..c.start][i];
    hide Addressed, AnchorMid;
    AddressClosed(s, n, m);
  }

  /** A cut that starts in the address. */
  ghost predicate CutsAddress(s: string, n: nat, m: nat, c: Cut) {
    && Addressed(s, n, m) && CutOf(s, c) && n <= c.start < n + m && NoBrackets(s[..c.start])
    && Tagged(AllTags(), s[..c.start])
  }

  lemma StartsInside(s: string, n: nat, m: nat, c: Cut)
    requires CutsAddress(s, n, m, c)
    ensures ReadTo(s, c.start, true)
  {
    assert NoQuote(s[n..c.start]) by {
      assert forall i | 0 <= i < c.start - n :: s[n..c.start][i] == s[n..n + m][i];
    }
    hide Tagged, AllTags, Walk;
    Advance(s, n, c.start, true);
  }

  /** The caption ends within the address, or behind the whole tag. */
  lemma CaptionEnds(s: string, n: nat, m: nat, c: Cut)
    requires CutsAddress(s, n, m, c)
    ensures if c.mid < n + m then c.mid + 2 <= n + m && InAddress(s, c.mid)
            else n + m + |AnchorMid()| <= c.mid && !InAddress(s, c.mid)
  {
    MidPlain(s, n + m, n + m);
    if c.mid < n + m {
      assert c.mid + 1 != n + m;
      EndsInside(s, n, m, c);
    } else {
      if c.mid < n + m + |AnchorMid()| {
        MidPlain(s, n + m, c.mid);
      }
      EndsBehind(s, n, m, c);
    }
  }

  lemma EndsInside(s: string, n: nat, m: nat, c: Cut)
    requires CutsAddress(s, n, m, c) && c.mid < n + m
    ensures InAddress(s, c.mid)
  {
    hide Tagged, AllTags, Walk, ReadTo, AnchorMid, NoBrackets, NoParens;
    StartsInside(s, n, m, c);
    assert NoQuote(s[c.start..c.mid]) by {
      assert forall i | 0 <= i < c.mid - c.start :: s[c.start..c.mid][i] == s[n..n + m][c.start - n + i];
    }
    ReadPlain(s, c.start, c.mid);
  }

  lemma ReadPlain(s: string, n: nat, x: nat)
    requires ReadTo(s, n, true) && n <= x <= |s| && NoQuote(s[n..x])
    ensures InAddress(s, x)
  {
    WalkPlain(s[n..x], true);
    hide Tagged, AllTags, Walk, NoQuote;
    assert s[..x] == s[..n] + s[n..x];
    WalkConcat(s[..n], s[n..x], false);
  }

  lemma EndsBehind(s: string, n: nat, m: nat, c: Cut)
    requires CutsAddress(s, n, m, c) && n + m + |AnchorMid()| <= c.mid
    ensures !InAddress(s, c.mid)
  {
    hide Tagged, AllTags, Walk, AnchorMid, NoQuote, NoParens, NoBrackets;
    var a, mid := n + m, AnchorMid();
    NoQuotePart(s, a + |mid|, a + |mid|, c.mid);
    AddressReads(s[n..a], s[a + |mid|..c.mid]);
    MidRest(s, n, a, c.mid, mid);
    assert s[..c.mid] == s[..n] + s[n..c.mid];
    WalkConcat(s[..n], s[n..c.mid], false);
  }

  lemma MidRest(s: string, n: nat, a: nat, b: nat, mid: string)
    requires n <= a && a + |mid| <= b <= |s| && mid <= s[a..]
    ensures s[a..b] == mid + s[a + |mid|..b] && s[n..b] == s[n..a] + (mid + s[a + |mid|..b])
  {
    assert s[a..a + |mid|] == mid;
    assert s[a..b] == s[a..a + |mid|] + s[a + |mid|..b];
    assert s[n..b] == s[n..a] + s[a..b];
  }

  lemma ParenAfter(s: string, a: nat, b: nat, x: nat)
    requires a <= b <= |s| && NoParens(s[a..b]) && a <= x < |s| && s[x] == ')'
    ensures b <= x
  {
    assert forall i | a <= i < b :: s[i] == s[a..b][i - a];
  }

  lemma ParenBehind(s: string, n: nat, m: nat, c: Cut)
    requires CutsAddress(s, n, m, c) && c.mid + 2 <= n + m
    ensures n + m + |AnchorMid()| <= c.end
  {
    ParenAfter(s, n, n + m, c.end);
    if c.end < n + m + |AnchorMid()| {
      MidPlain(s, n + m, c.end);
    }
  }

  /** A caption that ends inside the address, with no anchor emitted: the rest of the tag is cut away. */
  lemma CutKills(s: string, n: nat, m: nat, c: Cut)
    requires CutsAddress(s, n, m, c) && c.mid + 2 <= n + m && !SafeScheme(s[c.mid + 2..c.end])
    ensures Dead(ReplaceLink(s, c), c.start)
  {
    hide Tagged, AllTags, Walk, ReplaceLink, ReadTo, AnchorMid, SafeScheme;
    StartsInside(s, n, m, c);
    ParenBehind(s, n, m, c);
    UnsafeText(s, c);
    var t, k, cap, q := ReplaceLink(s, c), c.start, s[c.start + 1..c.mid], s[c.end + 1..];
    assert NoQuote(cap) by {
      assert forall i | 0 <= i < |cap| :: cap[i] == s[n..n + m][k + 1 - n + i];
    }
    NoQuotePart(s, n + m + |AnchorMid()|, c.end + 1, |s|);
    assert s[c.end + 1..|s|] == q;
    NoQuoteConcat(cap, q);
    SameRead(s, t, k, true);
  }

  lemma BracketFree()
    ensures MarkerFree(AllTags(), '[')
  {
  }

  lemma TaggedWithout(u: string, i: nat)
    requires Tagged(AllTags(), u) && i < |u| && u[i] == '['
    ensures Tagged(AllTags(), u[..i] + u[i + 1..])
  {
    BracketFree();
    hide AllTags, Tagged, MarkerFree;
    Prefix(AllTags(), u, i);
    Suffix(AllTags(), u, i + 1);
    Join(AllTags(), u[..i], u[i + 1..]);
  }

  /** A caption that ends behind the tag, with no anchor emitted: the address loses one bracket. */
  lemma CutSpares(s: string, n: nat, m: nat, c: Cut)
    requires CutsAddress(s, n, m, c) && n + m + |AnchorMid()| <= c.mid && !SafeScheme(s[c.mid + 2..c.end])
    ensures Addressed(ReplaceLink(s, c), n, m - 1)
  {
    hide Tagged, AllTags, Walk, SafeScheme, AnchorMid, NoParens, NoBrackets, NoQuote, ReadTo, ReplaceLink;
    var k, a, e, mid := c.start, n + m, c.end + 1, AnchorMid();
    var x, y, rest, q := s[n..k], s[k + 1..a], s[a + |mid|..c.mid], s[e..];
    SparedAddress(s, n, a, k);
    NoQuotePart(s, a + |mid|, a + |mid|, c.mid);
    NoQuotePart(s, a + |mid|, e, |s|);
    assert s[e..|s|] == q;
    SparedText(s, n, a, mid, c);
    AddressedBy(s, ReplaceLink(s, c), n, x + y, mid, rest, q);
  }

  lemma SparedText(s: string, n: nat, a: nat, mid: string, c: Cut)
    requires CutOf(s, c) && n <= c.start < a && a + |mid| <= c.mid && mid <= s[a..] && !SafeScheme(s[c.mid + 2..c.end])
    ensures var t, m := ReplaceLink(s, c), a - n - 1;
            && |t| >= n + m + |mid| && t[..n] == s[..n] && t[n..n + m] == s[n..c.start] + s[c.start + 1..a]
            && mid <= t[n + m..] && t[n + m + |mid|..] == s[a + |mid|..c.mid] + s[c.end + 1..]
  {
    hide SafeScheme, ReplaceLink;
    var k := c.start;
    var x, y, rest, q := s[n..k], s[k + 1..a], s[a + |mid|..c.mid], s[c.end + 1..];
    UnsafeText(s, c);
    MidRest(s, k + 1, a, c.mid, mid);
    var t := ReplaceLink(s, c);
    assert t == s[..k] + ((y + (mid + rest)) + q) && s[..k] == s[..n] + x;
    SpareText(s[..n], x, y, mid, rest, q);
    assert t == s[..n] + x + (y + (mid + rest)) + q;
  }

  lemma AddressedBy(s: string, t: string, n: nat, u: string, mid: string, rest: string, q: string)
    requires ReadTo(s, n, true) && mid == AnchorMid()
    requires NoQuote(u) && NoParens(u) && Tagged(AllTags(), u) && NoQuote(rest) && NoQuote(q)
    requires |t| >= n + |u| + |mid| && t[..n] == s[..n] && t[n..n + |u|] == u && mid <= t[n + |u|..] && t[n + |u| + |mid|..] == rest + q
    ensures Addressed(t, n, |u|)
  {
    hide Tagged, AllTags, Walk, AnchorMid, NoParens, ReadTo;
    SameRead(s, t, n, true);
    NoQuoteConcat(rest, q);
  }

  lemma NoQuoteConcat(a: string, b: string)
    requires NoQuote(a) && NoQuote(b)
    ensures NoQuote(a + b)
  {
  }

  lemma SparedAddress(s: string, n: nat, a: nat, k: nat)
    requires n <= k < a <= |s| && s[k] == '['
    requires NoQuote(s[n..a]) && NoParens(s[n..a]) && Tagged(AllTags(), s[n..a])
    ensures var u := s[n..k] + s[k + 1..a]; NoQuote(u) && NoParens(u) && Tagged(AllTags(), u)
  {
    hide Tagged, AllTags, NoQuote, NoParens;
    var u := s[n..a];
    assert u[..k - n] == s[n..k] && u[k - n + 1..] == s[k + 1..a];
    TaggedWithout(u, k - n);
    PlainWithout(u, k - n);
  }

  lemma PlainWithout(u: string, i: nat)
    requires NoQuote(u) && NoParens(u) && i < |u|
    ensures NoQuote(u[..i] + u[i + 1..]) && NoParens(u[..i] + u[i + 1..])
  {
    var v := u[..i] + u[i + 1..];
    assert forall j | 0 <= j < |v| :: v[j] == if j < i then u[j] else u[j + 1];
  }

  lemma SpareText(p: string, x: string, y: string, mid: string, rest: string, q: string)
    ensures var t, n, m := p + x + (y + (mid + rest)) + q, |p|, |x| + |y|;
            && |t| >= n + m + |mid| && t[..n] == p && t[n..n + m] == x + y && mid <= t[n + m..] && t[n + m + |mid|..] == rest + q
  {
    var t, n, m := p + x + (y + (mid + rest)) + q, |p|, |x| + |y|;
    assert t == p + (x + y) + (mid + (rest + q));
    assert t[n + m..] == mid + (rest + q);
    assert (mid + (rest + q))[..|mid|] == mid;
  }

  // ----- dead texts stay dead -----

  lemma DeadStep(s: string, n: nat, c: Cut) returns (k: nat)
    requires Dead(s, n) && CutOf(s, c) && NoBrackets(s[..c.start]) && Tagged(AllTags(), s[..c.start])
    ensures Dead(ReplaceLink(s, c), k)
  {
    hide Tagged, AllTags, Walk, ReplaceLink, SafeScheme;
    CutAfter(s, n, c);
    if NoQuote(s[n..]) {
      k := c.start;
      EndlessStep(s, n, c);
    } else {
      k := n;
      var j :| n <= j && j + 2 <= |s| && NoQuote(s[n..j]) && s[j..j + 2] == "\"h" && NoBrackets(s[..j + 2]);
      CutAfter(s, j + 2, c);
      KeepsPrefix(s, c, j + 2);
      DeadStays(s, ReplaceLink(s, c), n, j);
    }
  }

  lemma KeepsPrefix(s: string, c: Cut, n: nat)
    requires CutOf(s, c) && n <= c.start
    ensures n <= |ReplaceLink(s, c)| && ReplaceLink(s, c)[..n] == s[..n]
  {
    hide Link, SafeScheme;
  }

  lemma EndlessStep(s: string, n: nat, c: Cut)
    requires ReadTo(s, n, true) && NoQuote(s[n..]) && n <= c.start
    requires CutOf(s, c) && NoBrackets(s[..c.start]) && Tagged(AllTags(), s[..c.start])
    ensures Dead(ReplaceLink(s, c), c.start)
  {
    var k := c.start;
    NoQuotePart(s, n, n, k);
    hide Tagged, AllTags, Walk, SafeScheme;
    Advance(s, n, k, true);
    if SafeScheme(s[c.mid + 2..c.end]) {
      AnchorKills(s, c);
    } else {
      NoQuotePart(s, n, k + 1, c.mid);
      NoQuotePart(s, n, c.end + 1, |s|);
      UnsafeText(s, c);
      SameRead(s, ReplaceLink(s, c), k, true);
    }
  }

  /** The text after a cut that drops the link form. */
  lemma UnsafeText(s: string, c: Cut)
    requires CutOf(s, c) && !SafeScheme(s[c.mid + 2..c.end])
    ensures var t, k := ReplaceLink(s, c), c.start;
            k <= |t| && t[..k] == s[..k] && t[k..] == s[k + 1..c.mid] + s[c.end + 1..]
  {
    hide SafeScheme;
  }

  lemma DeadStays(s: string, t: string, n: nat, j: nat)
    requires ReadTo(s, n, true) && n <= j && j + 2 <= |s| && NoQuote(s[n..j]) && s[j..j + 2] == "\"h" && NoBrackets(s[..j + 2])
    requires j + 2 <= |t| && t[..j + 2] == s[..j + 2]
    ensures Dead(t, n)
  {
    assert t[..n] == t[..j + 2][..n] && s[..n] == s[..j + 2][..n];
    assert t[n..j] == t[..j + 2][n..j] && s[n..j] == s[..j + 2][n..j];
    assert t[j..j + 2] == t[..j + 2][j..] && s[j..j + 2] == s[..j + 2][j..];
    hide Tagged, AllTags, Walk;
    SameRead(s, t, n, true);
    DeadAt(t, n, j);
  }

  // ----- the link loop -----

  lemma {:induction false} DeadLoop(s: string, n: nat)
    requires Dead(s, n) && Tagged(NeutralTags(), s)
    ensures !Intact(Links(s))
    decreases Count(s)
  {
    hide Dead, Tagged, NeutralTags, AllTags, FindLink, ReplaceLink, Intact;
    var c := FindLink(s);
    if c.None? {
      DeadNotIntact(s, n);
    } else {
      CutFacts(s, c.value);
      CutTagged(s, c.value);
      LinkLoopFalls(s, c.value);
      ReplaceTagged(s, c.value);
      var k := DeadStep(s, n, c.value);
      DeadLoop(ReplaceLink(s, c.value), k);
    }
  }

  /** Settled, or with one open address. */
  ghost predicate Live(s: string, n: nat, m: Option<nat>) {
    if m.None? then Settled(s, n) else Addressed(s, n, m.value)
  }

  /** What a cut does to a live text: it stays live, or breaks and is dead. */
  lemma LiveStep(s: string, n: nat, m: Option<nat>, c: Cut) returns (k: nat, l: Option<nat>)
    requires Live(s, n, m) && FindLink(s) == Some(c) && Tagged(NeutralTags(), s)
    ensures CutOf(s, c)
    ensures if Breaks(s, c) then Dead(ReplaceLink(s, c), k) else Live(ReplaceLink(s, c), k, l)
  {
    hide Settled, Addressed, Dead, Tagged, NeutralTags, AllTags, FindLink, ReplaceLink, Walk, SafeScheme;
    CutFacts(s, c);
    if m.None? {
      k := SettledStep(s, n, c);
      l := if SafeScheme(s[c.mid + 2..c.end]) then Some(c.end - c.mid - 3) else None;
    } else {
      AddressedBounds(s, n, m.value);
      CutAfter(s, n, c);
      if n + m.value <= c.start {
        AddressPassed(s, n, m.value, c);
        k := SettledStep(s, n + m.value + |AnchorMid()|, c);
        l := if SafeScheme(s[c.mid + 2..c.end]) then Some(c.end - c.mid - 3) else None;
      } else {
        CutTagged(s, c);
        k, l := AddressedStep(s, n, m.value, c);
      }
    }
  }

  lemma AddressedBounds(s: string, n: nat, m: nat)
    requires Addressed(s, n, m)
    ensures n <= |s| && NoBrackets(s[..n])
  {
  }

  lemma InsideFacts(s: string, n: nat, m: nat, c: Cut)
    requires CutsAddress(s, n, m, c)
    ensures CutOf(s, c) && 0 < m && ReadTo(s, c.start, true) && InAddress(s, c.start)
  {
    hide Addressed, Tagged, AllTags, Walk;
    StartsInside(s, n, m, c);
  }

  lemma AddressedStep(s: string, n: nat, m: nat, c: Cut) returns (k: nat, l: Option<nat>)
    requires CutsAddress(s, n, m, c)
    ensures if Breaks(s, c) then Dead(ReplaceLink(s, c), k) else Live(ReplaceLink(s, c), k, l)
  {
    hide CutsAddress, Addressed, Dead, ReplaceLink, SafeScheme, AnchorMid, Walk, ReadTo, InAddress;
    InsideFacts(s, n, m, c);
    CaptionEnds(s, n, m, c);
    l := None;
    if SafeScheme(s[c.mid + 2..c.end]) {
      AnchorKills(s, c);
      k := c.start;
    } else if c.mid < n + m {
      CutKills(s, n, m, c);
      k := c.start;
    } else {
      CutSpares(s, n, m, c);
      k, l := n, Some(m - 1);
    }
  }

  lemma {:induction false} LiveLoop(s: string, n: nat, m: Option<nat>)
    requires Live(s, n, m) && Tagged(NeutralTags(), s)
    ensures Intact(Links(s)) <==> Unbroken(s)
    ensures Unbroken(s) ==> Walk(Links(s), false) == Some(false)
    decreases Count(s)
  {
    hide Live, Dead, Tagged, NeutralTags, AllTags, FindLink, ReplaceLink, Intact, Breaks;
    var c := FindLink(s);
    if c.None? {
      LiveIntact(s, n, m);
    } else {
      CutFacts(s, c.value);
      LinkLoopFalls(s, c.value);
      ReplaceTagged(s, c.value);
      var k, l := LiveStep(s, n, m, c.value);
      if Breaks(s, c.value) {
        DeadLoop(ReplaceLink(s, c.value), k);
      } else {
        LiveLoop(ReplaceLink(s, c.value), k, l);
      }
    }
  }

  lemma LiveIntact(s: string, n: nat, m: Option<nat>)
    requires Live(s, n, m)
    ensures Intact(s) && Walk(s, false) == Some(false)
  {
    hide Settled, Addressed, Intact;
    if m.None? {
      SettledIntact(s, n);
    } else {
      AddressedIntact(s, n, m.value);
    }
  }

  /**
   For every escaped text, the link loop leaves every anchor whole exactly when no turn cuts
   from inside an address to a caption end inside it, or emits an anchor there.
   */
  lemma AnchorsExact(s: string)
    requires NoQuote(s) && Clean(s)
    ensures Intact(Links(s)) <==> Unbroken(s)
    ensures Unbroken(s) ==> Walk(Links(s), false) == Some(false)
  {
    PlainSettled(s);
    NoBracket(NeutralTags(), s);
    hide Settled, Tagged, NeutralTags, Intact;
    LiveLoop(s, 0, None);
  }

  lemma PlainSettled(s: string)
    requires NoQuote(s)
    ensures Settled(s, 0)
  {
    assert s[..0] == "" && s[0..] == s;
    EmptyTagged(AllTags());
  }

  // ----- a condition on the text alone -----

  /** A parenthesis that can open an address: it follows a bracket, or the end of a link form. */
  predicate LinkParen(s: string, i: nat) {
    0 < i < |s| && s[i] == '(' && (s[i - 1] == ']' || s[i - 1] == ')')
  }

  predicate ParenBetween(s: string, i: nat, j: nat) {
    exists k :: i < k < j && k < |s| && s[k] == ')'
  }

  /** No bracket stands between such a parenthesis and the next closing one. */
  ghost predicate Guarded(s: string) {
    forall i: nat, j: nat | LinkParen(s, i) && i < j < |s| && s[j] == '[' :: ParenBetween(s, i, j)
  }

  /** No caption end from `k` on. */
  ghost predicate NoCaptionEnd(s: string, k: nat) {
    forall j | k <= j && j + 1 < |s| :: !(s[j] == ']' && s[j + 1] == '(')
  }

  /** The loop's text is `a` and the unread rest of `s` from `n`, which follows a closed link form. */
  ghost predicate Ahead(s: string, a: string, n: nat, k: nat) {
    && n <= |s| && (if n == 0 then a == "" else s[n - 1] == ')')
    && k <= |a| && Settled(a + s[n..], k) && NoCaptionEnd(a, k)
  }

  lemma EndsOutside(a: string, r: string, k: nat, x: nat)
    requires NoCaptionEnd(a, k) && k <= x && x + 1 < |a + r| && (a + r)[x] == ']' && (a + r)[x + 1] == '('
    ensures |a| <= x + 1
  {
    var t := a + r;
    assert forall j | 0 <= j < |a| :: t[j] == a[j];
  }

  /** The address of the next cut is unread text behind a parenthesis of the original. */
  lemma NextAddress(s: string, a: string, n: nat, k: nat, c: Cut) returns (i: nat)
    requires Ahead(s, a, n, k) && CutOf(a + s[n..], c) && k <= c.start
    ensures LinkParen(s, i) && n <= i && i + |a| == c.mid + 1 + n
    ensures c.end - |a| + n < |s| && (a + s[n..])[c.mid + 2..c.end] == s[i + 1..c.end - |a| + n] && s[c.end - |a| + n] == ')'
    ensures |a| <= c.end && (a + s[n..])[c.end + 1..] == s[c.end - |a| + n + 1..]
  {
    hide Settled;
    var t := a + s[n..];
    EndsOutside(a, s[n..], k, c.mid);
    i := c.mid + 1 - |a| + n;
    assert forall j | |a| <= j < |t| :: t[j] == s[j - |a| + n];
  }

  lemma GuardedAddress(s: string, i: nat, e: nat)
    requires Guarded(s) && LinkParen(s, i) && i < e <= |s| && NoParens(s[i + 1..e])
    ensures NoBrackets(s[i + 1..e])
  {
    var u := s[i + 1..e];
    assert forall k | i < k < e :: s[k] == u[k - (i + 1)];
    forall j | 0 <= j < |u|
      ensures u[j] != '['
    {
      assert u[j] == s[i + 1 + j];
    }
  }

  lemma TagBrackets(p: string, url: string)
    requires NoBrackets(p) && NoBrackets(url)
    ensures NoBrackets(p + AnchorOpen() + url + AnchorMid())
  {
    Shapes();
  }

  /** An anchor emitted with a bracket-free address leaves the text settled behind its tag. */
  lemma SafeSettled(t: string, c: Cut)
    requires CutOf(t, c) && SafeScheme(t[c.mid + 2..c.end]) && NoBrackets(t[..c.start]) && NoBrackets(t[c.mid + 2..c.end])
    requires c.end - c.mid - 3 >= 0 && Addressed(ReplaceLink(t, c), c.start + |AnchorStart()|, c.end - c.mid - 3)
    ensures Settled(ReplaceLink(t, c), c.start + |AnchorOpen()| + (c.end - c.mid - 2) + |AnchorMid()|)
  {
    hide Settled, Addressed, SafeScheme, ReplaceLink, AnchorOpen, AnchorMid, AnchorClose, NoBrackets;
    var p, o, url, mid := t[..c.start], AnchorOpen(), t[c.mid + 2..c.end], AnchorMid();
    var tail := t[c.start + 1..c.mid] + AnchorClose() + t[c.end + 1..];
    TagBrackets(p, url);
    SafeText(t, c);
    var u := p + o + url + mid;
    assert (u + tail)[..|u|] == u;
    assert |AnchorStart()| == |o| + 1;
    AddressClosed(ReplaceLink(t, c), |p| + |o| + 1, |url| - 1);
  }

  /** After a cut that emits an anchor. */
  lemma AheadSafe(s: string, a: string, n: nat, k: nat, c: Cut) returns (a': string, n': nat, k': nat)
    requires Guarded(s) && Ahead(s, a, n, k) && FindLink(a + s[n..]) == Some(c) && Tagged(NeutralTags(), a + s[n..])
    requires CutOf(a + s[n..], c) && SafeScheme((a + s[n..])[c.mid + 2..c.end])
    ensures Ahead(s, a', n', k') && a' + s[n'..] == ReplaceLink(a + s[n..], c)
  {
    hide Guarded, Tagged, NeutralTags, AllTags, FindLink, ReplaceLink, SafeScheme, Addressed, Walk, NoBrackets, NoQuote;
    var t := a + s[n..];
    SettledAtCut(t, k, c);
    CutFacts(t, c);
    CutTagged(t, c);
    var i := NextAddress(s, a, n, k, c);
    GuardedAddress(s, i, c.end - |a| + n);
    SettledSafe(t, c);
    SafeSettled(t, c);
    a', n', k' := AheadText(s, a, n, t, c);
  }

  lemma AheadText(s: string, a: string, n: nat, t: string, c: Cut) returns (a': string, n': nat, k': nat)
    requires CutOf(t, c) && SafeScheme(t[c.mid + 2..c.end]) && |a| <= c.end && n <= |s|
    requires c.end - |a| + n < |s| && s[c.end - |a| + n] == ')' && t[c.end + 1..] == s[c.end - |a| + n + 1..]
    requires forall j | c.start <= j < c.mid :: !(t[j] == ']' && t[j + 1] == '(')
    requires Settled(ReplaceLink(t, c), c.start + |AnchorOpen()| + (c.end - c.mid - 2) + |AnchorMid()|)
    ensures Ahead(s, a', n', k') && a' + s[n'..] == ReplaceLink(t, c)
  {
    hide Settled, SafeScheme, ReplaceLink, AnchorOpen, AnchorMid, AnchorClose;
    SafeText(t, c);
    var x, cap := t[..c.start] + AnchorOpen() + t[c.mid + 2..c.end] + AnchorMid(), t[c.start + 1..c.mid];
    a', n', k' := x + (cap + AnchorClose()), c.end - |a| + n + 1, |x|;
    assert a' + s[n'..] == x + (cap + AnchorClose() + s[n'..]);
    CaptionGone(t, c, x);
  }

  lemma CaptionGone(t: string, c: Cut, x: string)
    requires CutOf(t, c) && forall j | c.start <= j < c.mid :: !(t[j] == ']' && t[j + 1] == '(')
    ensures NoCaptionEnd(x + (t[c.start + 1..c.mid] + AnchorClose()), |x|) && NoCaptionEnd(x + t[c.start + 1..c.mid], |x|)
  {
    var cap := t[c.start + 1..c.mid];
    assert forall j | 0 <= j < |cap| :: cap[j] == t[c.start + 1 + j];
    var y, z := x + (cap + AnchorClose()), x + cap;
    assert forall j | |x| <= j < |x| + |cap| :: y[j] == cap[j - |x|] && z[j] == cap[j - |x|];
    assert forall j | |x| + |cap| <= j < |y| :: y[j] == AnchorClose()[j - |x| - |cap|];
  }

  /** After a cut that drops the link form. */
  lemma AheadUnsafe(s: string, a: string, n: nat, k: nat, c: Cut) returns (a': string, n': nat, k': nat)
    requires Ahead(s, a, n, k) && FindLink(a + s[n..]) == Some(c) && Tagged(NeutralTags(), a + s[n..])
    requires CutOf(a + s[n..], c) && !SafeScheme((a + s[n..])[c.mid + 2..c.end])
    ensures Ahead(s, a', n', k') && a' + s[n'..] == ReplaceLink(a + s[n..], c)
  {
    hide Tagged, NeutralTags, AllTags, FindLink, ReplaceLink, SafeScheme, Walk, NoBrackets, NoQuote;
    var t := a + s[n..];
    SettledAtCut(t, k, c);
    CutFacts(t, c);
    var i := NextAddress(s, a, n, k, c);
    SettledUnsafe(t, c);
    a', n', k' := AheadDropped(s, a, n, t, c);
  }

  lemma AheadDropped(s: string, a: string, n: nat, t: string, c: Cut) returns (a': string, n': nat, k': nat)
    requires CutOf(t, c) && !SafeScheme(t[c.mid + 2..c.end]) && |a| <= c.end && n <= |s|
    requires c.end - |a| + n < |s| && s[c.end - |a| + n] == ')' && t[c.end + 1..] == s[c.end - |a| + n + 1..]
    requires forall j | c.start <= j < c.mid :: !(t[j] == ']' && t[j + 1] == '(')
    requires Settled(ReplaceLink(t, c), c.start)
    ensures Ahead(s, a', n', k') && a' + s[n'..] == ReplaceLink(t, c)
  {
    hide Settled, SafeScheme, ReplaceLink;
    UnsafeText(t, c);
    var p, cap, u := t[..c.start], t[c.start + 1..c.mid], ReplaceLink(t, c);
    a', n', k' := p + cap, c.end - |a| + n + 1, c.start;
    assert u == u[..k'] + u[k'..] && p + (cap + s[n'..]) == p + cap + s[n'..];
    CaptionGone(t, c, p);
  }

  lemma AheadSettled(s: string, a: string, n: nat, k: nat)
    requires Ahead(s, a, n, k)
    ensures n <= |s| && Settled(a + s[n..], k)
  {
  }

  lemma {:induction false} GuardedLoop(s: string, a: string, n: nat, k: nat)
    requires Guarded(s) && Ahead(s, a, n, k) && Tagged(NeutralTags(), a + s[n..])
    ensures Unbroken(a + s[n..])
    decreases Count(a + s[n..])
  {
    hide Guarded, Ahead, Tagged, NeutralTags, FindLink, ReplaceLink, Breaks, Settled, SafeScheme;
    AheadSettled(s, a, n, k);
    var t := a + s[n..];
    var c := FindLink(t);
    if c.Some? {
      var _ := SettledStep(t, k, c.value);
      LinkLoopFalls(t, c.value);
      ReplaceTagged(t, c.value);
      if SafeScheme(t[c.value.mid + 2..c.value.end]) {
        var a', n', k' := AheadSafe(s, a, n, k, c.value);
        AheadSettled(s, a', n', k');
        GuardedLoop(s, a', n', k');
      } else {
        var a', n', k' := AheadUnsafe(s, a, n, k, c.value);
        AheadSettled(s, a', n', k');
        GuardedLoop(s, a', n', k');
      }
    }
  }

  /**
   For every escaped text in which no `[` stands between a `](` or `)(` and the next `)`, every
   anchor of the link pass is a quote-free address followed by the rest of its tag.
   */
  lemma GuardedAnchors(s: string)
    requires NoQuote(s) && Clean(s) && Guarded(s)
    ensures Unbroken(s) && Intact(Links(s))
  {
    assert "" + s[0..] == s;
    PlainSettled(s);
    NoBracket(NeutralTags(), s);
    GuardedLoop(s, "", 0, 0);
    AnchorsExact(s);
  }
}

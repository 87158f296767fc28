/** Anchors through the marker pass and over whole pages, and inputs on which they break. */
module MarkdownPages {
  import opened Util
  import opened Markdown
  import opened MarkdownIntegrity
  import opened MarkdownAnchors

  // ----- the marker pass -----

  lemma CutStep(t: string, i: nat, inside: bool)
    requires 0 < i < |t| && t[i] in "*`"
    ensures WalkStep(t[..i], inside) == WalkStep(t, inside)
    ensures WalkStep(t, inside).Some? ==> WalkStep(t, inside).value.0 <= i
  {
    CutShapes(t, i);
    hide AnchorOpen, AnchorMid;
  }

  /** Reading is cut cleanly in front of a marker. */
  lemma {:induction false} WalkCut(t: string, i: nat, inside: bool)
    requires i < |t| && t[i] in "*`"
    ensures Walk(t, inside) == Then(Walk(t[..i], inside), t[i..])
    decreases |t|
  {
    if i == 0 {
      assert t[..0] == "" && t[0..] == t;
    } else {
      hide Walk, WalkStep;
      CutStep(t, i, inside);
      WalkUnfold(t, inside);
      WalkUnfold(t[..i], inside);
      if WalkStep(t, inside).Some? {
        var (k, next) := WalkStep(t, inside).value;
        assert t[..i][k..] == t[k..][..i - k] && t[k..][i - k..] == t[i..] && t[k..][i - k] == t[i];
        WalkCut(t[k..], i - k, next);
      }
    }
  }

  /** A literal that begins before a marker ends before it. */
  lemma CutShapes(t: string, i: nat)
    requires 0 < i < |t| && t[i] in "*`"
    ensures AnchorOpen() <= t <==> AnchorOpen() <= t[..i]
    ensures AnchorMid() <= t <==> AnchorMid() <= t[..i]
    ensures AnchorOpen() <= t ==> 9 <= i
    ensures AnchorMid() <= t ==> 28 <= i
  {
    Shapes();
    LiteralEnds(AnchorOpen(), t, i);
    LiteralEnds(AnchorMid(), t, i);
  }

  lemma LiteralEnds(o: string, t: string, i: nat)
    requires i < |t| && t[i] in "*`" && forall j | 0 <= j < |o| :: o[j] !in "<[]()*`" || o[j] == '<'
    ensures o <= t <==> o <= t[..i]
    ensures o <= t ==> |o| <= i
  {
    assert o <= t ==> forall j | 0 <= j < |o| :: o[j] == t[j];
  }

  lemma {:induction false} WalkSkip(m: string, y: string, inside: bool)
    requires forall j | 0 <= j < |m| :: m[j] in "*`"
    ensures Walk(m + y, inside) == Walk(y, inside)
    decreases |m|
  {
    if m == "" {
      assert m + y == y;
    } else {
      Needs(m + y);
      assert (m + y)[0] == m[0] && (m + y)[1..] == m[1..] + y;
      WalkSkip(m[1..], y, inside);
    }
  }

  /** A quote-free literal of whole tags in front. */
  lemma WalkLiteral(t: string, y: string, inside: bool)
    requires Tagged(AllTags(), t) && NoQuote(t)
    ensures Walk(t + y, inside) == Walk(y, inside)
  {
    WalkPlain(t, inside);
    hide Tagged, AllTags;
    WalkConcat(t, y, inside);
  }

  lemma MarkerLiterals(m: string)
    requires m == "**" || m == "`"
    ensures Tagged(AllTags(), OpenTag(m)) && NoQuote(OpenTag(m)) && Tagged(AllTags(), CloseTag(m)) && NoQuote(CloseTag(m))
  {
    Literals();
    hide Tagged, NeutralTags, AllTags;
    Wider(OpenTag(m));
    Wider(CloseTag(m));
  }

  /** What comes before a marker, and the reading behind it. */
  lemma ReadMarker(s: string, i: nat, m: string, inside: bool)
    requires Tagged(NeutralTags(), s) && (m == "**" || m == "`") && i + |m| <= |s| && s[i..i + |m|] == m
    ensures Tagged(NeutralTags(), s[..i]) && Tagged(AllTags(), s[..i]) && Tagged(NeutralTags(), s[i + |m|..])
    ensures Walk(s, inside) == Then(Walk(s[..i], inside), s[i + |m|..])
  {
    MarkerCuts(s, i, m);
    hide Tagged, NeutralTags, AllTags;
    Wider(s[..i]);
    assert s[i] == s[i..i + |m|][0] && m[0] in "*`";
    WalkCut(s, i, inside);
    assert s[i..] == m + s[i + |m|..];
    if Walk(s[..i], inside).Some? {
      WalkSkip(m, s[i + |m|..], Walk(s[..i], inside).value);
    }
  }

  /** An unclosed marker kept as it is. */
  lemma ReadLiteral(x: string, m: string, r: string, inside: bool)
    requires Tagged(AllTags(), x) && (m == "**" || m == "`")
    ensures Walk(x + m + r, inside) == Then(Walk(x, inside), r)
  {
    assert forall j | 0 <= j < |m| :: m[j] in "*`";
    hide Tagged, AllTags, Walk;
    assert x + m + r == x + (m + r) && (m + r)[0] == m[0];
    WalkJoin(x, m + r, inside);
    if Walk(x, inside).Some? {
      WalkSkip(m, r, Walk(x, inside).value);
    }
  }

  /** A span put around text of whole tags. */
  lemma ReadSpan(x: string, m: string, y: string, r: string, inside: bool)
    requires Tagged(AllTags(), x) && Tagged(AllTags(), y) && (m == "**" || m == "`")
    ensures Walk(x + OpenTag(m) + y + CloseTag(m) + r, inside)
         == if Walk(x, inside).None? then None else Then(Walk(y, Walk(x, inside).value), r)
  {
    MarkerLiterals(m);
    assert OpenTag(m)[0] == '<' && CloseTag(m)[0] == '<';
    hide Tagged, AllTags, Walk, OpenTag, CloseTag, NoQuote;
    var o, l := OpenTag(m), CloseTag(m);
    SpanText(x, o, y, l, r);
    assert (o + (y + (l + r)))[0] == o[0] && (l + r)[0] == l[0];
    WalkJoin(x, o + (y + (l + r)), inside);
    if Walk(x, inside).Some? {
      var b := Walk(x, inside).value;
      WalkLiteral(o, y + (l + r), b);
      WalkJoin(y, l + r, b);
      if Walk(y, b).Some? {
        WalkLiteral(l, r, Walk(y, b).value);
      }
    }
  }

  lemma SpanText(x: string, o: string, y: string, l: string, r: string)
    ensures x + o + y + l + r == x + (o + (y + (l + r)))
  {
  }

  /** The marker pass keeps the reading: no span is opened or closed inside an anchor's literals. */
  lemma {:induction false} SpansWalk(s: string, inside: bool)
    requires Tagged(NeutralTags(), s)
    ensures Walk(Spans(s), inside) == Walk(s, inside)
    decreases |s|
  {
    hide Tagged, NeutralTags, AllTags, NextMarker, OpenTag, CloseTag, Walk, Find, Spans;
    var next := NextMarker(s);
    if next.None? {
      SpansDone(s);
    } else {
      var (i, m) := next.value;
      ReadMarker(s, i, m, inside);
      var x, after, w := s[..i], s[i + |m|..], Walk(s[..i], inside);
      var close := Find(after, m);
      if close.None? {
        SpansOpen(s, i, m);
        ReadLiteral(x, m, Spans(after), inside);
        if w.Some? {
          SpansWalk(after, w.value);
        }
      } else {
        SpansClosed(s, i, m, close.value);
        ClosedWalk(x, m, after, close.value, inside);
      }
    }
  }

  lemma {:induction false} ClosedWalk(x: string, m: string, after: string, k: nat, inside: bool)
    requires Tagged(AllTags(), x) && Tagged(NeutralTags(), after) && (m == "**" || m == "`")
    requires k + |m| <= |after| && after[k..k + |m|] == m
    ensures Walk(x + OpenTag(m) + after[..k] + CloseTag(m) + Spans(after[k + |m|..]), inside) == Then(Walk(x, inside), after)
    decreases |after|, 0
  {
    hide Tagged, NeutralTags, AllTags, OpenTag, CloseTag, Walk, Spans;
    var z := after[k + |m|..];
    MarkerCutTagged(after, k, m);
    ReadSpan(x, m, after[..k], Spans(z), inside);
    if Walk(x, inside).Some? {
      var b := Walk(x, inside).value;
      ReadMarker(after, k, m, b);
      if Walk(after[..k], b).Some? {
        SpansWalk(z, Walk(after[..k], b).value);
      }
    }
  }

  lemma MarkerCutTagged(s: string, i: nat, m: string)
    requires Tagged(NeutralTags(), s) && (m == "**" || m == "`") && i + |m| <= |s| && s[i..i + |m|] == m
    ensures Tagged(AllTags(), s[..i])
  {
    MarkerCuts(s, i, m);
    hide Tagged, NeutralTags, AllTags;
    Wider(s[..i]);
  }

  // ----- pages -----

  lemma {:induction false} EscapeNoQuote(s: string)
    ensures NoQuote(Escape(s))
  {
    if s != [] {
      EscapeNoQuote(s[1..]);
    }
  }

  lemma TextPlain(line: string)
    ensures NoQuote(KindText(Classify(Escape(line)))) && Clean(KindText(Classify(Escape(line))))
  {
    EscapeNoQuote(line);
    ClassifiedClean(line);
    hide Escape, Blank, Clean;
  }

  /** A line's text read from outside ends outside exactly when its link loop breaks nothing;
      read from inside an address it never gets outside. */
  lemma InlineReads(t: string)
    requires NoQuote(t) && Clean(t)
    ensures Walk(InlineText(t), false) == Some(false) <==> Unbroken(t)
    ensures Walk(InlineText(t), true) != Some(false)
  {
    AnchorsExact(t);
    NoBracket(NeutralTags(), t);
    hide Tagged, NeutralTags, AllTags, Walk, Unbroken, Clean;
    LinksTagged(t);
    SpansWalk(Links(t), false);
    SpansWalk(Links(t), true);
    Wider(Links(t));
    IntactReads(Links(t));
    OpensFirstLoop(t);
    OpensFirstReads(Links(t));
  }

  lemma ElementReads(k: Kind)
    requires NoQuote(KindText(k)) && Clean(KindText(k))
    ensures Walk(Element(k), false) == Some(false) <==> Unbroken(KindText(k))
    ensures Walk(Element(k), true) != Some(false)
  {
    if k.Empty? {
      WalkPlain("", false);
      WalkPlain("", true);
      EmptyUnbroken();
    } else {
      var t := KindText(k);
      InlineReads(t);
      InlineTagged(t);
      hide Tagged, NeutralTags, AllTags, InlineText, HeadTag, HeadEnd, Clean, NoQuote, Unbroken, Walk;
      Wider(InlineText(t));
      match k
      case Heading(n, _) =>
        HeadLiterals(n);
        Wrapped(HeadTag(n), InlineText(t), HeadEnd(n), false);
        Wrapped(HeadTag(n), InlineText(t), HeadEnd(n), true);
      case Bullet(_) =>
        ListLiterals();
        Wrapped("<li>", InlineText(t), "</li>", false);
        Wrapped("<li>", InlineText(t), "</li>", true);
      case Paragraph(_) =>
        ParagraphLiterals();
        Wrapped("<p>", InlineText(t), "</p>", false);
        Wrapped("<p>", InlineText(t), "</p>", true);
    }
  }

  lemma EmptyUnbroken()
    ensures Unbroken("")
  {
  }

  lemma HeadLiterals(n: nat)
    ensures Tagged(AllTags(), HeadTag(n)) && NoQuote(HeadTag(n)) && Tagged(AllTags(), HeadEnd(n)) && NoQuote(HeadEnd(n))
    ensures HeadEnd(n) != "" && HeadEnd(n)[0] == '<'
  {
    Literals();
    hide Tagged, NeutralTags, AllTags;
    Wider(HeadTag(n));
    Wider(HeadEnd(n));
  }

  lemma ParagraphLiterals()
    ensures Tagged(AllTags(), "<p>") && NoQuote("<p>") && Tagged(AllTags(), "</p>") && NoQuote("</p>")
  {
    Literals();
    hide Tagged, NeutralTags, AllTags;
    Wider("<p>");
    Wider("</p>");
  }

  lemma ListLiterals()
    ensures Tagged(AllTags(), "<li>") && NoQuote("<li>") && Tagged(AllTags(), "</li>") && NoQuote("</li>")
    ensures Tagged(AllTags(), "<ul>") && NoQuote("<ul>") && Tagged(AllTags(), "</ul>") && NoQuote("</ul>")
  {
    ListLiteral("<ul>");
    ListLiteral("</ul>");
    ListLiteral("<li>");
    ListLiteral("</li>");
  }

  lemma Wrapped(a: string, t: string, b: string, inside: bool)
    requires Tagged(AllTags(), a) && NoQuote(a) && Tagged(AllTags(), b) && NoQuote(b) && b != "" && b[0] == '<'
    requires Tagged(AllTags(), t)
    ensures Walk(a + t + b, inside) == Walk(t, inside)
  {
    var w := Walk(t, inside);
    if w.Some? {
      WalkPlain(b, w.value);
    }
    hide Tagged, AllTags, Walk, NoQuote;
    assert a + t + b == a + (t + b);
    WalkLiteral(a, t + b, inside);
    WalkJoin(t, b, inside);
  }

  /** No line's text has a turn of the link loop that breaks an address. */
  ghost predicate LinesUnbroken(ls: seq<string>) {
    forall i | 0 <= i < |ls| :: Unbroken(KindText(Classify(Escape(TrimEnd(ls[i])))))
  }

  predicate StartsLikeTag(s: string) {
    s == "" || s[0] == '<'
  }

  lemma StartsConcat(a: string, b: string, c: string)
    requires StartsLikeTag(a) && StartsLikeTag(b) && StartsLikeTag(c)
    ensures StartsLikeTag(a + b + c)
  {
  }

  lemma ElementStarts(k: Kind, inList: bool)
    ensures StartsLikeTag(Element(k)) && StartsLikeTag(Lead(k, inList))
  {
    hide InlineText;
  }

  lemma {:induction false} ListStarts(ls: seq<string>, inList: bool)
    ensures StartsLikeTag(RenderLines(ls, inList))
    decreases |ls|
  {
    hide Classify, Escape, TrimEnd, Lead, Element;
    if ls != [] {
      hide StartsLikeTag;
      var k := Classify(Escape(TrimEnd(ls[0])));
      ListStarts(ls[1..], k.Bullet?);
      ElementStarts(k, inList);
      StartsConcat(Lead(k, inList), Element(k), RenderLines(ls[1..], k.Bullet?));
    }
  }

  /** The page read from outside ends outside exactly when every line's link loop breaks nothing;
      read from inside an address it never gets outside. */
  lemma {:induction false} LinesRead(ls: seq<string>, inList: bool, inside: bool)
    ensures Walk(RenderLines(ls, inList), inside) == Some(false) <==> !inside && LinesUnbroken(ls)
    decreases |ls|
  {
    hide Classify, Element, Escape, TrimEnd, Clean, Tagged, AllTags, Walk, Unbroken, NoQuote;
    ListLiterals();
    if ls == [] {
      assert NoQuote("") by { NothingQuoted(); }
      WalkPlain(if inList then "</ul>" else "", inside);
    } else {
      var k, rest := Classify(Escape(TrimEnd(ls[0]))), ls[1..];
      TextPlain(TrimEnd(ls[0]));
      ElementReads(k);
      LineTagged(k, inList);
      LineRead(k, rest, inList, inside);
      LinesRead(rest, k.Bullet?, false);
      LinesRead(rest, k.Bullet?, true);
      assert LinesUnbroken(ls) <==> Unbroken(KindText(k)) && LinesUnbroken(rest) by {
        assert ls == [ls[0]] + rest;
      }
    }
  }

  /** One line in front of the rest. */
  lemma LineRead(k: Kind, rest: seq<string>, inList: bool, inside: bool)
    requires Tagged(AllTags(), Lead(k, inList)) && Tagged(AllTags(), Element(k))
    ensures Walk(Lead(k, inList) + Element(k) + RenderLines(rest, k.Bullet?), inside)
         == Then(Walk(Element(k), inside), RenderLines(rest, k.Bullet?))
  {
    ListLiterals();
    NothingQuoted();
    ListStarts(rest, k.Bullet?);
    hide Classify, Element, Escape, TrimEnd, Tagged, AllTags, Walk, NoQuote, RenderLines;
    var lead, e, r := Lead(k, inList), Element(k), RenderLines(rest, k.Bullet?);
    assert lead + e + r == lead + (e + r);
    WalkLiteral(lead, e + r, inside);
    WalkJoin(e, r, inside);
  }

  lemma NothingQuoted()
    ensures NoQuote("")
  {
  }

  /** On every page, every anchor is a quote-free address followed by the rest of its tag, through
      links, markers and line elements, exactly when no line's link loop breaks an address. */
  lemma PageAnchors(body: string)
    ensures Intact(Render(body)) <==> LinesUnbroken(Lines(body))
  {
    LinesRead(Lines(body), false, false);
    OnlyOwnTags(body);
    IntactReads(Render(body));
  }

  /** In particular when no line has a `[` between a `](` or `)(` and the next `)`. */
  lemma GuardedPage(body: string)
    requires forall i | 0 <= i < |Lines(body)| :: Guarded(KindText(Classify(Escape(TrimEnd(Lines(body)[i])))))
    ensures Intact(Render(body))
  {
    hide Classify, Escape, TrimEnd, Lines, Guarded, Unbroken, Intact, Clean, NoQuote;
    var ls := Lines(body);
    forall i | 0 <= i < |ls|
      ensures Unbroken(KindText(Classify(Escape(TrimEnd(ls[i])))))
    {
      TextPlain(TrimEnd(ls[i]));
      GuardedAnchors(KindText(Classify(Escape(TrimEnd(ls[i])))));
    }
    PageAnchors(body);
  }

  // ----- inputs on which an anchor breaks -----

  lemma {:induction false} FindAt(s: string, pat: string, k: nat)
    requires pat != "" && k + |pat| <= |s| && s[k..k + |pat|] == pat && forall j | 0 <= j < k :: !(pat <= s[j..])
    ensures Find(s, pat) == Some(k)
    decreases k
  {
    assert s[0..] == s;
    if k == 0 {
      assert s[..|pat|] == pat;
    } else {
      assert forall j | 0 <= j < k - 1 :: s[1..][j..] == s[j + 1..];
      assert s[1..][k - 1..k - 1 + |pat|] == s[k..k + |pat|];
      FindAt(s[1..], pat, k - 1);
    }
  }

  lemma FindCharAt(s: string, c: char, k: nat)
    requires k < |s| && s[k] == c && forall j | 0 <= j < k :: s[j] != c
    ensures Find(s, [c]) == Some(k)
  {
    assert s[k..k + 1] == [c];
    assert forall j | 0 <= j < k :: s[j..][0] == s[j];
    FindAt(s, [c], k);
  }

  lemma FindCaptionEnd(s: string, k: nat)
    requires k + 1 < |s| && s[k] == ']' && s[k + 1] == '(' && forall j | 0 <= j < k :: s[j] != ']' || s[j + 1] != '('
    ensures Find(s, "](") == Some(k)
  {
    assert s[k..k + 2] == "](";
    assert forall j | 0 <= j < k :: s[j..][0] == s[j] && s[j..][1] == s[j + 1];
    FindAt(s, "](", k);
  }

  /** A cut is found where its brackets stand first. */
  lemma FindLinkAt(s: string, c: Cut)
    requires CutOf(s, c) && (forall j | 0 <= j < c.start :: s[j] != '[')
    requires forall j | c.start <= j < c.mid :: s[j] != ']' || s[j + 1] != '('
    requires forall j | c.mid + 2 <= j < c.end :: s[j] != ')'
    ensures FindLink(s) == Some(c)
  {
    hide Find;
    FindCharAt(s, '[', c.start);
    CaptionEndAt(s, c);
    ParenAt(s, c);
  }

  lemma CaptionEndAt(s: string, c: Cut)
    requires CutOf(s, c) && forall j | c.start <= j < c.mid :: s[j] != ']' || s[j + 1] != '('
    ensures Find(s[c.start..], "](") == Some(c.mid - c.start)
  {
    hide Find;
    var a := s[c.start..];
    assert forall j | 0 <= j < |a| :: a[j] == s[c.start + j];
    FindCaptionEnd(a, c.mid - c.start);
  }

  lemma ParenAt(s: string, c: Cut)
    requires CutOf(s, c) && forall j | c.mid + 2 <= j < c.end :: s[j] != ')'
    ensures Find(s[c.mid + 2..], ")") == Some(c.end - c.mid - 2)
  {
    hide Find;
    var b := s[c.mid + 2..];
    assert forall j | 0 <= j < |b| :: b[j] == s[c.mid + 2 + j];
    FindCharAt(b, ')', c.end - c.mid - 2);
  }

  lemma {:induction false} NoLink(s: string)
    requires NoBrackets(s)
    ensures Find(s, "[") == None && Links(s) == s
    decreases |s|
  {
    if s != [] {
      assert s[0] != '[';
      NoLink(s[1..]);
    }
  }

  /** One turn of the loop, from a text to the next. */
  lemma Turn(s: string, c: Cut, t: string)
    requires FindLink(s) == Some(c) && CutOf(s, c) && ReplaceLink(s, c) == t
    ensures Links(s) == Links(t)
  {
    hide FindLink, ReplaceLink;
    LinkLoopFalls(s, c);
  }

  /** No bracket, parenthesis or quote. */
  ghost predicate Plain(s: string) {
    forall i | 0 <= i < |s| :: s[i] !in "[]()\""
  }

  ghost predicate NoOpenings(s: string) {
    forall i | 0 <= i < |s| :: s[i] != '('
  }

  /** A cut with the given parts turns into an anchor, or drops its link form. */
  lemma TurnParts(p: string, cap: string, url: string, q: string)
    requires NoBrackets(p) && NoOpenings(cap) && NoParens(url)
    ensures Links(p + "[" + cap + "](" + url + ")" + q) == Links(p + (if SafeScheme(url) then Link(url, cap) else cap) + q)
  {
    hide Link, SafeScheme, Links, FindLink;
    var s := p + "[" + cap + "](" + url + ")" + q;
    var c := Cut(|p|, |p| + 1 + |cap|, |p| + 1 + |cap| + 2 + |url|);
    PartsAt(p, cap, url, q);
    forall j | c.start <= j < c.mid
      ensures s[j] != ']' || s[j + 1] != '('
    {
      assert j + 1 < c.mid ==> s[j + 1] == s[c.start + 1..c.mid][j - c.start];
    }
    FindLinkAt(s, c);
    Turn(s, c, p + (if SafeScheme(url) then Link(url, cap) else cap) + q);
  }

  lemma PartsAt(p: string, cap: string, url: string, q: string)
    ensures var s := p + "[" + cap + "](" + url + ")" + q;
            var c := Cut(|p|, |p| + 1 + |cap|, |p| + 1 + |cap| + 2 + |url|);
            && CutOf(s, c) && s[..c.start] == p && s[c.start + 1..c.mid] == cap && s[c.mid + 2..c.end] == url && s[c.end + 1..] == q
            && (forall j | 0 <= j < |p| :: s[j] == p[j])
            && (forall j | c.mid + 2 <= j < c.end :: s[j] == url[j - (c.mid + 2)])
  {
  }

  /**
   A link form inside an http address: `[cap](http://u[v](w)x1)x2` comes out as an anchor whose
   address has no closing quote, for all plain parts with `w` not an http address itself.
   */
  lemma NestedAddressBreaks(cap: string, u: string, v: string, w: string, x1: string, x2: string)
    requires Plain(cap) && Plain(u) && Plain(v) && Plain(w) && Plain(x1) && Plain(x2) && w != "" && w[0] != 'h'
    ensures var s := "" + "[" + cap + "](" + ("http://" + u + "[" + v + "](" + w) + ")" + (x1 + ")" + x2);
            Links(s) == AnchorOpen() + ("http://" + u + v + x2) && !Intact(Links(s))
  {
    hide Links, Intact, AnchorOpen, AnchorMid, AnchorClose, Link, SafeScheme;
    NestedOuter(cap, u, v, w, x1 + ")" + x2);
    NestedText(cap, u, v, w, x1, x2);
    NestedPlain(cap, u, w, x1);
    hide NestedHead, NestedRest;
    Dropped(NestedHead(u), v, NestedRest(cap, w, x1), x2);
    NestedResult(u, v, x2);
    assert NoQuote("http://" + u + v + x2);
    Unclosed("http://" + u + v + x2);
  }

  lemma NestedOuter(cap: string, u: string, v: string, w: string, q: string)
    requires Plain(cap) && Plain(u) && Plain(v) && Plain(w)
    ensures var url := "http://" + u + "[" + v + "](" + w;
            Links("" + "[" + cap + "](" + url + ")" + q) == Links("" + Link(url, cap) + q)
  {
    hide Links, Link;
    var url := "http://" + u + "[" + v + "](" + w;
    assert NoParens(url);
    assert SafeScheme(url);
    hide SafeScheme;
    TurnParts("", cap, url, q);
  }

  function NestedHead(u: string): string {
    AnchorOpen() + ("http://" + u)
  }

  function NestedRest(cap: string, w: string, x1: string): string {
    w + (AnchorMid() + cap + AnchorClose() + x1)
  }

  /** The last link form of a text, dropped. */
  lemma Dropped(p: string, v: string, url: string, q: string)
    requires NoBrackets(p) && Plain(v) && NoParens(url) && Plain(q) && url != "" && url[0] != 'h'
    ensures Links(p + "[" + v + "](" + url + ")" + q) == p + v + q
  {
    assert !SafeScheme(url);
    assert NoBrackets(p + v + q);
    hide Links, SafeScheme, NoBrackets;
    TurnParts(p, v, url, q);
    NoLink(p + v + q);
  }

  lemma NestedPlain(cap: string, u: string, w: string, x1: string)
    requires Plain(cap) && Plain(u) && Plain(w) && Plain(x1) && w != ""
    ensures NoBrackets(NestedHead(u)) && NoParens(NestedRest(cap, w, x1))
    ensures NestedRest(cap, w, x1) != "" && NestedRest(cap, w, x1)[0] == w[0]
  {
    Shapes();
  }

  lemma NestedResult(u: string, v: string, x2: string)
    ensures NestedHead(u) + v + x2 == AnchorOpen() + ("http://" + u + v + x2)
  {
    hide AnchorOpen;
  }

  lemma NestedText(cap: string, u: string, v: string, w: string, x1: string, x2: string)
    ensures "" + Link("http://" + u + "[" + v + "](" + w, cap) + (x1 + ")" + x2)
         == NestedHead(u) + "[" + v + "](" + NestedRest(cap, w, x1) + ")" + x2
  {
    hide AnchorOpen, AnchorMid, AnchorClose;
    Regrouped(AnchorOpen(), "http://" + u, "[" + v + "](", w, AnchorMid(), cap, AnchorClose(), x1, x2);
  }

  lemma Regrouped(o: string, h: string, f: string, w: string, m: string, cap: string, l: string, x1: string, x2: string)
    ensures "" + (o + (h + f + w) + m + cap + l) + (x1 + ")" + x2) == o + h + f + (w + (m + cap + l + x1)) + ")" + x2
  {
    var tail := m + cap + l + x1;
    assert o + (h + f + w) + m + cap + l + (x1 + ")" + x2) == o + (h + f + w) + (tail + ")" + x2);
    assert o + (h + f + w) + (tail + ")" + x2) == o + h + f + (w + tail + ")" + x2);
  }

  /** The shortest such page line. */
  lemma BrokenLine()
    ensures Links("[](http://[](u))") == "<a href=\"http://" && !Intact(Links("[](http://[](u))"))
  {
    hide Links, Intact;
    NestedAddressBreaks("", "", "", "u", "", "");
    assert "" + "[" + "" + "](" + ("http://" + "" + "[" + "" + "](" + "u") + ")" + ("" + ")" + "") == "[](http://[](u))";
    assert AnchorOpen() + ("http://" + "" + "" + "") == "<a href=\"http://";
  }

  /** Plain paragraph text: one line, nothing to escape or trim, and not a heading or bullet. */
  ghost predicate OneLine(t: string) {
    && t != "" && !IsSpace(t[0]) && !IsSpace(t[|t| - 1]) && t[0] != '#' && t[0] != '-'
    && forall i | 0 <= i < |t| :: t[i] !in "\n&<>\"'"
  }

  lemma {:induction false} NothingEscaped(t: string)
    requires forall i | 0 <= i < |t| :: t[i] !in "\n&<>\"'"
    ensures Escape(t) == t && Find(t, "\n") == None
  {
    if t != "" {
      assert t[0] !in "\n&<>\"'";
      NothingEscaped(t[1..]);
      assert t == [t[0]] + t[1..];
    }
  }

  lemma OneLineText(t: string)
    requires OneLine(t)
    ensures Lines(t) == [t] && KindText(Classify(Escape(TrimEnd(t)))) == t
  {
    NothingEscaped(t);
    hide Escape, Find;
    assert TrimEnd(t) == t;
    assert !Blank(t);
  }

  /** A page of one such line breaks exactly when the line does. */
  lemma OneLinePage(t: string)
    requires OneLine(t)
    ensures Intact(Render(t)) <==> Intact(Links(t))
  {
    OneLineText(t);
    PageAnchors(t);
    assert NoQuote(t) && Clean(t);
    hide Intact, Render, Unbroken, Links, Lines, Classify, Escape, TrimEnd;
    AnchorsExact(t);
    assert Lines(t)[0] == t;
  }

  /** A page on which an anchor breaks. */
  lemma BrokenPage()
    ensures !Intact(Render("[](http://[](u))"))
  {
    BrokenLine();
    hide Intact, Render, Links;
    OneLinePage("[](http://[](u))");
  }

  /** An anchor with no quote behind its address. */
  lemma Unclosed(url: string)
    requires NoQuote(url)
    ensures !Intact(AnchorOpen() + url)
  {
    var s := AnchorOpen() + url;
    assert s[0..] == s && OpensAt(s, 0) && s[|AnchorOpen()|..] == url;
    assert Quote(url) == |url|;
    Shapes();
  }

  /** An anchor whose address runs into another anchor. */
  lemma RunsInto(url: string, rest: string)
    requires NoQuote(url) && rest != "" && rest[0] == 'h'
    ensures !Intact(AnchorOpen() + url + (AnchorOpen() + rest))
  {
    Shapes();
    var o := AnchorOpen();
    hide AnchorOpen;
    var s, t := o + url + (o + rest), url + (o + rest);
    assert s == o + t && s[0..] == s && s[9..] == t;
    assert (o + t)[..9] == o;
    assert OpensAt(s, 0);
    var q := |url| + 8;
    assert t[q] == o[8] && forall j | 0 <= j < q :: t[j] == if j < |url| then url[j] else o[j - |url|];
    assert Quote(t) == q;
    assert t[q..][1] == t[q + 1] == rest[0];
    Needs(t[q..]);
  }

  /**
   `[[a]](f)(http://x[b](http://y))`: dropping the inner form joins its caption to the next
   parenthesis, which then opens an address that the text never wrote behind a `]`.
   */
  lemma JoinedCaptionBreaks(a: string, f: string, x: string, b: string, y: string)
    requires Plain(a) && Plain(f) && Plain(x) && Plain(b) && Plain(y) && f != "" && f[0] != 'h'
    ensures var s := "" + "[" + ("[" + a + "]") + "](" + f + ")" + ("(" + ("http://" + x + "[" + b + "](" + ("http://" + y)) + "))");
            !Intact(Links(s))
  {
    hide Links, Intact, AnchorOpen, AnchorMid, AnchorClose, Link, NoQuote;
    var url := "http://" + x + "[" + b + "](" + ("http://" + y);
    JoinedFirst(a, f, url);
    JoinedSecond(a, x, b, y);
    JoinedThird(a, x, b, y);
    assert NoQuote("http://" + x) by { PlainQuote(x); }
    RunsInto("http://" + x, JoinedRest(a, b, y));
  }

  lemma PlainQuote(x: string)
    requires Plain(x)
    ensures NoQuote("http://" + x)
  {
  }

  lemma JoinedFirst(a: string, f: string, url: string)
    requires Plain(a) && Plain(f) && f != "" && f[0] != 'h'
    ensures Links("" + "[" + ("[" + a + "]") + "](" + f + ")" + ("(" + url + "))")) == Links("" + "[" + a + "](" + url + ")" + ")")
  {
    hide Links;
    assert !SafeScheme(f);
    var q := "(" + url + "))";
    TurnParts("", "[" + a + "]", f, q);
    assert "" + ("[" + a + "]") + q == "" + "[" + a + "](" + url + ")" + ")";
  }

  lemma JoinedSecond(a: string, x: string, b: string, y: string)
    requires Plain(a) && Plain(x) && Plain(b) && Plain(y)
    ensures var url := "http://" + x + "[" + b + "](" + ("http://" + y);
            Links("" + "[" + a + "](" + url + ")" + ")")
            == Links(NestedHead(x) + "[" + b + "](" + NestedRest(a, "http://" + y, "") + ")" + "")
  {
    hide Links;
    var url := "http://" + x + "[" + b + "](" + ("http://" + y);
    assert NoParens(url) && SafeScheme(url);
    TurnParts("", a, url, ")");
    NestedText(a, x, b, "http://" + y, "", "");
    assert "" + ")" + "" == ")";
  }

  function JoinedRest(a: string, b: string, y: string): (r: string)
    ensures r != "" && r[0] == 'h'
  {
    "http://" + (y + (AnchorMid() + a + AnchorClose() + "") + AnchorMid() + b + AnchorClose())
  }

  lemma JoinedThird(a: string, x: string, b: string, y: string)
    requires Plain(a) && Plain(x) && Plain(b) && Plain(y)
    ensures Links(NestedHead(x) + "[" + b + "](" + NestedRest(a, "http://" + y, "") + ")" + "")
         == AnchorOpen() + ("http://" + x) + (AnchorOpen() + JoinedRest(a, b, y))
  {
    hide Links;
    var url := NestedRest(a, "http://" + y, "");
    NestedPlain(a, x, "http://" + y, "");
    assert SafeScheme(url) by { assert url == "http://" + (y + (AnchorMid() + a + AnchorClose() + "")); }
    TurnParts(NestedHead(x), b, url, "");
    hide SafeScheme;
    JoinedText(a, x, b, y);
    JoinedPlain(a, x, b, y);
    NoLink(NestedHead(x) + (AnchorOpen() + JoinedRest(a, b, y)));
  }

  lemma JoinedText(a: string, x: string, b: string, y: string)
    ensures NestedHead(x) + Link(NestedRest(a, "http://" + y, ""), b) + "" == NestedHead(x) + (AnchorOpen() + JoinedRest(a, b, y))
  {
    hide AnchorOpen, AnchorMid, AnchorClose, NestedHead;
  }

  lemma JoinedPlain(a: string, x: string, b: string, y: string)
    requires Plain(a) && Plain(x) && Plain(b) && Plain(y)
    ensures NoBrackets(NestedHead(x) + (AnchorOpen() + JoinedRest(a, b, y)))
  {
    Shapes();
  }
}

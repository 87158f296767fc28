/** Which tags a page is made of: every element and span closes with its own, and what each markup gives. */
module MarkdownTags {
  import opened Util
  import opened Markdown
  import opened MarkdownIntegrity
  import opened MarkdownAnchors
  import opened MarkdownPages

  // ----- reading tags with a stack -----

  /** The element or span that a tag at the front of `s` opens or closes, anchors aside. */
  function TagName(s: string): Option<(string, bool)> {
    if "<strong>" <= s then Some(("strong", true))
    else if "</strong>" <= s then Some(("strong", false))
    else if "<code>" <= s then Some(("code", true))
    else if "</code>" <= s then Some(("code", false))
    else if "<h2>" <= s then Some(("h2", true))
    else if "</h2>" <= s then Some(("h2", false))
    else if "<h3>" <= s then Some(("h3", true))
    else if "</h3>" <= s then Some(("h3", false))
    else if "<h4>" <= s then Some(("h4", true))
    else if "</h4>" <= s then Some(("h4", false))
    else if "<p>" <= s then Some(("p", true))
    else if "</p>" <= s then Some(("p", false))
    else if "<ul>" <= s then Some(("ul", true))
    else if "</ul>" <= s then Some(("ul", false))
    else if "<li>" <= s then Some(("li", true))
    else if "</li>" <= s then Some(("li", false))
    else None
  }

  /** Reads a page from left to right: an opening tag is pushed, a closing one must be the top. */
  function Nest(s: string, open: seq<string>): Option<seq<string>>
    decreases |s|
  {
    if s == "" then Some(open)
    else
      match TagName(s)
      case None => Nest(s[1..], open)
      case Some((name, true)) => Nest(s[1..], [name] + open)
      case Some((name, false)) => if open != [] && open[0] == name then Nest(s[1..], open[1..]) else None
  }

  lemma Unnamed(s: string)
    requires s != "" && (s[0] == '<' ==> |s| >= 3 && (s[1] == 'a' || (s[1] == '/' && s[2] == 'a')))
    ensures TagName(s) == None
  {
  }

  function AnchorTags(): seq<string> {
    [AnchorStart(), AnchorClose()]
  }

  lemma AnchorTagsLink()
    ensures LinkTags(AnchorTags()) && MarkerFree(AnchorTags(), '*') && MarkerFree(AnchorTags(), '`')
  {
    Shapes();
    TagItself(AnchorTags(), 0);
    TagItself(AnchorTags(), 1);
    NoBracket(AnchorTags(), AnchorMid());
  }

  lemma AnchorFront(x: string)
    requires Tagged(AnchorTags(), x) && x != "" && x[0] == '<'
    ensures |x| >= 3 && (x[1] == 'a' || (x[1] == '/' && x[2] == 'a'))
  {
    assert x[0..] == x && StartsTag(AnchorTags(), x);
    Shapes();
    var k :| 0 <= k < |AnchorTags()| && AnchorTags()[k] <= x;
    assert AnchorStart()[1] == 'a' && AnchorClose()[1] == '/' && AnchorClose()[2] == 'a';
  }

  /** Text whose only tags are anchors leaves the stack as it is. */
  lemma {:induction false} NestSkip(x: string, y: string, open: seq<string>)
    requires Tagged(AnchorTags(), x)
    ensures Nest(x + y, open) == Nest(y, open)
    decreases |x|
  {
    hide Tagged, AnchorTags, TagName;
    if x == "" {
      assert x + y == y;
    } else {
      if x[0] == '<' {
        AnchorFront(x);
      }
      var s := x + y;
      assert s[0] == x[0] && (|x| >= 3 ==> s[1] == x[1] && s[2] == x[2]);
      Unnamed(s);
      assert s[1..] == x[1..] + y;
      Suffix(AnchorTags(), x, 1);
      NestSkip(x[1..], y, open);
    }
  }

  lemma PlainSkip(x: string, y: string, open: seq<string>)
    requires Clean(x)
    ensures Nest(x + y, open) == Nest(y, open)
  {
    NoBracket(AnchorTags(), x);
    hide Tagged, AnchorTags, TagName, Clean;
    NestSkip(x, y, open);
  }

  /** An opening tag of a known name is pushed. */
  lemma NestOpen(name: string, y: string, open: seq<string>)
    requires name in {"strong", "code", "h2", "h3", "h4", "p", "ul", "li"}
    ensures Nest("<" + name + ">" + y, open) == Nest(y, [name] + open)
  {
    var s := "<" + name + ">" + y;
    NamedOpen(name, y);
    assert s[1..] == (name + ">") + y;
    NameClean(name);
    hide TagName;
    PlainSkip(name + ">", y, [name] + open);
  }

  lemma NestClose(name: string, y: string, open: seq<string>)
    requires name in {"strong", "code", "h2", "h3", "h4", "p", "ul", "li"}
    ensures Nest("</" + name + ">" + y, [name] + open) == Nest(y, open)
  {
    var s := "</" + name + ">" + y;
    NamedClose(name, y);
    assert s[1..] == ("/" + name + ">") + y;
    assert ([name] + open)[1..] == open;
    NameClean(name);
    hide TagName;
    PlainSkip("/" + name + ">", y, open);
  }

  lemma NameClean(name: string)
    requires name in {"strong", "code", "h2", "h3", "h4", "p", "ul", "li"}
    ensures Clean(name + ">") && Clean("/" + name + ">")
  {
  }

  lemma FrontOf(t: string, y: string)
    ensures t <= t + y
  {
  }

  lemma NamedOpen(name: string, y: string)
    requires name in {"strong", "code", "h2", "h3", "h4", "p", "ul", "li"}
    ensures TagName("<" + name + ">" + y) == Some((name, true))
  {
    var t := "<" + name + ">";
    var s := t + y;
    FrontOf(t, y);
    assert s[0] == '<' && s[1] == name[0] && s[2] == t[2];
    if name == "strong" {
      assert t == "<strong>";
    } else if name == "code" {
      assert t == "<code>";
    } else if name == "h2" {
      assert t == "<h2>";
    } else if name == "h3" {
      assert t == "<h3>";
    } else if name == "h4" {
      assert t == "<h4>";
    } else if name == "p" {
      assert t == "<p>";
    } else if name == "ul" {
      assert t == "<ul>";
    } else {
      assert t == "<li>";
    }
  }

  lemma NamedClose(name: string, y: string)
    requires name in {"strong", "code", "h2", "h3", "h4", "p", "ul", "li"}
    ensures TagName("</" + name + ">" + y) == Some((name, false))
  {
    var t := "</" + name + ">";
    var s := t + y;
    FrontOf(t, y);
    assert s[0] == '<' && s[1] == '/' && s[2] == name[0] && s[3] == t[3];
    if name == "strong" {
      assert t == "</strong>";
    } else if name == "code" {
      assert t == "</code>";
    } else if name == "h2" {
      assert t == "</h2>";
    } else if name == "h3" {
      assert t == "</h3>";
    } else if name == "h4" {
      assert t == "</h4>";
    } else if name == "p" {
      assert t == "</p>";
    } else if name == "ul" {
      assert t == "</ul>";
    } else {
      assert t == "</li>";
    }
  }

  // ----- spans and lines -----

  /** A marker cut leaves text whose only tags are anchors. */
  lemma AnchorCut(s: string, i: nat, m: string)
    requires Tagged(AnchorTags(), s) && (m == "**" || m == "`") && i + |m| <= |s| && s[i..i + |m|] == m
    ensures Tagged(AnchorTags(), s[..i]) && Tagged(AnchorTags(), s[i + |m|..])
  {
    AnchorTagsLink();
    hide AnchorTags, Tagged, MarkerFree;
    assert s[i] == s[i..i + |m|][0] == m[0];
    Prefix(AnchorTags(), s, i);
    Suffix(AnchorTags(), s, i + |m|);
  }

  /** The name of the span a marker opens. */
  function SpanName(m: string): string {
    if m == "**" then "strong" else "code"
  }

  lemma SpanTags(m: string)
    requires m == "**" || m == "`"
    ensures OpenTag(m) == "<" + SpanName(m) + ">" && CloseTag(m) == "</" + SpanName(m) + ">" && SpanName(m) in {"strong", "code"}
    ensures Clean(m)
  {
  }

  /** The marker pass opens and closes every span within the text. */
  lemma {:induction false} SpansNest(s: string, y: string, open: seq<string>)
    requires Tagged(AnchorTags(), s)
    ensures Nest(Spans(s) + y, open) == Nest(y, open)
    decreases |s|
  {
    hide Tagged, AnchorTags, NextMarker, OpenTag, CloseTag, Find, Spans, Nest, Clean;
    var next := NextMarker(s);
    if next.None? {
      SpansDone(s);
      NestSkip(s, y, open);
    } else {
      var (i, m) := next.value;
      SpanTags(m);
      AnchorCut(s, i, m);
      var x, after := s[..i], s[i + |m|..];
      var close := Find(after, m);
      if close.None? {
        SpansOpen(s, i, m);
        assert x + m + Spans(after) + y == x + (m + (Spans(after) + y));
        NestSkip(x, m + (Spans(after) + y), open);
        PlainSkip(m, Spans(after) + y, open);
        SpansNest(after, y, open);
      } else {
        var k := close.value;
        SpansClosed(s, i, m, k);
        AnchorCut(after, k, m);
        SpanNests(x, m, after[..k], Spans(after[k + |m|..]), y, open);
        SpansNest(after[k + |m|..], y, open);
      }
    }
  }

  lemma SpanNests(x: string, m: string, t: string, r: string, y: string, open: seq<string>)
    requires Tagged(AnchorTags(), x) && Tagged(AnchorTags(), t) && (m == "**" || m == "`")
    ensures Nest(x + OpenTag(m) + t + CloseTag(m) + r + y, open) == Nest(r + y, open)
  {
    SpanTags(m);
    var n := SpanName(m);
    hide Tagged, AnchorTags, OpenTag, CloseTag, Nest, SpanName, Clean;
    var o, l, rest := "<" + n + ">", "</" + n + ">", r + y;
    SpanPieces(x, o, t, l, r, y);
    NestSkip(x, o + (t + (l + rest)), open);
    NestOpen(n, t + (l + rest), open);
    NestSkip(t, l + rest, [n] + open);
    NestClose(n, rest, open);
  }

  lemma SpanPieces(x: string, o: string, t: string, l: string, r: string, y: string)
    ensures x + o + t + l + r + y == x + (o + (t + (l + (r + y))))
  {
  }

  lemma InlineNests(t: string, y: string, open: seq<string>)
    requires Clean(t)
    ensures Nest(InlineText(t) + y, open) == Nest(y, open)
  {
    NoBracket(AnchorTags(), t);
    AnchorTagsLink();
    hide Tagged, AnchorTags, LinkTags, Nest, Clean;
    LinksKeep(AnchorTags(), t);
    SpansNest(Links(t), y, open);
  }

  lemma WrapNests(n: string, t: string, y: string, open: seq<string>)
    requires Clean(t) && n in {"h2", "h3", "h4", "p", "li"}
    ensures Nest("<" + n + ">" + InlineText(t) + ("</" + n + ">") + y, open) == Nest(y, open)
  {
    hide Nest, InlineText, Clean;
    var o, l, u := "<" + n + ">", "</" + n + ">", InlineText(t);
    assert o + u + l + y == o + (u + (l + y));
    NestOpen(n, u + (l + y), open);
    InlineNests(t, l + y, [n] + open);
    NestClose(n, y, open);
  }

  function HeadName(n: nat): string {
    if n == 4 then "h4" else if n == 3 then "h3" else "h2"
  }

  lemma HeadNames(n: nat)
    ensures HeadTag(n) == "<" + HeadName(n) + ">" && HeadEnd(n) == "</" + HeadName(n) + ">" && HeadName(n) in {"h2", "h3", "h4"}
  {
  }

  lemma ElementNests(k: Kind, y: string, open: seq<string>)
    requires Clean(KindText(k))
    ensures Nest(Element(k) + y, open) == Nest(y, open)
  {
    hide Nest, InlineText, Clean;
    match k
    case Heading(n, t) =>
      HeadNames(n);
      WrapNests(HeadName(n), t, y, open);
    case Bullet(t) =>
      assert "<" + "li" + ">" == "<li>" && "</" + "li" + ">" == "</li>";
      WrapNests("li", t, y, open);
    case Empty => assert "" + y == y;
    case Paragraph(t) =>
      assert "<" + "p" + ">" == "<p>" && "</" + "p" + ">" == "</p>";
      WrapNests("p", t, y, open);
  }

  function ListOpen(inList: bool): seq<string> {
    if inList then ["ul"] else []
  }

  lemma LeadNests(k: Kind, inList: bool, y: string)
    ensures Nest(Lead(k, inList) + y, ListOpen(inList)) == Nest(y, ListOpen(k.Bullet?))
  {
    hide Nest;
    assert ["ul"] + [] == ["ul"] && "" + y == y;
    assert "<" + "ul" + ">" == "<ul>" && "</" + "ul" + ">" == "</ul>";
    NestOpen("ul", y, []);
    NestClose("ul", y, []);
  }

  lemma NestNothing(open: seq<string>)
    ensures Nest("", open) == Some(open)
  {
  }

  lemma ListEnds(inList: bool)
    ensures Nest(if inList then "</ul>" else "", ListOpen(inList)) == Some([])
  {
    hide Nest;
    assert "</" + "ul" + ">" + "" == "</ul>" && ["ul"] + [] == ["ul"];
    NestClose("ul", "", []);
    NestNothing([]);
  }

  lemma {:induction false} LinesNest(ls: seq<string>, inList: bool)
    ensures Nest(RenderLines(ls, inList), ListOpen(inList)) == Some([])
    decreases |ls|
  {
    hide Classify, Lead, Element, Escape, TrimEnd, Clean, Nest, ListOpen;
    if ls == [] {
      ListEnds(inList);
    } else {
      var k := Classify(Escape(TrimEnd(ls[0])));
      ClassifiedClean(TrimEnd(ls[0]));
      var r := RenderLines(ls[1..], k.Bullet?);
      assert Lead(k, inList) + Element(k) + r == Lead(k, inList) + (Element(k) + r);
      LeadNests(k, inList, Element(k) + r);
      ElementNests(k, r, ListOpen(k.Bullet?));
      LinesNest(ls[1..], k.Bullet?);
    }
  }

  /** On every page, strong, code, headings, paragraphs, lists and items each close with their own
      tag, properly nested, and none stays open. */
  lemma PageNests(body: string)
    ensures Nest(Render(body), []) == Some([])
  {
    LinesNest(Lines(body), false);
  }

  // ----- what each markup gives -----

  ghost predicate NoMarkers(s: string) {
    forall i | 0 <= i < |s| :: s[i] != '*' && s[i] != '`'
  }

  lemma Mismatch(s: string, pat: string)
    requires s != "" && pat != "" && s[0] != pat[0]
    ensures !(pat <= s)
  {
  }

  lemma {:induction false} FindAbsent(s: string, pat: string)
    requires pat != "" && forall i | 0 <= i < |s| :: s[i] != pat[0]
    ensures Find(s, pat) == None
    decreases |s|
  {
    if s != "" {
      assert !(pat <= s) by { Mismatch(s, pat); }
      FindAbsent(s[1..], pat);
    } else {
      assert !(pat <= s);
    }
  }

  lemma FindBehind(p: string, pat: string, r: string)
    requires pat != "" && forall i | 0 <= i < |p| :: p[i] != pat[0]
    ensures Find(p + pat + r, pat) == Some(|p|)
  {
    var s := p + pat + r;
    assert s[|p|..|p| + |pat|] == pat;
    forall j | 0 <= j < |p| ensures !(pat <= s[j..]) {
      assert s[j..][0] == p[j];
    }
    FindAt(s, pat, |p|);
  }

  /** `pre**x**post`: bold, whatever follows. */
  lemma BoldSpan(pre: string, x: string, post: string)
    requires NoMarkers(pre) && forall i | 0 <= i < |x| :: x[i] != '*'
    ensures Spans(pre + "**" + (x + "**" + post)) == pre + "<strong>" + x + "</strong>" + Spans(post)
  {
    var s, after := pre + "**" + (x + "**" + post), x + "**" + post;
    FindBehind(pre, "**", after);
    FirstMarker(pre, "**", after);
    FindBehind(x, "**", post);
    hide Find, NextMarker, Spans;
    assert s[|pre| + 2..] == after && s[..|pre|] == pre && after[..|x|] == x && after[|x| + 2..] == post;
    SpansClosed(s, |pre|, "**", |x|);
  }

  /** `` pre`x`post ``: code, whatever follows. */
  lemma CodeSpan(pre: string, x: string, post: string)
    requires NoMarkers(pre) && forall i | 0 <= i < |x| :: x[i] != '`'
    ensures Spans(pre + "`" + (x + "`" + post)) == pre + "<code>" + x + "</code>" + Spans(post)
  {
    var s, after := pre + "`" + (x + "`" + post), x + "`" + post;
    FirstMarker(pre, "`", after);
    FindBehind(x, "`", post);
    hide Find, NextMarker, Spans;
    assert s[|pre| + 1..] == after && s[..|pre|] == pre && after[..|x|] == x && after[|x| + 1..] == post;
    SpansClosed(s, |pre|, "`", |x|);
  }

  /** The first marker is found in front of anything that follows it. */
  lemma FirstMarker(pre: string, m: string, r: string)
    requires NoMarkers(pre) && (m == "**" || m == "`")
    ensures NextMarker(pre + m + r) == Some((|pre|, m))
  {
    var s := pre + m + r;
    FindBehind(pre, m, r);
    var other := if m == "**" then "`" else "**";
    if Find(s, other).Some? {
      var k := Find(s, other).value;
      assert s[k] == s[k..k + |other|][0];
      assert forall j | 0 <= j < |pre| :: s[j] == pre[j];
      assert s[|pre|] == m[0];
    }
    hide Find;
  }

  /** Without a second marker the first one stays. */
  lemma LoneMarker(pre: string, m: string, post: string)
    requires NoMarkers(pre) && NoMarkers(post) && (m == "**" || m == "`")
    ensures Spans(pre + m + post) == pre + m + post
  {
    var s := pre + m + post;
    FirstMarker(pre, m, post);
    FindAbsent(post, "**");
    FindAbsent(post, "`");
    assert s[|pre| + |m|..] == post && s[..|pre|] == pre;
    SpansOpen(s, |pre|, m);
    assert NextMarker(post) == None;
    SpansDone(post);
  }

  /** A link with an http or https address becomes an anchor; with any other it leaves its caption. */
  lemma LinkMarkup(p: string, cap: string, url: string, q: string)
    requires NoBrackets(p) && NoOpenings(cap) && NoParens(url)
    ensures var s := p + "[" + cap + "](" + url + ")" + q;
            && ("http://" <= url || "https://" <= url ==>
                  Links(s) == Links(p + ("<a href=\"" + url + "\" rel=\"noopener noreferrer\">" + cap + "</a>") + q))
            && (!("http://" <= url) && !("https://" <= url) ==> Links(s) == Links(p + cap + q))
  {
    hide Links;
    TurnParts(p, cap, url, q);
    assert SafeScheme(url) <==> "http://" <= url || "https://" <= url;
  }

  // ----- lines -----

  lemma {:induction false} EscapeConcat(a: string, b: string)
    ensures Escape(a + b) == Escape(a) + Escape(b)
  {
    hide EscapeChar;
    if a == "" {
      assert a + b == b;
    } else {
      assert (a + b)[1..] == a[1..] + b;
      EscapeConcat(a[1..], b);
    }
  }

  /** One line without a newline, with nothing to trim. */
  ghost predicate Line(t: string) {
    t != "" && !White(t[|t| - 1]) && forall i | 0 <= i < |t| :: t[i] != '\n'
  }

  /** The characters with the Unicode property White_Space. */
  predicate White(c: char) {
    c in "\t\n\U{000B}\U{000C}\r \U{0085}\U{00A0}\U{1680}\U{2000}\U{2001}\U{2002}\U{2003}\U{2004}\U{2005}\U{2006}\U{2007}\U{2008}\U{2009}\U{200A}\U{2028}\U{2029}\U{202F}\U{205F}\U{3000}"
  }

  lemma SpaceIsWhite(c: char)
    ensures IsSpace(c) <==> White(c)
  {
  }

  lemma OneLineRenders(t: string)
    requires Line(t)
    ensures Render(t) == Lead(Classify(Escape(t)), false) + Element(Classify(Escape(t))) + (if Classify(Escape(t)).Bullet? then "</ul>" else "")
  {
    hide Classify, Escape, Lead, Element, Lines, TrimEnd;
    LineAlone(t);
    var k := Classify(Escape(TrimEnd(t)));
    assert [t][0] == t && [t][1..] == [];
    assert RenderLines([t], false) == Lead(k, false) + Element(k) + RenderLines([], k.Bullet?);
    assert RenderLines([], k.Bullet?) == if k.Bullet? then "</ul>" else "";
  }

  lemma LineAlone(t: string)
    requires Line(t)
    ensures TrimEnd(t) == t && Lines(t) == [t]
  {
    FindAbsent(t, "\n");
    SpaceIsWhite(t[|t| - 1]);
    hide Find, IsSpace, White;
  }

  lemma PrefixEscapes(p: string, t: string)
    requires p in {"# ", "## ", "### ", "- "}
    ensures Escape(p + t) == p + Escape(t)
  {
    EscapeConcat(p, t);
    NothingEscaped(p);
  }

  /** Which prefix gives which element: one mark a second-level heading, two a third, three a
      fourth, a dash an item of a list of its own. */
  lemma LinePrefixes(t: string)
    requires Line(t)
    ensures Render("# " + t) == "<h2>" + InlineText(Escape(t)) + "</h2>"
    ensures Render("## " + t) == "<h3>" + InlineText(Escape(t)) + "</h3>"
    ensures Render("### " + t) == "<h4>" + InlineText(Escape(t)) + "</h4>"
    ensures Render("- " + t) == "<ul><li>" + InlineText(Escape(t)) + "</li></ul>"
  {
    hide Render, InlineText, Escape;
    PrefixRenders("# ", t);
    PrefixRenders("## ", t);
    PrefixRenders("### ", t);
    PrefixRenders("- ", t);
    var u := InlineText(Escape(t));
    Alone("<h2>" + u + "</h2>");
    Alone("<h3>" + u + "</h3>");
    Alone("<h4>" + u + "</h4>");
    ItemAlone(u);
  }

  lemma Alone(x: string)
    ensures "" + x + "" == x
  {
  }

  lemma ItemAlone(u: string)
    ensures "<ul>" + ("<li>" + u + "</li>") + "</ul>" == "<ul><li>" + u + "</li></ul>"
  {
    assert "<ul>" + "<li>" == "<ul><li>" && "</li>" + "</ul>" == "</li></ul>";
  }

  lemma PrefixRenders(p: string, t: string)
    requires Line(t) && p in {"# ", "## ", "### ", "- "}
    ensures var k := KindOf(p, Escape(t));
            Render(p + t) == Lead(k, false) + Element(k) + (if k.Bullet? then "</ul>" else "")
  {
    var s := p + t;
    assert s[|s| - 1] == t[|t| - 1];
    assert forall i | 0 <= i < |s| :: s[i] == if i < |p| then p[i] else t[i - |p|];
    OneLineRenders(s);
    PrefixEscapes(p, t);
    KindFound(p, Escape(t));
    hide Render, Escape, Classify, Element, Lead;
  }

  function KindOf(p: string, t: string): Kind {
    if p == "# " then Heading(2, t) else if p == "## " then Heading(3, t) else if p == "### " then Heading(4, t) else Bullet(t)
  }

  lemma KindFound(p: string, t: string)
    requires p in {"# ", "## ", "### ", "- "}
    ensures Classify(p + t) == KindOf(p, t)
  {
    var s := p + t;
    FrontOf(p, t);
    assert s[|p|..] == t && s[0] == p[0] && s[1] == p[1] && (|p| > 2 ==> s[2] == p[2]) && (|p| > 3 ==> s[3] == p[3]);
  }

  /** A page is split at every newline. */
  lemma LinesSplit(a: string, b: string)
    requires forall i | 0 <= i < |a| :: a[i] != '\n'
    ensures Lines(a + "\n" + b) == [a] + Lines(b)
  {
    FindBehind(a, "\n", b);
    var s := a + "\n" + b;
    assert s[..|a|] == a && s[|a| + 1..] == b;
    hide Find;
  }

  // ----- pages line by line -----

  ghost predicate Padding(ws: string) {
    forall i | 0 <= i < |ws| :: White(ws[i]) && ws[i] != '\n'
  }

  ghost predicate Trimmed(t: string) {
    t == "" || Line(t)
  }

  lemma {:induction false} TrimMeans(t: string, ws: string)
    requires Trimmed(t) && Padding(ws)
    ensures TrimEnd(t + ws) == t
  {
    hide IsSpace, White;
    if ws == "" {
      assert t + ws == t;
      if t != "" {
        LineAlone(t);
      }
    } else {
      var n := |ws| - 1;
      SpaceIsWhite(ws[n]);
      assert (t + ws)[..|t + ws| - 1] == t + ws[..n];
      TrimMeans(t, ws[..n]);
    }
  }

  lemma TakesLine(t: string, ws: string, b: string, inList: bool)
    requires Trimmed(t) && Padding(ws)
    ensures var k := Classify(Escape(t));
            RenderLines(Lines(t + ws + "\n" + b), inList) == Lead(k, inList) + Element(k) + RenderLines(Lines(b), k.Bullet?)
  {
    hide Classify, Escape, Lead, Element, Lines, TrimEnd, White;
    var l := t + ws;
    assert forall i | 0 <= i < |l| :: l[i] == if i < |t| then t[i] else ws[i - |t|];
    LinesSplit(l, b);
    TrimMeans(t, ws);
    var ls := [l] + Lines(b);
    assert ls[0] == l && ls[1..] == Lines(b);
  }

  /** The rest of a page while a list is open. */
  function InList(b: string): string {
    RenderLines(Lines(b), true)
  }

  predicate Marked(t: string) {
    "# " <= t || "## " <= t || "### " <= t || "- " <= t
  }

  lemma {:induction false} PrefixKept(p: string, t: string)
    requires forall i | 0 <= i < |p| :: p[i] in "#- "
    ensures p <= Escape(t) <==> p <= t
  {
    if p != "" && t != "" {
      PrefixKept(p[1..], t[1..]);
      if t[0] == p[0] {
        assert Escape(t) == [t[0]] + Escape(t[1..]);
        assert Escape(t)[1..] == Escape(t[1..]);
        assert p <= t <==> p[1..] <= t[1..];
        assert p <= Escape(t) <==> p[1..] <= Escape(t[1..]);
      } else {
        assert Escape(t)[0] == EscapeChar(t[0])[0] != p[0];
      }
    }
  }

  lemma NotBlank(t: string)
    requires Line(t)
    ensures !Blank(Escape(t))
  {
    var n := |t| - 1;
    var c := t[n];
    EscapeConcat(t[..n], [c]);
    assert t == t[..n] + [c];
    assert Escape([c]) == EscapeChar(c) by {
      assert [c][1..] == "" && EscapeChar(c) + "" == EscapeChar(c);
    }
    var e := Escape(t);
    assert e[|e| - 1] == EscapeChar(c)[|EscapeChar(c)| - 1];
    SpaceIsWhite(c);
  }

  lemma PlainKind(t: string)
    requires Line(t) && !Marked(t)
    ensures Classify(Escape(t)) == Paragraph(Escape(t))
  {
    hide Escape, Blank, White;
    PrefixKept("# ", t);
    PrefixKept("## ", t);
    PrefixKept("### ", t);
    PrefixKept("- ", t);
    NotBlank(t);
  }

  lemma MarkedKind(p: string, t: string)
    requires Line(t) && p in {"# ", "## ", "### ", "- "}
    ensures Classify(Escape(p + t)) == KindOf(p, Escape(t)) && Line(p + t)
  {
    hide Escape, Classify, White;
    PrefixEscapes(p, t);
    KindFound(p, Escape(t));
    var s := p + t;
    assert s[|s| - 1] == t[|t| - 1];
    assert forall i | 0 <= i < |s| :: s[i] == if i < |p| then p[i] else t[i - |p|];
  }

  lemma NoLead(x: string, r: string)
    ensures "" + x + r == x + r
  {
  }

  /**
   A page whose first line is none of a list's, whatever white space ends the line: the
   line's element, and then the rest of the page.
   */
  lemma PageLines(t: string, ws: string, b: string)
    requires Line(t) && Padding(ws)
    ensures Render("") == "" && Render(ws + "\n" + b) == Render(b)
    ensures Render("# " + t + ws + "\n" + b) == "<h2>" + InlineText(Escape(t)) + "</h2>" + Render(b)
    ensures Render("## " + t + ws + "\n" + b) == "<h3>" + InlineText(Escape(t)) + "</h3>" + Render(b)
    ensures Render("### " + t + ws + "\n" + b) == "<h4>" + InlineText(Escape(t)) + "</h4>" + Render(b)
    ensures !Marked(t) ==> Render(t + ws + "\n" + b) == "<p>" + InlineText(Escape(t)) + "</p>" + Render(b)
  {
    hide Escape, Classify, White, InlineText, RenderLines, Lines, Marked;
    BlankLine(ws, b, false);
    HeadingLine("# ", t, ws, b, false);
    HeadingLine("## ", t, ws, b, false);
    HeadingLine("### ", t, ws, b, false);
    EmptyPage();
    if !Marked(t) {
      PlainKind(t);
      TakesLine(t, ws, b, false);
      NoLead("<p>" + InlineText(Escape(t)) + "</p>", Render(b));
    }
  }

  lemma EmptyPage()
    ensures Render("") == "" && InList("") == "</ul>"
  {
  }

  lemma BlankLine(ws: string, b: string, inList: bool)
    requires Padding(ws)
    ensures RenderLines(Lines(ws + "\n" + b), inList) == (if inList then "</ul>" else "") + Render(b)
  {
    hide White, RenderLines, Lines;
    TakesLine("", ws, b, inList);
    assert "" + ws + "\n" + b == ws + "\n" + b;
    assert Classify(Escape("")) == Empty;
    var lead := if inList then "</ul>" else "";
    assert lead + "" + Render(b) == lead + Render(b);
  }

  lemma HeadingLine(p: string, t: string, ws: string, b: string, inList: bool)
    requires Line(t) && Padding(ws) && p in {"# ", "## ", "### "}
    ensures var n := |p|;
            var body := if n == 2 then "<h2>" + InlineText(Escape(t)) + "</h2>"
                        else if n == 3 then "<h3>" + InlineText(Escape(t)) + "</h3>"
                        else "<h4>" + InlineText(Escape(t)) + "</h4>";
            RenderLines(Lines(p + t + ws + "\n" + b), inList) == (if inList then "</ul>" else "") + (body + Render(b))
  {
    hide White, RenderLines, Lines, InlineText, Escape, Classify;
    MarkedKind(p, t);
    TakesLine(p + t, ws, b, inList);
    var k := KindOf(p, Escape(t));
    assert Lead(k, inList) + Element(k) + Render(b) == Lead(k, inList) + (Element(k) + Render(b));
  }

  /**
   A list: the first item opens it, every further item is added inside, and the first line
   that is no item, or the end of the page, closes it.
   */
  lemma ListLines(t: string, ws: string, b: string)
    requires Line(t) && Padding(ws)
    ensures Render("- " + t + ws + "\n" + b) == "<ul><li>" + InlineText(Escape(t)) + "</li>" + InList(b)
    ensures InList("- " + t + ws + "\n" + b) == "<li>" + InlineText(Escape(t)) + "</li>" + InList(b)
    ensures InList("") == "</ul>" && InList(ws + "\n" + b) == "</ul>" + Render(b)
    ensures !("- " <= t) ==> InList(t + ws + "\n" + b) == "</ul>" + Render(t + ws + "\n" + b)
  {
    hide White, RenderLines, Lines, InlineText, Escape, Classify;
    MarkedKind("- ", t);
    TakesLine("- " + t, ws, b, false);
    TakesLine("- " + t, ws, b, true);
    var item := "<li>" + InlineText(Escape(t)) + "</li>";
    NoLead(item, InList(b));
    ItemFirst(InlineText(Escape(t)));
    EmptyPage();
    BlankLine(ws, b, true);
    if !("- " <= t) {
      NoBullet(t);
      TakesLine(t, ws, b, true);
      TakesLine(t, ws, b, false);
      var e := Element(Classify(Escape(t)));
      NoLead(e, Render(b));
      assert "</ul>" + e + Render(b) == "</ul>" + (e + Render(b));
    }
  }

  lemma ItemFirst(u: string)
    ensures "<ul>" + ("<li>" + u + "</li>") == "<ul><li>" + u + "</li>"
  {
    assert "<ul>" + "<li>" == "<ul><li>";
  }

  lemma NoBullet(t: string)
    requires !("- " <= t)
    ensures !Classify(Escape(t)).Bullet?
  {
    PrefixKept("- ", t);
  }

  // ----- escaping -----

  /** Reads the five entities back. */
  function Unescape(s: string): string
    decreases |s|
  {
    if s == "" then ""
    else if "&amp;" <= s then "&" + Unescape(s[5..])
    else if "&lt;" <= s then "<" + Unescape(s[4..])
    else if "&gt;" <= s then ">" + Unescape(s[4..])
    else if "&quot;" <= s then "\"" + Unescape(s[6..])
    else if "&#x27;" <= s then "'" + Unescape(s[6..])
    else [s[0]] + Unescape(s[1..])
  }

  lemma UnescapeChar(c: char, r: string)
    ensures Unescape(EscapeChar(c) + r) == [c] + Unescape(r)
  {
    if c in "&<>\"'" {
      EntityBack(c, r);
    } else {
      assert EscapeChar(c) == [c];
      var s := [c] + r;
      assert s[0] == c && s[1..] == r;
    }
  }

  lemma EntityBack(c: char, r: string)
    requires c in "&<>\"'"
    ensures Unescape(EscapeChar(c) + r) == [c] + Unescape(r)
  {
    var e := EscapeChar(c);
    var s := e + r;
    FrontOf(e, r);
    assert s[|e|..] == r && s[0] == e[0] && s[1] == e[1] && s[2] == e[2];
  }

  /** Escaping loses nothing: reading the entities back gives the text. */
  lemma {:induction false} EscapeBack(s: string)
    ensures Unescape(Escape(s)) == s
  {
    hide EscapeChar, Unescape;
    if s != "" {
      EscapeBack(s[1..]);
      UnescapeChar(s[0], Escape(s[1..]));
      assert s == [s[0]] + s[1..];
    } else {
      UnescapeNothing();
    }
  }

  lemma UnescapeNothing()
    ensures Unescape("") == ""
  {
  }
}

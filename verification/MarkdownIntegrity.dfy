/** Every `<` the renderer emits begins one of its own tags, and its lists are well nested. */
module MarkdownIntegrity {
  import opened Util
  import opened Markdown

  /** An anchor up to the first letter of its address, which is always an http one. */
  function AnchorStart(): string {
    AnchorOpen() + "h"
  }

  /** The tags that may stand anywhere, and those of lists. */
  function NeutralTags(): seq<string> {
    [AnchorStart(), AnchorClose(), "<strong>", "</strong>", "<code>", "</code>",
     "<h2>", "</h2>", "<h3>", "</h3>", "<h4>", "</h4>", "<p>", "</p>"]
  }

  function ListTags(): seq<string> {
    ["<ul>", "</ul>", "<li>", "</li>"]
  }

  function AllTags(): seq<string> {
    NeutralTags() + ListTags()
  }

  ghost predicate StartsTag(tags: seq<string>, s: string) {
    exists k :: 0 <= k < |tags| && tags[k] <= s
  }

  /** Every `<` in `s` begins a whole tag of `tags`. */
  ghost predicate Tagged(tags: seq<string>, s: string) {
    forall i | 0 <= i < |s| && s[i] == '<' :: StartsTag(tags, s[i..])
  }

  ghost predicate MarkerFree(tags: seq<string>, c: char) {
    forall k | 0 <= k < |tags| :: c !in tags[k]
  }

  lemma Suffix(tags: seq<string>, s: string, n: nat)
    requires Tagged(tags, s) && n <= |s|
    ensures Tagged(tags, s[n..])
  {
    forall i | 0 <= i < |s[n..]| && s[n..][i] == '<'
      ensures StartsTag(tags, s[n..][i..])
    {
      assert s[n..][i..] == s[n + i..];
    }
  }

  lemma TagReaches(t: string, s: string, i: nat, n: nat)
    requires i <= n < |s| && t <= s[i..]
    ensures |t| > n - i ==> s[n] in t
  {
    if |t| > n - i {
      assert t[n - i] == s[i..][n - i];
    }
  }

  /** A cut in front of a character no tag contains falls inside no tag. */
  lemma Prefix(tags: seq<string>, s: string, n: nat)
    requires Tagged(tags, s) && n < |s| && MarkerFree(tags, s[n])
    ensures Tagged(tags, s[..n])
  {
    forall i | 0 <= i < n && s[..n][i] == '<'
      ensures StartsTag(tags, s[..n][i..])
    {
      assert StartsTag(tags, s[i..]);
      var k :| 0 <= k < |tags| && tags[k] <= s[i..];
      TagReaches(tags[k], s, i, n);
      assert tags[k] <= s[..n][i..];
    }
  }

  lemma Join(tags: seq<string>, p: string, q: string)
    requires Tagged(tags, p) && Tagged(tags, q)
    ensures Tagged(tags, p + q)
  {
    var s := p + q;
    forall i | 0 <= i < |s| && s[i] == '<'
      ensures StartsTag(tags, s[i..])
    {
      if i < |p| {
        assert StartsTag(tags, p[i..]);
        var k :| 0 <= k < |tags| && tags[k] <= p[i..];
        assert s[i..] == p[i..] + q;
        assert tags[k] <= s[i..];
      } else {
        assert s[i..] == q[i - |p|..];
      }
    }
  }

  ghost predicate Clean(s: string) {
    forall i | 0 <= i < |s| :: s[i] != '<'
  }

  lemma NoBracket(tags: seq<string>, s: string)
    requires Clean(s)
    ensures Tagged(tags, s)
  {
  }

  /** A tag is itself tagged: its only `<` is its first character. */
  lemma TagItself(tags: seq<string>, k: nat)
    requires k < |tags| && forall i | 1 <= i < |tags[k]| :: tags[k][i] != '<'
    ensures Tagged(tags, tags[k])
  {
    if tags[k] != [] {
      assert tags[k][0..] == tags[k];
      assert tags[k] <= tags[k][0..];
    }
  }

  // ----- the concrete tags -----

  lemma TagShape(k: nat)
    requires k < |NeutralTags()|
    ensures |NeutralTags()| == 14
    ensures var t := NeutralTags()[k];
            && |t| >= 3 && t[0] == '<' && t[1] != 'u' && t[1] != 'l' && (t[1] == '/' ==> t[2] != 'u' && t[2] != 'l')
            && forall i | 1 <= i < |t| :: t[i] != '<'
  {
  }

  lemma TagChars(k: nat, c: char)
    requires k < |NeutralTags()| && c in "[]()*`"
    ensures c !in NeutralTags()[k]
  {
  }

  lemma Markers(c: char)
    requires c in "[]()*`"
    ensures MarkerFree(NeutralTags(), c)
  {
    hide NeutralTags;
    forall k | 0 <= k < |NeutralTags()|
      ensures c !in NeutralTags()[k]
    {
      TagChars(k, c);
    }
  }

  lemma NeutralLiteral(k: nat)
    requires k < |NeutralTags()|
    ensures Tagged(NeutralTags(), NeutralTags()[k])
  {
    TagShape(k);
    hide NeutralTags;
    TagItself(NeutralTags(), k);
  }

  lemma Literals()
    ensures Tagged(NeutralTags(), AnchorStart()) && Tagged(NeutralTags(), AnchorMid()) && Tagged(NeutralTags(), AnchorClose())
    ensures forall m :: m == "**" || m == "`" ==> Tagged(NeutralTags(), OpenTag(m)) && Tagged(NeutralTags(), CloseTag(m))
    ensures forall n: nat :: Tagged(NeutralTags(), HeadTag(n)) && Tagged(NeutralTags(), HeadEnd(n))
    ensures Tagged(NeutralTags(), "<p>") && Tagged(NeutralTags(), "</p>")
  {
    hide Tagged;
    assert |NeutralTags()| == 14;
    forall k | 0 <= k < 14
      ensures Tagged(NeutralTags(), NeutralTags()[k])
    {
      NeutralLiteral(k);
    }
    assert NeutralTags()[0] == AnchorStart() && NeutralTags()[1] == AnchorClose();
    assert NeutralTags()[2] == "<strong>" && NeutralTags()[3] == "</strong>";
    assert NeutralTags()[4] == "<code>" && NeutralTags()[5] == "</code>";
    assert NeutralTags()[6] == "<h2>" && NeutralTags()[7] == "</h2>";
    assert NeutralTags()[8] == "<h3>" && NeutralTags()[9] == "</h3>";
    assert NeutralTags()[10] == "<h4>" && NeutralTags()[11] == "</h4>";
    assert NeutralTags()[12] == "<p>" && NeutralTags()[13] == "</p>";
    NoBracket(NeutralTags(), AnchorMid());
  }

  // ----- the passes -----

  lemma {:induction false} EscapeClean(s: string)
    ensures Clean(Escape(s))
    decreases |s|
  {
    if s != [] {
      EscapeClean(s[1..]);
    }
  }

  /** The tags include an anchor's, and no tag holds a bracket or a closing parenthesis. */
  ghost predicate LinkTags(tags: seq<string>) {
    && Tagged(tags, AnchorStart()) && Tagged(tags, AnchorMid()) && Tagged(tags, AnchorClose())
    && MarkerFree(tags, '[') && MarkerFree(tags, ']') && MarkerFree(tags, ')')
  }

  lemma NeutralLinks()
    ensures LinkTags(NeutralTags())
  {
    Literals();
    LinkMarkers();
    hide Tagged, MarkerFree, NeutralTags;
  }

  lemma LinkTagged(tags: seq<string>, url: string, caption: string)
    requires LinkTags(tags) && Tagged(tags, url) && Tagged(tags, caption) && SafeScheme(url)
    ensures Tagged(tags, Link(url, caption))
  {
    assert url == "h" + url[1..];
    hide Tagged, MarkerFree, AnchorMid, AnchorClose, SafeScheme;
    Suffix(tags, url, 1);
    var start, rest := AnchorStart(), url[1..];
    assert AnchorOpen() + url == start + rest;
    hide AnchorOpen, AnchorStart;
    Join(tags, start, rest);
    Join(tags, start + rest, AnchorMid());
    Join(tags, start + rest + AnchorMid(), caption);
    Join(tags, start + rest + AnchorMid() + caption, AnchorClose());
  }

  /** The four pieces a link form is cut into. */
  lemma LinkPieces(tags: seq<string>, s: string, c: Cut)
    requires CutOf(s, c) && Tagged(tags, s) && MarkerFree(tags, '[') && MarkerFree(tags, ']') && MarkerFree(tags, ')')
    ensures Tagged(tags, s[..c.start]) && Tagged(tags, s[c.start + 1..c.mid])
    ensures Tagged(tags, s[c.mid + 2..c.end]) && Tagged(tags, s[c.end + 1..])
  {
    hide Tagged, MarkerFree;
    Prefix(tags, s, c.start);
    Suffix(tags, s, c.start + 1);
    var s1 := s[c.start + 1..];
    Prefix(tags, s1, c.mid - c.start - 1);
    assert s1[..c.mid - c.start - 1] == s[c.start + 1..c.mid];
    Suffix(tags, s, c.mid + 2);
    var s2 := s[c.mid + 2..];
    Prefix(tags, s2, c.end - c.mid - 2);
    assert s2[..c.end - c.mid - 2] == s[c.mid + 2..c.end];
    Suffix(tags, s, c.end + 1);
  }

  lemma LinkMarkers()
    ensures MarkerFree(NeutralTags(), '[') && MarkerFree(NeutralTags(), ']') && MarkerFree(NeutralTags(), ')')
  {
    hide MarkerFree, NeutralTags;
    Markers('[');
    Markers(']');
    Markers(')');
  }

  lemma ReplaceKeeps(tags: seq<string>, s: string, c: Cut)
    requires CutOf(s, c) && LinkTags(tags) && Tagged(tags, s)
    ensures Tagged(tags, ReplaceLink(s, c))
  {
    hide Tagged, Link, SafeScheme, MarkerFree, AnchorStart, AnchorMid, AnchorClose;
    LinkPieces(tags, s, c);
    var p, caption, url, q := s[..c.start], s[c.start + 1..c.mid], s[c.mid + 2..c.end], s[c.end + 1..];
    if SafeScheme(url) {
      LinkTagged(tags, url, caption);
    }
    var body := if SafeScheme(url) then Link(url, caption) else caption;
    Join(tags, p, body);
    Join(tags, p + body, q);
  }

  lemma ReplaceTagged(s: string, c: Cut)
    requires CutOf(s, c) && Tagged(NeutralTags(), s)
    ensures Tagged(NeutralTags(), ReplaceLink(s, c))
  {
    NeutralLinks();
    hide Tagged, NeutralTags, LinkTags;
    ReplaceKeeps(NeutralTags(), s, c);
  }

  lemma {:induction false} LinksKeep(tags: seq<string>, s: string)
    requires LinkTags(tags) && Tagged(tags, s)
    ensures Tagged(tags, Links(s))
    decreases Count(s)
  {
    hide Tagged, LinkTags, ReplaceLink, FindLink;
    var c := FindLink(s);
    if c.Some? {
      LinkLoopFalls(s, c.value);
      ReplaceKeeps(tags, s, c.value);
      LinksKeep(tags, ReplaceLink(s, c.value));
    }
  }

  lemma LinksTagged(s: string)
    requires Tagged(NeutralTags(), s)
    ensures Tagged(NeutralTags(), Links(s))
  {
    NeutralLinks();
    hide Tagged, NeutralTags, LinkTags;
    LinksKeep(NeutralTags(), s);
  }

  lemma MarkerCuts(s: string, i: nat, m: string)
    requires Tagged(NeutralTags(), s) && (m == "**" || m == "`") && i + |m| <= |s| && s[i..i + |m|] == m
    ensures Tagged(NeutralTags(), s[..i]) && Tagged(NeutralTags(), s[i + |m|..])
  {
    assert s[i] == s[i..i + |m|][0] == m[0];
    assert m[0] in "[]()*`";
    Markers(m[0]);
    Prefix(NeutralTags(), s, i);
    Suffix(NeutralTags(), s, i + |m|);
  }

  lemma {:induction false} SpansTagged(s: string)
    requires Tagged(NeutralTags(), s)
    ensures Tagged(NeutralTags(), Spans(s))
    decreases |s|
  {
    Literals();
    hide Tagged, NeutralTags, NextMarker, OpenTag, CloseTag;
    var tags, n := NeutralTags(), NextMarker(s);
    if n.Some? {
      var (i, m) := n.value;
      MarkerCuts(s, i, m);
      var after := s[i + |m|..];
      var close := Find(after, m);
      match close {
        case None =>
          SpansTagged(after);
          MarkerTagged(m);
          Join(tags, s[..i], m);
          Join(tags, s[..i] + m, Spans(after));
        case Some(k) =>
          MarkerCuts(after, k, m);
          SpansTagged(after[k + |m|..]);
          Join(tags, s[..i], OpenTag(m));
          Join(tags, s[..i] + OpenTag(m), after[..k]);
          Join(tags, s[..i] + OpenTag(m) + after[..k], CloseTag(m));
          Join(tags, s[..i] + OpenTag(m) + after[..k] + CloseTag(m), Spans(after[k + |m|..]));
      }
    }
  }

  lemma MarkerTagged(m: string)
    requires m == "**" || m == "`"
    ensures Tagged(NeutralTags(), m)
  {
    NoBracket(NeutralTags(), m);
  }

  /** Inline markup over escaped text holds no `<` of its own making but whole neutral tags. */
  lemma InlineTagged(t: string)
    requires Clean(t)
    ensures Tagged(NeutralTags(), InlineText(t))
  {
    NoBracket(NeutralTags(), t);
    LinksTagged(t);
    SpansTagged(Links(t));
  }

  function KindText(k: Kind): string {
    match k
    case Heading(_, t) => t
    case Bullet(t) => t
    case Empty => ""
    case Paragraph(t) => t
  }

  lemma ClassifiedClean(line: string)
    ensures Clean(KindText(Classify(Escape(line))))
  {
    EscapeClean(line);
    hide Escape, Blank;
  }

  // ----- list structure -----

  /** Reads the list tags of a page from left to right: none when an open or close does not
      alternate or an item stands outside a list; otherwise whether a list is open at the end. */
  function Scan(s: string, inList: bool): Option<bool>
    decreases |s|
  {
    if s == [] then Some(inList)
    else if "<ul>" <= s then (if inList then None else Scan(s[4..], true))
    else if "</ul>" <= s then (if inList then Scan(s[5..], false) else None)
    else if ("<li>" <= s || "</li>" <= s) && !inList then None
    else Scan(s[1..], inList)
  }

  lemma NeutralHead(t: string, q: string)
    requires t != [] && Tagged(NeutralTags(), t)
    ensures !("<ul>" <= t + q) && !("</ul>" <= t + q) && !("<li>" <= t + q) && !("</li>" <= t + q)
  {
    var s := t + q;
    assert s[0] == t[0];
    if t[0] == '<' {
      assert t[0..] == t;
      assert StartsTag(NeutralTags(), t[0..]);
      var k :| 0 <= k < |NeutralTags()| && NeutralTags()[k] <= t;
      TagShape(k);
      hide NeutralTags;
      assert s[1] == NeutralTags()[k][1] && s[2] == NeutralTags()[k][2];
    }
  }

  lemma {:induction false} ScanNeutral(t: string, q: string, inList: bool)
    requires Tagged(NeutralTags(), t)
    ensures Scan(t + q, inList) == Scan(q, inList)
    decreases |t|
  {
    hide Tagged, NeutralTags;
    if t == [] {
      assert t + q == q;
    } else {
      NeutralHead(t, q);
      Suffix(NeutralTags(), t, 1);
      assert (t + q)[1..] == t[1..] + q;
      ScanNeutral(t[1..], q, inList);
    }
  }

  lemma ScanOpen(q: string)
    ensures Scan("<ul>" + q, false) == Scan(q, true)
  {
    var s := "<ul>" + q;
    assert "<ul>" <= s && s[4..] == q;
  }

  lemma ScanClose(q: string)
    ensures Scan("</ul>" + q, true) == Scan(q, false)
  {
    var s := "</ul>" + q;
    assert s[1] == '/' && "</ul>" <= s && s[5..] == q;
  }

  /** Inside a list an item tag is passed over. */
  lemma ScanItemTag(t: string, q: string)
    requires t == "<li>" || t == "</li>"
    ensures Scan(t + q, true) == Scan(q, true)
  {
    var s := t + q;
    assert s[0] == t[0] && s[1] == t[1] && s[2] == t[2];
    assert s[1..] == t[1..] + q;
    assert Scan(s, true) == Scan(t[1..] + q, true);
    NoBracket(NeutralTags(), t[1..]);
    ScanNeutral(t[1..], q, true);
  }

  lemma ScanItem(text: string, q: string)
    requires Tagged(NeutralTags(), text)
    ensures Scan("<li>" + text + "</li>" + q, true) == Scan(q, true)
  {
    hide Tagged, NeutralTags, Scan;
    assert "<li>" + text + "</li>" + q == "<li>" + (text + ("</li>" + q));
    ScanItemTag("<li>", text + ("</li>" + q));
    ScanNeutral(text, "</li>" + q, true);
    ScanItemTag("</li>", q);
  }

  lemma EmptyTagged(tags: seq<string>)
    ensures Tagged(tags, "")
  {
  }

  lemma ElementTagged(k: Kind)
    requires !k.Bullet? && Clean(KindText(k))
    ensures Tagged(NeutralTags(), Element(k))
  {
    Literals();
    hide Tagged, NeutralTags, InlineText, HeadTag, HeadEnd, Clean;
    var tags := NeutralTags();
    match k
    case Heading(n, t) =>
      InlineTagged(t);
      Join(tags, HeadTag(n), InlineText(t));
      Join(tags, HeadTag(n) + InlineText(t), HeadEnd(n));
    case Empty => EmptyTagged(tags);
    case Paragraph(t) =>
      InlineTagged(t);
      Join(tags, "<p>", InlineText(t));
      Join(tags, "<p>" + InlineText(t), "</p>");
  }

  lemma ScanLine(k: Kind, inList: bool, q: string)
    requires Clean(KindText(k))
    ensures Scan(Lead(k, inList) + Element(k) + q, inList) == Scan(q, k.Bullet?)
  {
    hide Tagged, NeutralTags, InlineText, Scan, Clean;
    var lead, e := Lead(k, inList), Element(k);
    assert lead + e + q == lead + (e + q);
    assert "" + (e + q) == e + q;
    if k.Bullet? {
      InlineTagged(k.text);
      ScanItem(InlineText(k.text), q);
      ScanOpen(e + q);
    } else {
      ElementTagged(k);
      ScanNeutral(e, q, false);
      ScanClose(e + q);
    }
  }

  lemma {:induction false} ScanLines(ls: seq<string>, inList: bool)
    ensures Scan(RenderLines(ls, inList), inList) == Some(false)
    decreases |ls|
  {
    hide Classify, Lead, Element, Escape, TrimEnd, Clean;
    if ls == [] {
      ScanClose("");
      assert "</ul>" + "" == "</ul>";
    } else {
      var k := Classify(Escape(TrimEnd(ls[0])));
      ClassifiedClean(TrimEnd(ls[0]));
      ScanLine(k, inList, RenderLines(ls[1..], k.Bullet?));
      ScanLines(ls[1..], k.Bullet?);
    }
  }

  /** For every page body, `<ul>` and `</ul>` alternate, every item stands inside a list, and the page ends with its list closed. */
  lemma ListsWellNested(body: string)
    ensures Scan(Render(body), false) == Some(false)
  {
    ScanLines(Lines(body), false);
  }

  // ----- tags over the whole page -----

  lemma Wider(s: string)
    requires Tagged(NeutralTags(), s)
    ensures Tagged(AllTags(), s)
  {
    forall i | 0 <= i < |s| && s[i] == '<'
      ensures StartsTag(AllTags(), s[i..])
    {
      assert StartsTag(NeutralTags(), s[i..]);
      var k :| 0 <= k < |NeutralTags()| && NeutralTags()[k] <= s[i..];
      assert AllTags()[k] == NeutralTags()[k];
    }
  }

  lemma ListLiteral(t: string)
    requires t in ListTags()
    ensures Tagged(AllTags(), t)
  {
    var j :| 0 <= j < 4 && ListTags()[j] == t;
    assert |NeutralTags()| == 14;
    assert AllTags()[14 + j] == t;
    TagItself(AllTags(), 14 + j);
  }

  lemma LineTagged(k: Kind, inList: bool)
    requires Clean(KindText(k))
    ensures Tagged(AllTags(), Lead(k, inList)) && Tagged(AllTags(), Element(k))
  {
    ListLiteral("<ul>");
    ListLiteral("</ul>");
    ListLiteral("<li>");
    ListLiteral("</li>");
    NoBracket(AllTags(), "");
    hide Tagged, NeutralTags, AllTags, InlineText, Clean;
    if k.Bullet? {
      InlineTagged(k.text);
      Wider(InlineText(k.text));
      Join(AllTags(), "<li>", InlineText(k.text));
      Join(AllTags(), "<li>" + InlineText(k.text), "</li>");
    } else {
      ElementTagged(k);
      Wider(Element(k));
    }
  }

  lemma {:induction false} LinesTagged(ls: seq<string>, inList: bool)
    ensures Tagged(AllTags(), RenderLines(ls, inList))
    decreases |ls|
  {
    if ls == [] {
      ListLiteral("</ul>");
      NoBracket(AllTags(), "");
    } else {
      hide Tagged, AllTags, Classify, Lead, Element, Escape, TrimEnd, Clean;
      var k := Classify(Escape(TrimEnd(ls[0])));
      ClassifiedClean(TrimEnd(ls[0]));
      LineTagged(k, inList);
      LinesTagged(ls[1..], k.Bullet?);
      Join(AllTags(), Lead(k, inList), Element(k));
      Join(AllTags(), Lead(k, inList) + Element(k), RenderLines(ls[1..], k.Bullet?));
    }
  }

  /** For every page body, each `<` of the rendered page begins one of the renderer's own tags. */
  lemma OnlyOwnTags(body: string)
    ensures Tagged(AllTags(), Render(body))
  {
    LinesTagged(Lines(body), false);
  }
}

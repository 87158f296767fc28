/** The Markdown subset renderer: escaping, links, bold and code spans, headings and lists. */
module Markdown {
  import opened Util

  // ----- text -----

  function EscapeChar(c: char): string {
    if c == '&' then "&amp;"
    else if c == '<' then "&lt;"
    else if c == '>' then "&gt;"
    else if c == '\"' then "&quot;"
    else if c == '\'' then "&#x27;"
    else [c]
  }

  function Escape(s: string): string {
    if s == [] then [] else EscapeChar(s[0]) + Escape(s[1..])
  }

  method EscapeHtml(s: string) returns (out: string)
    ensures out == Escape(s)
  {
    out := "";
    assert s[0..] == s;
    for i := 0 to |s|
      invariant out + Escape(s[i..]) == Escape(s)
    {
      assert s[i..][0] == s[i] && s[i..][1..] == s[i + 1..];
      assert out + (EscapeChar(s[i]) + Escape(s[i + 1..])) == out + EscapeChar(s[i]) + Escape(s[i + 1..]);
      out := out + EscapeChar(s[i]);
    }
    assert out + "" == out;
  }

  /** The first position of `pat` in `s`. */
  function Find(s: string, pat: string): (r: Option<nat>)
    ensures r.Some? ==> r.value + |pat| <= |s| && s[r.value..r.value + |pat|] == pat
    decreases |s|
  {
    if pat <= s then Some(0)
    else if s == [] then None
    else
      match Find(s[1..], pat)
      case None => None
      case Some(k) => assert s[1..][k..k + |pat|] == s[k + 1..k + 1 + |pat|]; Some(k + 1)
  }

  /** No earlier position matches, and none at all when there is no result. */
  lemma {:induction false} FindIsFirst(s: string, pat: string, j: nat)
    requires j <= |s| && (Find(s, pat).Some? ==> j < Find(s, pat).value)
    ensures !(pat <= s[j..])
    decreases |s|
  {
    if j == 0 {
      assert s[0..] == s;
    } else {
      FindIsFirst(s[1..], pat, j - 1);
      assert s[1..][j - 1..] == s[j..];
    }
  }

  // ----- inline markup -----

  function AnchorOpen(): string { "<a href=\"" }
  function AnchorMid(): string { "\" rel=\"noopener noreferrer\">" }
  function AnchorClose(): string { "</a>" }

  function Link(url: string, caption: string): string {
    AnchorOpen() + url + AnchorMid() + caption + AnchorClose()
  }

  predicate SafeScheme(url: string) {
    StartsWith(url, "https://") || StartsWith(url, "http://")
  }

  function Count(s: string): nat {
    if s == [] then 0 else (if s[0] == '[' then 1 else 0) + Count(s[1..])
  }

  lemma {:induction false} CountConcat(a: string, b: string)
    ensures Count(a + b) == Count(a) + Count(b)
    decreases |a|
  {
    if a == [] {
      assert a + b == b;
    } else {
      assert (a + b)[1..] == a[1..] + b;
      CountConcat(a[1..], b);
    }
  }

  /** The first complete link form: positions of `[`, `](` and `)`. */
  datatype Cut = Cut(start: nat, mid: nat, end: nat)

  ghost predicate CutOf(s: string, c: Cut) {
    && c.start < c.mid && c.mid + 2 <= c.end < |s|
    && s[c.start] == '[' && s[c.mid] == ']' && s[c.mid + 1] == '(' && s[c.end] == ')'
  }

  function FindLink(s: string): (r: Option<Cut>)
    ensures r.Some? ==> CutOf(s, r.value)
  {
    var start :- Find(s, "[");
    assert s[start] == s[start..start + 1][0];
    var m :- Find(s[start..], "](");
    assert s[start..][m..m + 2] == "](";
    assert s[start + m] == s[start..][m..m + 2][0] && s[start + m + 1] == s[start..][m..m + 2][1];
    var e :- Find(s[start + m + 2..], ")");
    assert s[start + m + 2..][e..e + 1] == ")";
    assert s[start + m + 2 + e] == s[start + m + 2..][e..e + 1][0];
    Some(Cut(start, start + m, start + m + 2 + e))
  }

  /** The text with its first link form replaced: an anchor for http(s), the bare caption otherwise. */
  function ReplaceLink(s: string, c: Cut): string
    requires c.start < c.mid && c.mid + 2 <= c.end < |s|
  {
    var caption, url := s[c.start + 1..c.mid], s[c.mid + 2..c.end];
    s[..c.start] + (if SafeScheme(url) then Link(url, caption) else caption) + s[c.end + 1..]
  }

  lemma CountPieces(s: string, c: Cut)
    requires CutOf(s, c)
    ensures Count(s) == Count(s[..c.start]) + 1 + Count(s[c.start + 1..c.mid]) + Count(s[c.mid + 2..c.end]) + Count(s[c.end + 1..])
  {
    var p, caption, url, q := s[..c.start], s[c.start + 1..c.mid], s[c.mid + 2..c.end], s[c.end + 1..];
    assert s == p + ("[" + (caption + ("](" + (url + (")" + q)))));
    CountConcat(p, "[" + (caption + ("](" + (url + (")" + q)))));
    CountConcat("[", caption + ("](" + (url + (")" + q))));
    CountConcat(caption, "](" + (url + (")" + q)));
    CountConcat("](", url + (")" + q));
    CountConcat(url, ")" + q);
    CountConcat(")", q);
    assert Count("[") == 1 && Count("](") == 0 && Count(")") == 0;
  }

  lemma {:induction false} CountNone(s: string)
    requires forall i | 0 <= i < |s| :: s[i] != '['
    ensures Count(s) == 0
    decreases |s|
  {
    if s != [] {
      CountNone(s[1..]);
    }
  }

  lemma LiteralCounts()
    ensures Count(AnchorOpen()) == 0 && Count(AnchorMid()) == 0 && Count(AnchorClose()) == 0
  {
    hide Count;
    CountNone(AnchorOpen());
    CountNone(AnchorMid());
    CountNone(AnchorClose());
  }

  lemma LinkCount(url: string, caption: string)
    ensures Count(Link(url, caption)) == Count(url) + Count(caption)
  {
    hide Count, AnchorOpen, AnchorMid, AnchorClose;
    LiteralCounts();
    CountConcat(AnchorOpen() + url + AnchorMid() + caption, AnchorClose());
    CountConcat(AnchorOpen() + url + AnchorMid(), caption);
    CountConcat(AnchorOpen() + url, AnchorMid());
    CountConcat(AnchorOpen(), url);
  }

  /** Each pass of the link loop removes an opening bracket. */
  lemma LinkLoopFalls(s: string, c: Cut)
    requires CutOf(s, c)
    ensures Count(ReplaceLink(s, c)) < Count(s)
  {
    hide Count, Link, SafeScheme;
    var p, caption, url, q := s[..c.start], s[c.start + 1..c.mid], s[c.mid + 2..c.end], s[c.end + 1..];
    CountPieces(s, c);
    LinkCount(url, caption);
    var body := if SafeScheme(url) then Link(url, caption) else caption;
    CountConcat(p + body, q);
    CountConcat(p, body);
  }

  function Links(s: string): string
    decreases Count(s)
  {
    var c := FindLink(s);
    if c.None? then s
    else
      LinkLoopFalls(s, c.value);
      Links(ReplaceLink(s, c.value))
  }

  /** The nearer of the two markers. */
  function NextMarker(s: string): (r: Option<(nat, string)>)
    ensures r.Some? ==> (r.value.1 == "**" || r.value.1 == "`")
    ensures r.Some? ==> r.value.0 + |r.value.1| <= |s| && s[r.value.0..r.value.0 + |r.value.1|] == r.value.1
  {
    match (Find(s, "**"), Find(s, "`"))
    case (Some(b), Some(c)) => if b < c then Some((b, "**")) else Some((c, "`"))
    case (Some(b), None) => Some((b, "**"))
    case (None, Some(c)) => Some((c, "`"))
    case (None, None) => None
  }

  function OpenTag(marker: string): string {
    if marker == "**" then "<strong>" else "<code>"
  }

  function CloseTag(marker: string): string {
    if marker == "**" then "</strong>" else "</code>"
  }

  function Spans(s: string): string
    decreases |s|
  {
    match NextMarker(s)
    case None => s
    case Some((i, m)) =>
      var after := s[i + |m|..];
      match Find(after, m)
      case None => s[..i] + m + Spans(after)
      case Some(k) => s[..i] + OpenTag(m) + after[..k] + CloseTag(m) + Spans(after[k + |m|..])
  }

  function InlineText(s: string): string {
    Spans(Links(s))
  }

  /** The link loop, on an updated string. */
  method Inline(escaped: string) returns (r: string)
    ensures r == InlineText(escaped)
  {
    var s := escaped;
    while true
      invariant Links(s) == Links(escaped)
      decreases Count(s)
    {
      var c := FindLink(s);
      if c.None? {
        break;
      }
      LinkLoopFalls(s, c.value);
      s := ReplaceLink(s, c.value);
    }
    r := BoldAndCode(s);
  }

  lemma SpansDone(s: string)
    requires NextMarker(s).None?
    ensures Spans(s) == s
  {
  }

  lemma SpansOpen(s: string, i: nat, m: string)
    requires NextMarker(s) == Some((i, m)) && Find(s[i + |m|..], m).None?
    ensures Spans(s) == s[..i] + m + Spans(s[i + |m|..])
  {
  }

  lemma SpansClosed(s: string, i: nat, m: string, k: nat)
    requires NextMarker(s) == Some((i, m)) && Find(s[i + |m|..], m) == Some(k)
    ensures var after := s[i + |m|..];
            Spans(s) == s[..i] + OpenTag(m) + after[..k] + CloseTag(m) + Spans(after[k + |m|..])
  {
  }

  lemma Regroup(w: string, a: string, b: string, c: string, d: string, r: string)
    ensures w + (a + b + r) == (w + a + b) + r
    ensures w + (a + b + c + d + r) == (w + a + (b + c + d)) + r
  {
  }

  /** The marker loop, on the unread rest. */
  method BoldAndCode(s: string) returns (out: string)
    ensures out == Spans(s)
  {
    hide OpenTag, CloseTag, NextMarker, Spans;
    out := "";
    var rest := s;
    assert "" + Spans(s) == Spans(s);
    while true
      invariant out + Spans(rest) == Spans(s)
      decreases |rest|
    {
      var next := NextMarker(rest);
      if next.None? {
        SpansDone(rest);
        out := out + rest;
        break;
      }
      var (i, m) := next.value;
      ghost var was, from := out, rest;
      out := out + rest[..i];
      var after := rest[i + |m|..];
      var close := Find(after, m);
      match close {
        case Some(k) =>
          SpansClosed(rest, i, m, k);
          out := out + (OpenTag(m) + after[..k] + CloseTag(m));
          rest := after[k + |m|..];
          Regroup(was, from[..i], OpenTag(m), after[..k], CloseTag(m), Spans(rest));
        case None =>
          SpansOpen(rest, i, m);
          out := out + m;
          rest := after;
          Regroup(was, from[..i], m, "", "", Spans(rest));
      }
    }
  }

  // ----- lines -----

  /** Rust's `char::is_whitespace`. */
  predicate IsSpace(c: char) {
    var n := c as int;
    || 0x09 <= n <= 0x0D || n == 0x20 || n == 0x85 || n == 0xA0 || n == 0x1680
    || 0x2000 <= n <= 0x200A || n == 0x2028 || n == 0x2029 || n == 0x202F || n == 0x205F || n == 0x3000
  }

  function TrimEnd(s: string): string {
    if s != [] && IsSpace(s[|s| - 1]) then TrimEnd(s[..|s| - 1]) else s
  }

  predicate Blank(s: string) {
    forall i | 0 <= i < |s| :: IsSpace(s[i])
  }

  /** Split at newlines; a final newline ends the last line. (A carriage return before the newline is trimmed with the line's end.) */
  function Lines(s: string): seq<string>
    decreases |s|
  {
    if s == [] then []
    else
      match Find(s, "\n")
      case None => [s]
      case Some(k) => [s[..k]] + Lines(s[k + 1..])
  }

  // The kind of a line and what it contributes: an optional list close or open, then one element.

  datatype Kind = Heading(level: nat, text: string) | Bullet(text: string) | Empty | Paragraph(text: string)

  function Classify(escaped: string): Kind {
    if StartsWith(escaped, "### ") then Heading(4, escaped[4..])
    else if StartsWith(escaped, "## ") then Heading(3, escaped[3..])
    else if StartsWith(escaped, "# ") then Heading(2, escaped[2..])
    else if StartsWith(escaped, "- ") then Bullet(escaped[2..])
    else if Blank(escaped) then Empty
    else Paragraph(escaped)
  }

  function HeadTag(level: nat): string {
    if level == 4 then "<h4>" else if level == 3 then "<h3>" else "<h2>"
  }

  function HeadEnd(level: nat): string {
    if level == 4 then "</h4>" else if level == 3 then "</h3>" else "</h2>"
  }

  function Element(k: Kind): string {
    match k
    case Heading(n, t) => HeadTag(n) + InlineText(t) + HeadEnd(n)
    case Bullet(t) => "<li>" + InlineText(t) + "</li>"
    case Empty => ""
    case Paragraph(t) => "<p>" + InlineText(t) + "</p>"
  }

  function Lead(k: Kind, inList: bool): string {
    if k.Bullet? then (if inList then "" else "<ul>") else (if inList then "</ul>" else "")
  }

  function RenderLines(ls: seq<string>, inList: bool): string
    decreases |ls|
  {
    if ls == [] then (if inList then "</ul>" else "")
    else
      var k := Classify(Escape(TrimEnd(ls[0])));
      Lead(k, inList) + Element(k) + RenderLines(ls[1..], k.Bullet?)
  }

  function Render(body: string): string {
    RenderLines(Lines(body), false)
  }

  method CloseList(out: string, inList: bool) returns (out': string, inList': bool)
    ensures out' == out + (if inList then "</ul>" else "") && !inList'
  {
    out' := if inList then out + "</ul>" else out + "";
    inList' := false;
  }

  /** One line: list bookkeeping, then its element. */
  method RenderLine(out: string, inList: bool, kind: Kind) returns (out': string, inList': bool)
    ensures out' == out + Lead(kind, inList) + Element(kind) && inList' == kind.Bullet?
  {
    hide InlineText, HeadTag, HeadEnd;
    match kind {
      case Heading(n, t) =>
        out', inList' := CloseList(out, inList);
        var text := Inline(t);
        out' := out' + (HeadTag(n) + text + HeadEnd(n));
      case Bullet(t) =>
        out', inList' := out + "", inList;
        if !inList {
          out' := out + "<ul>";
          inList' := true;
        }
        var text := Inline(t);
        out' := out' + ("<li>" + text + "</li>");
      case Empty =>
        out', inList' := CloseList(out, inList);
        assert out' + "" == out';
      case Paragraph(t) =>
        out', inList' := CloseList(out, inList);
        var text := Inline(t);
        out' := out' + ("<p>" + text + "</p>");
    }
  }

  /** `render_markdown`: one pass over the lines with an output buffer and a list flag. */
  method RenderMarkdown(body: string) returns (out: string)
    ensures out == Render(body)
  {
    hide Classify, Lead, Element, Escape, TrimEnd, Lines;
    var ls := Lines(body);
    var inList := false;
    out := "";
    assert ls[0..] == ls;
    assert "" + RenderLines(ls, false) == RenderLines(ls, false);
    for i := 0 to |ls|
      invariant out + RenderLines(ls[i..], inList) == Render(body)
    {
      assert ls[i..][0] == ls[i] && ls[i..][1..] == ls[i + 1..];
      var escaped := EscapeHtml(TrimEnd(ls[i]));
      var kind := Classify(escaped);
      ghost var was, listed := out, inList;
      out, inList := RenderLine(out, inList, kind);
      ghost var rest := RenderLines(ls[i + 1..], inList);
      assert was + (Lead(kind, listed) + Element(kind) + rest) == was + Lead(kind, listed) + Element(kind) + rest;
    }
    out, inList := CloseList(out, inList);
  }
}

/**
 * The `Figure` article component's caption: markdown links `[text](href)`
 * inside a caption are split out of the surrounding text, scanning left to
 * right for the leftmost match of `\[([^\]]+)\]\(([^)]+)\)` as the global
 * regular expression's `exec` loop does.
 */
module Figure {
  import opened Wrappers
  import opened JsStrings

  /** A piece of a rendered caption: plain text, or an `<a href={href}>{linkText}</a>`. */
  datatype Part = Text(text: string) | Link(linkText: string, href: string)

  /** One match of the link pattern, occupying `[start, end)` of the caption. */
  datatype Match = Match(start: nat, linkText: string, href: string, end: nat)

  /** The markdown source of a link. */
  function LinkSource(linkText: string, href: string): string {
    "[" + linkText + "](" + href + ")"
  }

  /** The caption text a part stands for. */
  function PartSource(p: Part): string {
    match p
    case Text(t) => t
    case Link(linkText, href) => LinkSource(linkText, href)
  }

  /** The parts written back one after the other. */
  function Render(parts: seq<Part>): string
    decreases |parts|
  {
    if parts == [] then "" else PartSource(parts[0]) + Render(parts[1..])
  }

  /** The first index at or after `i` holding `c`, or `|s|` when there is none. */
  function FindChar(s: string, c: char, i: nat): (k: nat)
    requires i <= |s|
    decreases |s| - i
    ensures i <= k <= |s|
    ensures k < |s| ==> s[k] == c
    ensures forall j :: i <= j < k ==> s[j] != c
  {
    if i == |s| || s[i] == c then i else FindChar(s, c, i + 1)
  }

  /**
   * The link pattern tried at index `p`: a '[', a non-empty link text up to the
   * first ']', then '(', a non-empty href up to the first ')', then ')'.
   */
  function MatchAt(s: string, p: nat): (m: Option<Match>)
    ensures m.Some? ==> m.value.start == p && p < m.value.end <= |s|
    ensures m.Some? ==> s[p..m.value.end] == LinkSource(m.value.linkText, m.value.href)
    ensures m.Some? ==> m.value.linkText != [] && ']' !in m.value.linkText
    ensures m.Some? ==> m.value.href != [] && ')' !in m.value.href
  {
    if p < |s| && s[p] == '[' then
      var q := FindChar(s, ']', p + 1);
      if p + 1 < q && q + 1 < |s| && s[q + 1] == '(' then
        var e := FindChar(s, ')', q + 2);
        if q + 2 < e < |s| then
          var linkText, href := s[p + 1..q], s[q + 2..e];
          assert s[p..e + 1] == LinkSource(linkText, href);
          Some(Match(p, linkText, href, e + 1))
        else None
      else None
    else None
  }

  /** The link pattern as a matcher tried at each index of `s`. */
  function LinkMatcher(s: string): nat -> Option<Match> {
    (p: nat) => MatchAt(s, p)
  }

  /** `linkRegex.exec(text)` with `lastIndex == from`: the leftmost match at or after `from`. */
  function NextMatch(s: string, from: nat): (m: Option<Match>)
    ensures m.Some? ==> from <= m.value.start && MatchAt(s, m.value.start) == m
  {
    match ExecFrom(LinkMatcher(s), from, |s|)
    case None => None
    case Some((_, m)) => Some(m)
  }

  /** The match found is the leftmost: the pattern matches nowhere between `from` and it. */
  lemma NextMatchLeftmost(s: string, from: nat, k: nat)
    requires NextMatch(s, from).Some? && from <= k < NextMatch(s, from).value.start
    ensures MatchAt(s, k).None?
  {
    ExecLeftmost(LinkMatcher(s), from, |s|, k);
  }

  /** When no match is found, the pattern matches nowhere from `from` on. */
  lemma NextMatchNone(s: string, from: nat, k: nat)
    requires NextMatch(s, from).None? && from <= k
    ensures MatchAt(s, k).None?
  {
    if k < |s| {
      ExecNone(LinkMatcher(s), from, |s|, k);
    }
  }

  /** The gap before a match: the text between `from` and the match, when there is any. */
  function Gap(s: string, from: nat, m: Match): seq<Part>
    requires from <= m.start <= |s|
  {
    if m.start > from then [Text(s[from..m.start])] else []
  }

  /** The parts `parseMarkdownLinks` produces for the caption from index `from` on. */
  function LinkParts(s: string, from: nat): seq<Part>
    requires from <= |s|
    decreases |s| - from
  {
    match NextMatch(s, from)
    case None => if from < |s| then [Text(s[from..])] else []
    case Some(m) => Gap(s, from, m) + [Link(m.linkText, m.href)] + LinkParts(s, m.end)
  }

  /** One step of the scan: the gap before the next match, the link, and the parts after it. */
  lemma LinkPartsStep(s: string, from: nat, m: Match)
    requires from <= |s| && NextMatch(s, from) == Some(m)
    ensures from <= m.start < m.end <= |s|
    ensures LinkParts(s, from) == Gap(s, from, m) + [Link(m.linkText, m.href)] + LinkParts(s, m.end)
  {
  }

  /** The last step of the scan: without a further match, the rest of the caption is one text part, if any. */
  lemma LinkPartsEnd(s: string, from: nat)
    requires from <= |s| && NextMatch(s, from).None?
    ensures LinkParts(s, from) == if from < |s| then [Text(s[from..])] else []
  {
  }

  lemma ConcatAssoc<T>(x: seq<T>, y: seq<T>, z: seq<T>)
    ensures (x + y) + z == x + (y + z)
  {
  }

  /** The scan's invariant carries over one match: the parts so far, the gap and the link, then the rest. */
  lemma ScanStep(s: string, parts: seq<Part>, from: nat, m: Match)
    requires from <= |s| && NextMatch(s, from) == Some(m)
    requires parts + LinkParts(s, from) == LinkParts(s, 0)
    ensures from <= m.start < m.end <= |s|
    ensures (parts + Gap(s, from, m) + [Link(m.linkText, m.href)]) + LinkParts(s, m.end) == LinkParts(s, 0)
  {
    LinkPartsStep(s, from, m);
    var g, l, r := Gap(s, from, m), [Link(m.linkText, m.href)], LinkParts(s, m.end);
    ConcatAssoc(parts + g, l, r);
    ConcatAssoc(parts, g, l + r);
    ConcatAssoc(g, l, r);
  }

  /** What every part list satisfies: no empty text, labels without ']', hrefs without ')'. */
  predicate WellFormed(parts: seq<Part>) {
    forall i :: 0 <= i < |parts| ==>
      match parts[i]
      case Text(t) => t != []
      case Link(linkText, href) => linkText != [] && ']' !in linkText && href != [] && ')' !in href
  }

  /** Two text parts are never adjacent: a gap is always followed by a link. */
  predicate NoAdjacentTexts(parts: seq<Part>) {
    forall i :: 0 <= i < |parts| - 1 ==> parts[i].Text? ==> parts[i + 1].Link?
  }

  lemma RenderCons(p: Part, t: seq<Part>)
    ensures Render([p] + t) == PartSource(p) + Render(t)
  {
    assert ([p] + t)[1..] == t;
  }

  lemma {:induction false} RenderAppend(a: seq<Part>, b: seq<Part>)
    ensures Render(a + b) == Render(a) + Render(b)
    decreases |a|
  {
    if a == [] {
      assert a + b == b;
    } else {
      var p, tail := a[0], a[1..];
      RenderAppend(tail, b);
      assert a == [p] + tail;
      assert a + b == [p] + (tail + b);
      RenderCons(p, tail + b);
      RenderCons(p, tail);
      ConcatAssoc(PartSource(p), Render(tail), Render(b));
    }
  }

  /** Writing each part back and concatenating gives the caption back exactly. */
  lemma {:induction false} RoundTrip(s: string, from: nat)
    requires from <= |s|
    ensures Render(LinkParts(s, from)) == s[from..]
    decreases |s| - from
  {
    var next := NextMatch(s, from);
    if next.None? {
      LinkPartsEnd(s, from);
      if from < |s| {
        RenderSingle(Text(s[from..]));
      }
    } else {
      var m := next.value;
      LinkPartsStep(s, from, m);
      RoundTrip(s, m.end);
      RenderPieces(s, from, m, LinkParts(s, m.end));
    }
  }

  lemma SliceSplit(s: string, i: nat, j: nat, k: nat)
    requires i <= j <= k <= |s|
    ensures s[i..] == s[i..j] + s[j..k] + s[k..]
  {
  }

  lemma RenderSingle(p: Part)
    ensures Render([p]) == PartSource(p)
  {
    assert [p][1..] == [];
  }

  /** The gap, the link and the rest written back are the caption from `from` on. */
  lemma RenderPieces(s: string, from: nat, m: Match, rest: seq<Part>)
    requires from <= m.start < m.end <= |s|
    requires s[m.start..m.end] == LinkSource(m.linkText, m.href)
    requires Render(rest) == s[m.end..]
    ensures Render(Gap(s, from, m) + [Link(m.linkText, m.href)] + rest) == s[from..]
  {
    var gap, link := Gap(s, from, m), [Link(m.linkText, m.href)];
    RenderAppend(gap + link, rest);
    RenderAppend(gap, link);
    RenderSingle(Link(m.linkText, m.href));
    if m.start > from {
      RenderSingle(Text(s[from..m.start]));
    } else {
      assert s[from..m.start] == [];
    }
    assert Render(gap + link + rest) == Render(gap) + Render(link) + Render(rest);
    SliceSplit(s, from, m.start, m.end);
  }

  /** Every part list the scanner produces is well formed and never has two texts in a row. */
  lemma {:induction false} PartsShape(s: string, from: nat)
    requires from <= |s|
    ensures WellFormed(LinkParts(s, from)) && NoAdjacentTexts(LinkParts(s, from))
    decreases |s| - from
  {
    match NextMatch(s, from)
    case None =>
    case Some(m) =>
      PartsShape(s, m.end);
  }

  /** A caption without links is one text part; an empty caption has no parts. */
  lemma NoLinkCaption(s: string)
    requires NextMatch(s, 0).None?
    ensures LinkParts(s, 0) == if s == [] then [] else [Text(s)]
  {
  }

  /** `parseMarkdownLinks`, the `exec` loop over the caption. */
  method ParseMarkdownLinks(text: string) returns (parts: seq<Part>)
    ensures parts == LinkParts(text, 0)
    ensures Render(parts) == text
    ensures WellFormed(parts) && NoAdjacentTexts(parts)
  {
    parts := [];
    var lastIndex := 0;
    var m := NextMatch(text, lastIndex);
    while m.Some?
      invariant lastIndex <= |text|
      invariant m == NextMatch(text, lastIndex)
      invariant parts + LinkParts(text, lastIndex) == LinkParts(text, 0)
      decreases |text| - lastIndex
    {
      var mt := m.value;
      ScanStep(text, parts, lastIndex, mt);
      ghost var before := parts;
      if mt.start > lastIndex {
        parts := parts + [Text(text[lastIndex..mt.start])];
      }
      parts := parts + [Link(mt.linkText, mt.href)];
      assert parts == before + Gap(text, lastIndex, mt) + [Link(mt.linkText, mt.href)];
      lastIndex := mt.end;
      m := NextMatch(text, lastIndex);
    }
    LinkPartsEnd(text, lastIndex);
    if lastIndex < |text| {
      parts := parts + [Text(text[lastIndex..])];
    }
    RoundTrip(text, 0);
    assert text[0..] == text;
    PartsShape(text, 0);
  }

  /** The `{caption && <figcaption>...}` of `Figure`: a caption element only for a non-empty caption. */
  method FigureCaption(caption: Option<string>) returns (figcaption: Option<seq<Part>>)
    ensures figcaption.Some? <==> caption.Some? && caption.value != ""
    ensures figcaption.Some? ==> figcaption.value == LinkParts(caption.value, 0)
    ensures figcaption.Some? ==> Render(figcaption.value) == caption.value
  {
    if caption.Some? && caption.value != "" {
      var parts := ParseMarkdownLinks(caption.value);
      figcaption := Some(parts);
    } else {
      figcaption := None;
    }
  }
}

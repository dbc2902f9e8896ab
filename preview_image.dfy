/**
 * Finding an article's preview image in its MDX text: the image imports
 * (`import Name from './file.png'` at the start of a line), the first
 * `<Image ... src={Name} ...>` or `<Figure ... src={Name} ...>` whose name
 * is an imported image, and the import path chosen from those.
 */
module PreviewImage {
  import opened Wrappers
  import opened JsStrings

  datatype ImageImport = ImageImport(name: string, from: string)

  /** Characters that end a line for `^` and `$` in a multiline regular expression. */
  predicate IsLineTerminator(c: char) {
    c == '\n' || c == '\r' || c == '\U{2028}' || c == '\U{2029}'
  }

  /** JavaScript's `\s`. */
  const SpaceChars: set<char> := {
    '\t', '\n', '\U{B}', '\U{C}', '\r', ' ', '\U{A0}', '\U{1680}',
    '\U{2000}', '\U{2001}', '\U{2002}', '\U{2003}', '\U{2004}', '\U{2005}',
    '\U{2006}', '\U{2007}', '\U{2008}', '\U{2009}', '\U{200A}',
    '\U{2028}', '\U{2029}', '\U{202F}', '\U{205F}', '\U{3000}', '\U{FEFF}'}

  predicate IsSpace(c: char) {
    c in SpaceChars
  }

  /** `\w`: the characters on one side of a `\b` boundary. */
  predicate IsWordChar(c: char) {
    ('A' <= c <= 'Z') || ('a' <= c <= 'z') || ('0' <= c <= '9') || c == '_'
  }

  /** `[A-Za-z0-9_$]`: the characters of an imported name. */
  predicate IsIdentChar(c: char) {
    IsWordChar(c) || c == '$'
  }

  predicate IsQuote(c: char) {
    c == '\'' || c == '"'
  }

  predicate IsIdentifier(name: string) {
    name != [] && forall k :: 0 <= k < |name| ==> IsIdentChar(name[k])
  }

  predicate QuoteFree(path: string) {
    forall k :: 0 <= k < |path| ==> !IsQuote(path[k])
  }


  /** The end of the longest run of `\s` from `i`. */
  function SpanSpaces(s: string, i: nat): (j: nat)
    requires i <= |s|
    ensures i <= j <= |s|
    ensures j < |s| ==> !IsSpace(s[j])
    decreases |s| - i
  {
    if i == |s| || !IsSpace(s[i]) then i else SpanSpaces(s, i + 1)
  }

  /** The end of the longest run of name characters from `i`. */
  function SpanIdent(s: string, i: nat): (j: nat)
    requires i <= |s|
    ensures i <= j <= |s|
    ensures j < |s| ==> !IsIdentChar(s[j])
    decreases |s| - i
  {
    if i == |s| || !IsIdentChar(s[i]) then i else SpanIdent(s, i + 1)
  }

  /** Every character `SpanIdent` passes over is a name character. */
  lemma {:induction false} SpanIdentChars(s: string, i: nat, k: nat)
    requires i <= |s| && i <= k < SpanIdent(s, i)
    ensures IsIdentChar(s[k])
    decreases |s| - i
  {
    if k > i {
      SpanIdentChars(s, i + 1, k);
    }
  }

  /** Every character `SpanSpaces` passes over is a space. */
  lemma {:induction false} SpanSpacesChars(s: string, i: nat, k: nat)
    requires i <= |s| && i <= k < SpanSpaces(s, i)
    ensures IsSpace(s[k])
    decreases |s| - i
  {
    if k > i {
      SpanSpacesChars(s, i + 1, k);
    }
  }

  /** The first quote at or after `i`, or `|s|`. */
  function FindQuote(s: string, i: nat): (j: nat)
    requires i <= |s|
    ensures i <= j <= |s|
    ensures j < |s| ==> IsQuote(s[j])
    decreases |s| - i
  {
    if i == |s| || IsQuote(s[i]) then i else FindQuote(s, i + 1)
  }

  /** `FindQuote` passes over no quote. */
  lemma {:induction false} FindQuoteFree(s: string, i: nat, k: nat)
    requires i <= |s| && i <= k < FindQuote(s, i)
    ensures !IsQuote(s[k])
    decreases |s| - i
  {
    if k > i {
      FindQuoteFree(s, i + 1, k);
    }
  }

  /** A non-empty run of name characters is an identifier. */
  lemma IdentifierRun(s: string, a: nat)
    requires a <= |s| && a < SpanIdent(s, a)
    ensures IsIdentifier(s[a..SpanIdent(s, a)])
  {
    var b := SpanIdent(s, a);
    forall k | 0 <= k < b - a ensures IsIdentChar(s[a..b][k]) {
      SpanIdentChars(s, a, a + k);
    }
  }

  /** The text before the next quote is quote-free. */
  lemma QuoteFreeRun(s: string, a: nat)
    requires a <= |s|
    ensures QuoteFree(s[a..FindQuote(s, a)])
  {
    var b := FindQuote(s, a);
    forall k | 0 <= k < b - a ensures !IsQuote(s[a..b][k]) {
      FindQuoteFree(s, a, a + k);
    }
  }

  /** `$` in multiline mode holds at `e`. */
  predicate AtLineEnd(s: string, e: nat) {
    e == |s| || (e < |s| && IsLineTerminator(s[e]))
  }

  /** The largest `e` in `[lo, hi]` where `$` holds: where a greedy `\s*$` ends. */
  function LastLineEnd(s: string, lo: nat, hi: nat): (e: Option<nat>)
    requires lo <= hi
    ensures e.Some? ==> lo <= e.value <= hi && AtLineEnd(s, e.value)
    ensures e.Some? ==> forall k :: e.value < k <= hi ==> !AtLineEnd(s, k)
    ensures e.None? ==> forall k :: lo <= k <= hi ==> !AtLineEnd(s, k)
    decreases hi - lo
  {
    if AtLineEnd(s, hi) then Some(hi)
    else if hi == lo then None
    else LastLineEnd(s, lo, hi - 1)
  }

  /** The image extensions with their dot, by length. */
  const ShortExtensions: set<string> := {".png", ".jpg", ".gif", ".svg"}
  const LongExtensions: set<string> := {".jpeg", ".webp"}

  /**
   * `[^'"]+\.(?:png|jpe?g|webp|gif|svg)`: at least one character, then a
   * dot and an image extension ending the path (case-sensitive).
   */
  predicate HasImageExtension(path: string) {
    || (|path| >= 5 && path[|path| - 4..] in ShortExtensions)
    || (|path| >= 6 && path[|path| - 5..] in LongExtensions)
  }

  predicate StartsWithAt(s: string, i: nat, p: string) {
    i + |p| <= |s| && s[i..i + |p|] == p
  }

  /** A match of the import pattern: the import and the index where the match ends. */
  datatype ImportMatch = ImportMatch(imp: ImageImport, end: nat)

  /** `import\s+(name)\s+from\s+` at `p`: the name and the index of the opening quote. */
  function ImportHeadAt(s: string, p: nat): (h: Option<(string, nat)>)
    ensures h.Some? ==> StartsWithAt(s, p, "import") && p < h.value.1 < |s| && IsQuote(s[h.value.1])
    ensures h.Some? ==> IsIdentifier(h.value.0)
  {
    if !StartsWithAt(s, p, "import") then None
    else
      var a := SpanSpaces(s, p + 6);
      var b := SpanIdent(s, a);
      var c := SpanSpaces(s, b);
      if a == p + 6 || b == a || c == b || !StartsWithAt(s, c, "from") then None
      else
        var d := SpanSpaces(s, c + 4);
        if d == c + 4 || d == |s| || !IsQuote(s[d]) then None
        else
          IdentifierRun(s, a);
          Some((s[a..b], d))
  }

  /**
   * `(path)['"];?\s*$` after the opening quote at `d`: the path up to the
   * next quote, which must name an image, and where the greedy `\s*` stops
   * at a line end.
   */
  function ImportTailAt(s: string, d: nat): (t: Option<(string, nat)>)
    requires d < |s|
    ensures t.Some? ==> HasImageExtension(t.value.0) && QuoteFree(t.value.0)
    ensures t.Some? ==> d < t.value.1 <= |s|
  {
    var q := FindQuote(s, d + 1);
    if q == |s| || !HasImageExtension(s[d + 1..q]) then None
    else
      var t := if q + 1 < |s| && s[q + 1] == ';' then q + 2 else q + 1;
      match LastLineEnd(s, t, SpanSpaces(s, t))
      case None => None
      case Some(e) =>
        QuoteFreeRun(s, d + 1);
        Some((s[d + 1..q], e))
  }

  /**
   * The import pattern `^import\s+(name)\s+from\s+['"](path)['"];?\s*$`
   * tried at index `p`: `^` and `$` hold at line boundaries, `\s` may span
   * line breaks, and the trailing `\s*` is greedy.
   */
  function ImportAt(s: string, p: nat): (m: Option<ImportMatch>)
    ensures m.Some? ==> p < m.value.end <= |s|
    ensures m.Some? ==> (p == 0 || IsLineTerminator(s[p - 1])) && StartsWithAt(s, p, "import")
    ensures m.Some? ==> IsIdentifier(m.value.imp.name)
    ensures m.Some? ==> HasImageExtension(m.value.imp.from) && QuoteFree(m.value.imp.from)
  {
    if !(p <= |s| && (p == 0 || IsLineTerminator(s[p - 1]))) then None
    else
      match ImportHeadAt(s, p)
      case None => None
      case Some((name, d)) =>
        match ImportTailAt(s, d)
        case None => None
        case Some((path, e)) => Some(ImportMatch(ImageImport(name, path), e))
  }

  /** The import pattern as a matcher tried at each index of `s`. */
  function ImportMatcher(s: string): nat -> Option<ImportMatch> {
    (p: nat) => ImportAt(s, p)
  }

  /** `importRe.exec(mdx)` from `lastIndex == from`: the leftmost match at or after `from`. */
  function NextImport(s: string, from: nat): (m: Option<(nat, ImportMatch)>)
    ensures m.Some? ==> from <= m.value.0 && ImportAt(s, m.value.0) == Some(m.value.1)
  {
    ExecFrom(ImportMatcher(s), from, |s| + 1)
  }

  /** The match found is the leftmost: the pattern matches nowhere between `from` and it. */
  lemma NextImportLeftmost(s: string, from: nat, k: nat)
    requires NextImport(s, from).Some? && from <= k < NextImport(s, from).value.0
    ensures ImportAt(s, k).None?
  {
    ExecLeftmost(ImportMatcher(s), from, |s| + 1, k);
  }

  /** When no match is found, the pattern matches nowhere from `from` on. */
  lemma NextImportNone(s: string, from: nat, k: nat)
    requires NextImport(s, from).None? && from <= k
    ensures ImportAt(s, k).None?
  {
    if k <= |s| {
      ExecNone(ImportMatcher(s), from, |s| + 1, k);
    }
  }

  /** The imports the `exec` loop collects from `from` on, in order. */
  function ImageImports(s: string, from: nat): (r: seq<ImageImport>)
    decreases |s| + 1 - from
    ensures forall i :: 0 <= i < |r| ==> HasImageExtension(r[i].from)
  {
    match NextImport(s, from)
    case None => []
    case Some((_, m)) => [m.imp] + ImageImports(s, m.end)
  }

  /** `extractImageImports` */
  method ExtractImageImports(mdx: string) returns (imports: seq<ImageImport>)
    ensures imports == ImageImports(mdx, 0)
  {
    imports := [];
    var lastIndex := 0;
    var m := NextImport(mdx, lastIndex);
    while m.Some?
      invariant lastIndex <= |mdx|
      invariant m == NextImport(mdx, lastIndex)
      invariant imports + ImageImports(mdx, lastIndex) == ImageImports(mdx, 0)
      decreases |mdx| - lastIndex
    {
      var found := m.value.1;
      imports := imports + [found.imp];
      lastIndex := found.end;
      m := NextImport(mdx, lastIndex);
    }
  }

  /** How an import is usually written: `import Name from 'path';`. */
  function ImportStatement(i: ImageImport): string {
    "import " + i.name + " from '" + i.from + "';"
  }

  /** The imports the pattern accepts: a name, and a quote-free image path. */
  predicate WellFormedImport(i: ImageImport) {
    IsIdentifier(i.name) && HasImageExtension(i.from)
    && QuoteFree(i.from)
  }

  /** A name character is neither a space nor a quote. */
  lemma IdentCharIsPlain(c: char)
    requires IsIdentChar(c)
    ensures !IsSpace(c) && !IsQuote(c) && !IsLineTerminator(c)
  {
  }

  /** `SpanIdent` stops exactly at the end of a run of name characters. */
  lemma {:induction false} SpanIdentOver(s: string, a: nat, b: nat)
    requires a <= b <= |s|
    requires forall k :: a <= k < b ==> IsIdentChar(s[k])
    requires b == |s| || !IsIdentChar(s[b])
    ensures SpanIdent(s, a) == b
    decreases b - a
  {
    if a < b {
      SpanIdentOver(s, a + 1, b);
    }
  }

  /** `FindQuote` stops exactly at the quote ending a quote-free run. */
  lemma {:induction false} FindQuoteOver(s: string, a: nat, b: nat)
    requires a <= b < |s| && IsQuote(s[b])
    requires forall k :: a <= k < b ==> !IsQuote(s[k])
    ensures FindQuote(s, a) == b
    decreases b - a
  {
    if a < b {
      FindQuoteOver(s, a + 1, b);
    }
  }

  /** The keyword and the name of a written statement. */
  lemma StatementName(i: ImageImport)
    requires WellFormedImport(i)
    ensures var s := ImportStatement(i);
            StartsWithAt(s, 0, "import") && SpanSpaces(s, 6) == 7
            && SpanIdent(s, 7) == 7 + |i.name| && s[7..7 + |i.name|] == i.name
  {
    var s := ImportStatement(i);
    var n := |i.name|;
    assert s == "import " + i.name + " from '" + i.from + "';";
    assert s[..6] == "import";
    IdentCharIsPlain(i.name[0]);
    assert s[6] == ' ' && s[7] == i.name[0];
    assert s[7..7 + n] == i.name;
    assert s[7 + n] == ' ';
    SpanIdentOver(s, 7, 7 + n);
  }

  /** The `from` of a written statement and the opening quote after it. */
  lemma StatementFrom(i: ImageImport)
    requires WellFormedImport(i)
    ensures var s, n := ImportStatement(i), |i.name|;
            13 + n < |s| && SpanSpaces(s, 7 + n) == 8 + n && StartsWithAt(s, 8 + n, "from")
            && SpanSpaces(s, 12 + n) == 13 + n && IsQuote(s[13 + n])
  {
    var s := ImportStatement(i);
    var n := |i.name|;
    assert s == "import " + i.name + " from '" + i.from + "';";
    assert s[7 + n] == ' ' && s[8 + n] == 'f';
    assert SpanSpaces(s, 8 + n) == 8 + n;
    assert s[8 + n..12 + n] == "from";
    assert s[12 + n] == ' ' && s[13 + n] == '\'';
    assert SpanSpaces(s, 13 + n) == 13 + n;
  }

  /** The head of a written statement: its name, and the opening quote after `from `. */
  lemma StatementHead(i: ImageImport)
    requires WellFormedImport(i)
    ensures ImportHeadAt(ImportStatement(i), 0) == Some((i.name, |i.name| + 13))
  {
    StatementName(i);
    StatementFrom(i);
  }

  /** The tail of a written statement: the path between the quotes, and a match that runs to the end. */
  lemma StatementTail(i: ImageImport)
    requires WellFormedImport(i)
    ensures |i.name| + 13 < |ImportStatement(i)|
    ensures ImportTailAt(ImportStatement(i), |i.name| + 13) == Some((i.from, |ImportStatement(i)|))
  {
    var s := ImportStatement(i);
    var n, f := |i.name|, |i.from|;
    assert s == "import " + i.name + " from '" + i.from + "';";
    assert s[14 + n..14 + n + f] == i.from;
    assert s[14 + n + f] == '\'' && s[15 + n + f] == ';' && |s| == 16 + n + f;
    FindQuoteOver(s, 14 + n, 14 + n + f);
    assert SpanSpaces(s, |s|) == |s|;
  }

  /** Reading back a written import statement gives the import, and nothing else. */
  lemma ImportStatementRoundTrip(i: ImageImport)
    requires WellFormedImport(i)
    ensures ImportAt(ImportStatement(i), 0) == Some(ImportMatch(i, |ImportStatement(i)|))
    ensures ImageImports(ImportStatement(i), 0) == [i]
  {
    var s := ImportStatement(i);
    StatementHead(i);
    StatementTail(i);
    assert ImportAt(s, |s|).None?;
    assert NextImport(s, |s|) == None;
  }

  // ---------------------------------------------------------------------
  // The first use of an imported image.
  // ---------------------------------------------------------------------

  /** A match of the usage pattern: the `src` name and the index where the match ends. */
  datatype Usage = Usage(name: string, end: nat)

  /** The first '>' at or after `i`, or `|s|`. */
  function FindClose(s: string, i: nat): (j: nat)
    requires i <= |s|
    ensures i <= j <= |s|
    ensures forall k :: i <= k < j ==> s[k] != '>'
    ensures j < |s| ==> s[j] == '>'
    decreases |s| - i
  {
    if i == |s| || s[i] == '>' then i else FindClose(s, i + 1)
  }

  /** `\bsrc=\{(name)\}` at index `k`, with a non-word character before it. */
  function SrcAt(s: string, k: nat): (name: Option<string>)
    ensures name.Some? ==> IsIdentifier(name.value)
  {
    if 0 < k <= |s| && !IsWordChar(s[k - 1]) && StartsWithAt(s, k, "src={") then
      var e := SpanIdent(s, k + 5);
      if e > k + 5 && e < |s| && s[e] == '}' then
        IdentifierRun(s, k + 5);
        Some(s[k + 5..e])
      else None
    else None
  }

  /** The last `src={name}` starting in `[lo, hi)`: the one a greedy `[^>]*` settles on. */
  function LastSrc(s: string, lo: nat, hi: nat): (name: Option<string>)
    ensures name.Some? ==> IsIdentifier(name.value)
    decreases hi
  {
    if hi <= lo then None
    else if SrcAt(s, hi - 1).Some? then SrcAt(s, hi - 1)
    else LastSrc(s, lo, hi - 1)
  }

  /**
   * The usage pattern `<(Image|Figure)\b[^>]*\bsrc=\{(name)\}[^>]*>` tried
   * at index `p`: the tag, a word boundary, then within the same tag (up to
   * its first '>') the last `src={name}`.
   */
  function UsageAt(s: string, p: nat): (u: Option<Usage>)
    ensures u.Some? ==> p < u.value.end <= |s| && s[p] == '<' && s[u.value.end - 1] == '>'
  {
    if !(p < |s| && s[p] == '<') then None
    else
      var t := if StartsWithAt(s, p + 1, "Image") then p + 6
               else if StartsWithAt(s, p + 1, "Figure") then p + 7
               else p;
      if t == p || (t < |s| && IsWordChar(s[t])) then None
      else
        var close := FindClose(s, t);
        if close == |s| then None
        else
          match LastSrc(s, t, close)
          case None => None
          case Some(name) => Some(Usage(name, close + 1))
  }

  /** The usage pattern as a matcher tried at each index of `s`. */
  function UsageMatcher(s: string): nat -> Option<Usage> {
    (p: nat) => UsageAt(s, p)
  }

  /** `usageRe.exec(mdx)` from `lastIndex == from`. */
  function NextUsage(s: string, from: nat): (u: Option<Usage>)
    ensures u.Some? ==> from < u.value.end <= |s|
  {
    match ExecFrom(UsageMatcher(s), from, |s|)
    case None => None
    case Some((_, u)) => Some(u)
  }

  /** The usage found is the leftmost one: the pattern matches nowhere between `from` and it. */
  lemma NextUsageFound(s: string, from: nat) returns (p: nat)
    requires NextUsage(s, from).Some?
    ensures from <= p && UsageAt(s, p) == NextUsage(s, from)
    ensures forall q :: from <= q < p ==> UsageAt(s, q).None?
  {
    p := ExecFrom(UsageMatcher(s), from, |s|).value.0;
    forall q | from <= q < p
      ensures UsageAt(s, q).None?
    {
      ExecLeftmost(UsageMatcher(s), from, |s|, q);
    }
  }

  /** When no usage is found, the pattern matches nowhere from `from` on. */
  lemma NextUsageNone(s: string, from: nat, p: nat)
    requires NextUsage(s, from).None? && from <= p
    ensures UsageAt(s, p).None?
  {
    if p < |s| {
      ExecNone(UsageMatcher(s), from, |s|, p);
    }
  }

  /** The `src` names of the usages from `from` on, in document order. */
  function UsedNames(s: string, from: nat): (r: seq<string>)
    decreases |s| - from
  {
    match NextUsage(s, from)
    case None => []
    case Some(u) => [u.name] + UsedNames(s, u.end)
  }

  /** The first of `names` that is in `declared`. */
  function FirstIn(names: seq<string>, declared: set<string>): (r: Option<string>)
    ensures r.Some? ==> r.value in declared
    ensures r.Some? ==> exists i :: 0 <= i < |names| && names[i] == r.value
                                    && forall j :: 0 <= j < i ==> names[j] !in declared
    ensures r.None? ==> forall i :: 0 <= i < |names| ==> names[i] !in declared
    decreases |names|
  {
    if names == [] then None
    else if names[0] in declared then Some(names[0])
    else
      var r := FirstIn(names[1..], declared);
      assert forall i :: 1 <= i < |names| ==> names[i] == names[1..][i - 1];
      if r.Some? then
        var i :| 0 <= i < |names[1..]| && names[1..][i] == r.value
                 && forall j :: 0 <= j < i ==> names[1..][j] !in declared;
        assert names[i + 1] == r.value;
        r
      else r
  }

  /** `extractFirstUsedImageName`: the first usage whose name was imported. */
  method ExtractFirstUsedImageName(mdx: string, importNames: set<string>) returns (r: Option<string>)
    ensures r == FirstIn(UsedNames(mdx, 0), importNames)
  {
    var lastIndex := 0;
    var m := NextUsage(mdx, lastIndex);
    while m.Some?
      invariant lastIndex <= |mdx|
      invariant m == NextUsage(mdx, lastIndex)
      invariant FirstIn(UsedNames(mdx, lastIndex), importNames) == FirstIn(UsedNames(mdx, 0), importNames)
      decreases |mdx| - lastIndex
    {
      var name := m.value.name;
      if name in importNames {
        return Some(name);
      }
      lastIndex := m.value.end;
      m := NextUsage(mdx, lastIndex);
    }
    return None;
  }

  /** How an image is usually placed: `<Image src={Name} />`. */
  function ImageTag(name: string): string {
    "<Image src={" + name + "} />"
  }

  /** `FindClose` stops exactly at the first '>'. */
  lemma {:induction false} FindCloseOver(s: string, a: nat, b: nat)
    requires a <= b < |s| && s[b] == '>'
    requires forall k :: a <= k < b ==> s[k] != '>'
    ensures FindClose(s, a) == b
    decreases b - a
  {
    if a < b {
      FindCloseOver(s, a + 1, b);
    }
  }

  /** What `LastSrc` finds is a `src={...}` in the range with none after it. */
  lemma {:induction false} LastSrcFound(s: string, lo: nat, hi: nat) returns (k: nat)
    requires LastSrc(s, lo, hi).Some?
    ensures lo <= k < hi && SrcAt(s, k) == LastSrc(s, lo, hi)
    ensures forall j :: k < j < hi ==> SrcAt(s, j).None?
    decreases hi
  {
    if SrcAt(s, hi - 1).Some? {
      k := hi - 1;
    } else {
      k := LastSrcFound(s, lo, hi - 1);
    }
  }

  /** When `LastSrc` finds nothing, there is no `src={...}` in the range. */
  lemma {:induction false} LastSrcNone(s: string, lo: nat, hi: nat, k: nat)
    requires LastSrc(s, lo, hi).None? && lo <= k < hi
    ensures SrcAt(s, k).None?
    decreases hi
  {
    if k < hi - 1 {
      LastSrcNone(s, lo, hi - 1, k);
    }
  }

  /** `LastSrc` settles on the last `src={...}` before `hi`. */
  lemma {:induction false} LastSrcIs(s: string, lo: nat, k: nat, hi: nat)
    requires lo <= k < hi && SrcAt(s, k).Some?
    requires forall j :: k < j < hi ==> SrcAt(s, j).None?
    ensures LastSrc(s, lo, hi) == SrcAt(s, k)
    decreases hi
  {
    if k < hi - 1 {
      LastSrcIs(s, lo, k, hi - 1);
    }
  }

  /** The tag name of a written tag, and the '>' that closes it. */
  lemma TagShape(name: string)
    requires IsIdentifier(name)
    ensures var s, n := ImageTag(name), |name|;
            |s| == 16 + n && s[0] == '<' && StartsWithAt(s, 1, "Image") && !IsWordChar(s[6])
            && FindClose(s, 6) == 15 + n
  {
    var s := ImageTag(name);
    var n := |name|;
    assert s == "<Image src={" + name + "} />";
    assert s[1..6] == "Image";
    forall k | 6 <= k < 15 + n
      ensures s[k] != '>'
    {
      if 12 <= k < 12 + n {
        assert s[k] == name[k - 12];
        IdentCharIsPlain(name[k - 12]);
      }
    }
    FindCloseOver(s, 6, 15 + n);
  }

  /** The `src={Name}` of a written tag, and no other `src={` after it. */
  lemma TagSrc(name: string)
    requires IsIdentifier(name)
    ensures var s, n := ImageTag(name), |name|;
            SrcAt(s, 7) == Some(name) && forall j :: 7 < j < 15 + n ==> SrcAt(s, j).None?
  {
    var s := ImageTag(name);
    var n := |name|;
    assert s == "<Image src={" + name + "} />";
    assert s[6] == ' ' && s[12 + n] == '}';
    assert StartsWithAt(s, 7, "src={") by { assert s[7..12] == "src={"; }
    assert forall k :: 12 <= k < 12 + n ==> s[k] == name[k - 12];
    SpanIdentOver(s, 12, 12 + n);
    assert s[12..12 + n] == name;
    forall j | 7 < j < 15 + n
      ensures SrcAt(s, j).None?
    {
      if j + 5 <= |s| {
        assert s[j + 4] != '{';
        assert s[j..j + 5][4] == s[j + 4];
      }
    }
  }

  /** Scanning a written `<Image src={Name} />` finds exactly that name. */
  lemma ImageTagRoundTrip(name: string)
    requires IsIdentifier(name)
    ensures UsageAt(ImageTag(name), 0) == Some(Usage(name, |ImageTag(name)|))
    ensures UsedNames(ImageTag(name), 0) == [name]
  {
    var s := ImageTag(name);
    var n := |name|;
    TagShape(name);
    TagSrc(name);
    LastSrcIs(s, 6, 7, 15 + n);
    assert UsageAt(s, 0) == Some(Usage(name, |s|));
    assert NextUsage(s, |s|) == None;
  }

  // ---------------------------------------------------------------------
  // The chosen import.
  // ---------------------------------------------------------------------

  function Names(imports: seq<ImageImport>): set<string> {
    set i | i in imports :: i.name
  }

  /** `new Map(imports.map(i => [i.name, i.from]))`: a later import of a name replaces an earlier one. */
  function ImportMap(imports: seq<ImageImport>): (m: map<string, string>)
    ensures m.Keys == Names(imports)
    ensures forall i :: 0 <= i < |imports| && (forall j :: i < j < |imports| ==> imports[j].name != imports[i].name)
              ==> m[imports[i].name] == imports[i].from
    ensures forall n :: n in m ==> ImageImport(n, m[n]) in imports
    decreases |imports|
  {
    if imports == [] then map[]
    else
      var init := imports[..|imports| - 1];
      var last := imports[|imports| - 1];
      assert imports == init + [last];
      assert forall i :: 0 <= i < |init| ==> init[i] == imports[i];
      ImportMap(init)[last.name := last.from]
  }

  /**
   * The import path the preview image comes from: the path of the first
   * used imported name, or else the first import's path; none without
   * image imports.
   */
  function ChosenImportPath(mdx: string): (from: Option<string>)
    ensures from.None? <==> ImageImports(mdx, 0) == []
    ensures from.Some? ==> exists i :: 0 <= i < |ImageImports(mdx, 0)| && ImageImports(mdx, 0)[i].from == from.value
    ensures from.Some? ==> HasImageExtension(from.value)
  {
    var imports := ImageImports(mdx, 0);
    if imports == [] then None
    else
      var importMap := ImportMap(imports);
      match FirstIn(UsedNames(mdx, 0), importMap.Keys)
      case Some(n) =>
        assert ImageImport(n, importMap[n]) in imports;
        Some(importMap[n])
      case None => Some(imports[0].from)
  }

  /**
   * When an imported name is used, the path chosen is that of the last
   * import of the first used imported name.
   */
  lemma ChosenIsFirstUsed(mdx: string) returns (i: nat)
    requires FirstIn(UsedNames(mdx, 0), Names(ImageImports(mdx, 0))).Some?
    ensures i < |ImageImports(mdx, 0)|
    ensures ImageImports(mdx, 0)[i].name == FirstIn(UsedNames(mdx, 0), Names(ImageImports(mdx, 0))).value
    ensures forall j :: i < j < |ImageImports(mdx, 0)| ==> ImageImports(mdx, 0)[j].name != ImageImports(mdx, 0)[i].name
    ensures ChosenImportPath(mdx) == Some(ImageImports(mdx, 0)[i].from)
  {
    var imports := ImageImports(mdx, 0);
    var n := FirstIn(UsedNames(mdx, 0), Names(imports)).value;
    i := LastDeclaration(imports, n);
    assert ImportMap(imports).Keys == Names(imports);
  }

  /** The last import of a declared name. */
  lemma {:induction false} LastDeclaration(imports: seq<ImageImport>, n: string) returns (i: nat)
    requires n in Names(imports)
    ensures i < |imports| && imports[i].name == n
    ensures forall j :: i < j < |imports| ==> imports[j].name != n
    decreases |imports|
  {
    var last := imports[|imports| - 1];
    if last.name == n {
      i := |imports| - 1;
    } else {
      var init := imports[..|imports| - 1];
      var x :| x in imports && x.name == n;
      assert imports == init + [last];
      assert x in init;
      i := LastDeclaration(init, n);
    }
  }

  /** With no usage of an imported name, the first import is chosen. */
  lemma ChosenWithoutUsage(mdx: string)
    requires ImageImports(mdx, 0) != []
    requires FirstIn(UsedNames(mdx, 0), Names(ImageImports(mdx, 0))).None?
    ensures ChosenImportPath(mdx) == Some(ImageImports(mdx, 0)[0].from)
  {
  }

  /** A page holding one written image import takes its preview from that import, used or not. */
  lemma SingleImportChosen(i: ImageImport)
    requires WellFormedImport(i)
    ensures ChosenImportPath(ImportStatement(i)) == Some(i.from)
  {
    var s := ImportStatement(i);
    ImportStatementRoundTrip(i);
    if FirstIn(UsedNames(s, 0), Names(ImageImports(s, 0))).Some? {
      var k := ChosenIsFirstUsed(s);
    } else {
      ChosenWithoutUsage(s);
    }
  }
}

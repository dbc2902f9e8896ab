/**
 * The parts of Node's `path` module the preview-image lookup relies on,
 * for POSIX paths: an absolute path is the sequence of its segments, and
 * `resolve`, `dirname`, `join`, `relative` act on those sequences.
 */
module NodePaths {
  import opened JsStrings

  /** A segment normalisation keeps: not empty, not `.` or `..`, without a separator. */
  predicate IsSegment(seg: string) {
    seg != "" && seg != "." && seg != ".." && Free(seg, '/')
  }

  /** An absolute, normalised path. */
  predicate Normal(segs: seq<string>) {
    forall k :: 0 <= k < |segs| ==> IsSegment(segs[k])
  }

  /** One segment of normalisation: empty and `.` are dropped, `..` goes up (never above the root). */
  function Step(stack: seq<string>, part: string): seq<string> {
    if part == "" || part == "." then stack
    else if part == ".." then (if stack == [] then [] else stack[..|stack| - 1])
    else stack + [part]
  }

  function Normalize(stack: seq<string>, parts: seq<string>): (r: seq<string>)
    ensures Normal(stack) && (forall k :: 0 <= k < |parts| ==> '/' !in parts[k]) ==> Normal(r)
    decreases |parts|
  {
    if parts == [] then stack
    else Normalize(Step(stack, parts[0]), parts[1..])
  }

  /** `path.resolve(dir, p)`: an absolute `p` starts again from the root. */
  function Resolve(dir: seq<string>, p: string): (r: seq<string>)
    ensures Normal(dir) ==> Normal(r)
  {
    Normalize(if |p| > 0 && p[0] == '/' then [] else dir, Split(p, '/'))
  }

  /** `path.dirname` */
  function Dirname(segs: seq<string>): (r: seq<string>)
    ensures segs != [] ==> segs == r + [segs[|segs| - 1]]
  {
    if segs == [] then [] else segs[..|segs| - 1]
  }

  /** The path as a string, as `path.join` and `path.resolve` print it. */
  function PathString(segs: seq<string>): string {
    "/" + Join(segs, "/")
  }

  function CommonPrefixLength(a: seq<string>, b: seq<string>): (n: nat)
    ensures n <= |a| && n <= |b| && a[..n] == b[..n]
    ensures n < |a| && n < |b| ==> a[n] != b[n]
    decreases |a|
  {
    if a == [] || b == [] || a[0] != b[0] then 0
    else
      var n := 1 + CommonPrefixLength(a[1..], b[1..]);
      assert a[..n] == [a[0]] + a[1..][..n - 1];
      assert b[..n] == [b[0]] + b[1..][..n - 1];
      n
  }

  /** `path.relative(from, to)`: up out of `from` to the common ancestor, then down to `to`. */
  function Relative(from: seq<string>, to: seq<string>): (r: seq<string>)
    ensures from <= to ==> r == to[|from|..]
  {
    var n := CommonPrefixLength(from, to);
    seq(|from| - n, _ => "..") + to[n..]
  }

  /** `toPosixPath`: every backslash becomes a slash. */
  function ToPosixPath(p: string): (r: string)
    ensures |r| == |p| && '\\' !in r
    ensures forall i :: 0 <= i < |p| && p[i] != '\\' ==> r[i] == p[i]
    ensures forall i :: 0 <= i < |p| && p[i] == '\\' ==> r[i] == '/'
  {
    ReplaceAllChar(p, '\\', '/')
  }

  /** A path without backslashes is already a POSIX path. */
  lemma ToPosixPathPlain(p: string)
    requires '\\' !in p
    ensures ToPosixPath(p) == p
  {
    assert forall i :: 0 <= i < |p| ==> p[i] in p;
  }

  /** The root guard as written: a string prefix test on the two printed paths. */
  predicate RootGuardAsWritten(root: seq<string>, image: seq<string>) {
    StartsWith(PathString(image), PathString(root))
  }

  /** The root guard as intended: the image lies in the root directory, segment by segment. */
  predicate WithinRoot(root: seq<string>, image: seq<string>) {
    root <= image
  }

  lemma {:induction false} JoinAppend(a: seq<string>, b: seq<string>, sep: string)
    requires a != [] && b != []
    ensures Join(a + b, sep) == Join(a, sep) + sep + Join(b, sep)
    decreases |a|
  {
    if |a| == 1 {
      assert (a + b)[1..] == b;
    } else {
      JoinAppend(a[1..], b, sep);
      assert (a + b)[1..] == a[1..] + b;
    }
  }

  /** The intended guard is stricter than the written one: whatever it admits, the written one admits too. */
  lemma WithinRootPassesGuard(root: seq<string>, image: seq<string>)
    requires root != [] && WithinRoot(root, image)
    ensures RootGuardAsWritten(root, image)
  {
    var rest := image[|root|..];
    assert image == root + rest;
    if rest != [] {
      JoinAppend(root, rest, "/");
      assert PathString(image) == PathString(root) + ("/" + Join(rest, "/"));
    } else {
      assert image == root;
    }
  }

  /**
   * Inside the root, the path relative to the root is the image's own
   * remaining segments: it never climbs out with `..`, and joined back
   * onto the root it names the image.
   */
  lemma WithinRootStaysInside(root: seq<string>, image: seq<string>)
    requires Normal(image) && WithinRoot(root, image)
    ensures Relative(root, image) == image[|root|..]
    ensures root + Relative(root, image) == image
    ensures forall k :: 0 <= k < |Relative(root, image)| ==> Relative(root, image)[k] != ".."
  {
    assert forall k :: 0 <= k < |image| - |root| ==> image[|root|..][k] == image[|root| + k];
  }

  /**
   * An import `../../articles-old/a.png` in `<root>/<folder>/page.mdx`
   * resolves to a sibling of the root whose printed path starts with the
   * root's printed path.
   */
  lemma SiblingImportResolves()
    ensures Normalize(["srv", "src", "app", "articles", "post"], ["..", "..", "articles-old", "a.png"])
            == ["srv", "src", "app", "articles-old", "a.png"]
  {
    var dir := ["srv", "src", "app"];
    NormalizeCons(dir + ["articles", "post"], "..", ["..", "articles-old", "a.png"]);
    assert Step(dir + ["articles", "post"], "..") == dir + ["articles"];
    NormalizeCons(dir + ["articles"], "..", ["articles-old", "a.png"]);
    assert Step(dir + ["articles"], "..") == dir;
    NormalizeCons(dir, "articles-old", ["a.png"]);
    NormalizeCons(dir + ["articles-old"], "a.png", []);
  }

  lemma NormalizeCons(stack: seq<string>, part: string, rest: seq<string>)
    ensures Normalize(stack, [part] + rest) == Normalize(Step(stack, part), rest)
  {
    assert ([part] + rest)[1..] == rest;
  }

  /** Extending both sides after a common prefix keeps a prefix a prefix. */
  lemma PrefixAfter(x: string, a: string, b: string)
    requires a <= b
    ensures x + a <= x + b
  {
    assert (x + b)[..|x + a|] == x + a;
  }

  /** The printed sibling path starts with the printed root path. */
  lemma SiblingPassesGuard(dir: seq<string>, name: string, sibling: string, file: string)
    requires dir != [] && name <= sibling
    ensures RootGuardAsWritten(dir + [name], dir + [sibling, file])
  {
    JoinAppend(dir, [name], "/");
    JoinAppend(dir, [sibling, file], "/");
    assert Join([sibling, file], "/") == sibling + "/" + file;
    var x := "/" + Join(dir, "/") + "/";
    assert PathString(dir + [name]) == x + name;
    assert PathString(dir + [sibling, file]) == x + (sibling + "/" + file);
    PrefixAfter(x, name, sibling + "/" + file);
  }

  /** The written guard admits that sibling, which the intended guard rejects and `relative` reaches through `..`. */
  lemma RootGuardAsWrittenAdmitsSibling()
    ensures var root := ["srv", "src", "app", "articles"];
            var image := ["srv", "src", "app", "articles-old", "a.png"];
            && RootGuardAsWritten(root, image)
            && !WithinRoot(root, image)
            && Relative(root, image) == ["..", "articles-old", "a.png"]
  {
    var dir := ["srv", "src", "app"];
    var root, image := dir + ["articles"], dir + ["articles-old", "a.png"];
    assert "articles" <= "articles-old" by {
      assert "articles-old"[..8] == "articles";
    }
    SiblingPassesGuard(dir, "articles", "articles-old", "a.png");
    assert root[3] != image[3];
    var n := CommonPrefixLength(root, image);
    assert root[..3] == image[..3];
    assert n == 3;
    assert root == ["srv", "src", "app", "articles"];
    assert image == ["srv", "src", "app", "articles-old", "a.png"];
  }
}

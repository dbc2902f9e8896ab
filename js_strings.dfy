/**
 * The JavaScript string built-ins that the modelled code calls
 * (`startsWith`, `endsWith`, `includes`, `indexOf`, `replace` with a string
 * pattern, `split` on one character, and a global one-character replace),
 * stated over `seq<char>`, and the `exec` step of a global regular
 * expression over a matcher tried at each index.
 */
module JsStrings {
  import opened Wrappers

  /** `s.startsWith(p)` */
  predicate StartsWith(s: string, p: string) {
    p <= s
  }

  /** `s.endsWith(p)` */
  predicate EndsWith(s: string, p: string) {
    |p| <= |s| && s[|s| - |p|..] == p
  }

  /** `pat` occurs in `s` starting at index `k`. */
  predicate OccursAt(s: string, pat: string, k: nat) {
    k + |pat| <= |s| && s[k..k + |pat|] == pat
  }

  /** `s.indexOf(pat, from)`, with -1 as `None`: the leftmost occurrence at or after `from`. */
  function IndexFrom(s: string, pat: string, from: nat): (r: Option<nat>)
    decreases |s| - from
    ensures r.Some? ==> from <= r.value && OccursAt(s, pat, r.value)
    ensures r.Some? ==> forall k :: from <= k < r.value ==> !OccursAt(s, pat, k)
    ensures r.None? ==> forall k :: from <= k ==> !OccursAt(s, pat, k)
  {
    if from + |pat| > |s| then None
    else if s[from..from + |pat|] == pat then Some(from)
    else IndexFrom(s, pat, from + 1)
  }

  /** `s.indexOf(pat)` */
  function IndexOf(s: string, pat: string): Option<nat> {
    IndexFrom(s, pat, 0)
  }

  /** `s.includes(pat)` */
  predicate Contains(s: string, pat: string) {
    IndexOf(s, pat).Some?
  }

  /** `s.replace(pat, rep)` with a string pattern: only the first occurrence is replaced. */
  function ReplaceFirst(s: string, pat: string, rep: string): (r: string)
    ensures !Contains(s, pat) ==> r == s
    ensures Contains(s, pat) ==> |r| == |s| - |pat| + |rep|
    ensures Contains(s, pat) ==>
              exists i: nat :: OccursAt(s, pat, i) && (forall k: nat :: k < i ==> !OccursAt(s, pat, k))
                          && r == s[..i] + rep + s[i + |pat|..]
  {
    match IndexOf(s, pat)
    case None => s
    case Some(i) => s[..i] + rep + s[i + |pat|..]
  }

  /** `s.replace(/x/g, y)` for a one-character pattern `x`. */
  function ReplaceAllChar(s: string, x: char, y: char): (r: string)
    ensures |r| == |s|
    ensures forall i :: 0 <= i < |s| ==> r[i] == (if s[i] == x then y else s[i])
  {
    seq(|s|, i requires 0 <= i < |s| => if s[i] == x then y else s[i])
  }

  /** `s.split(c)` for a one-character separator. */
  function Split(s: string, c: char): (r: seq<string>)
    decreases |s|
    ensures |r| > 0
    ensures forall k :: 0 <= k < |r| ==> c !in r[k]
  {
    match IndexOf(s, [c])
    case None =>
      assert forall k :: 0 <= k < |s| ==> s[k] != c by {
        forall k | 0 <= k < |s| ensures s[k] != c {
          assert !OccursAt(s, [c], k);
          assert s[k..k + 1] == [s[k]];
        }
      }
      [s]
    case Some(i) =>
      assert s[i..i + 1] == [c];
      assert forall k :: 0 <= k < i ==> s[k] != c by {
        forall k | 0 <= k < i ensures s[k] != c {
          assert !OccursAt(s, [c], k);
          assert s[k..k + 1] == [s[k]];
        }
      }
      [s[..i]] + Split(s[i + 1..], c)
  }

  /** A string without the separator splits into itself. */
  lemma SplitFree(s: string, c: char)
    requires c !in s
    ensures Split(s, c) == [s]
  {
    forall k | 0 <= k < |s| ensures !OccursAt(s, [c], k) {
      assert s[k..k + 1] == [s[k]];
      assert s[k] in s;
    }
  }

  /** A separator-free piece, the separator, then the rest: the piece is the first part. */
  lemma SplitCons(piece: string, c: char, rest: string)
    requires c !in piece
    ensures Split(piece + [c] + rest, c) == [piece] + Split(rest, c)
  {
    var s := piece + [c] + rest;
    assert OccursAt(s, [c], |piece|) by {
      assert s[|piece|..|piece| + 1] == [c];
    }
    forall k | 0 <= k < |piece| ensures !OccursAt(s, [c], k) {
      assert s[k..k + 1] == [piece[k]];
      assert piece[k] in piece;
    }
    var i := IndexOf(s, [c]).value;
    assert i == |piece|;
    assert s[..i] == piece && s[i + 1..] == rest;
  }

  /** Four separator-free pieces joined by the separator split back apart. */
  lemma SplitFour(a: string, b: string, c: string, d: string, sep: char)
    requires sep !in a && sep !in b && sep !in c && sep !in d
    ensures Split(a + [sep] + (b + [sep] + (c + [sep] + d)), sep) == [a] + ([b] + ([c] + [d]))
  {
    var t2 := c + [sep] + d;
    var t1 := b + [sep] + t2;
    SplitFree(d, sep);
    SplitCons(c, sep, d);
    SplitCons(b, sep, t2);
    SplitCons(a, sep, t1);
  }

  /** `segs.join(sep)` */
  function Join(segs: seq<string>, sep: string): string
    decreases |segs|
  {
    if segs == [] then ""
    else if |segs| == 1 then segs[0]
    else segs[0] + sep + Join(segs[1..], sep)
  }

  /** Three segments joined by a separator. */
  lemma JoinThree(a: string, b: string, c: string, sep: string)
    ensures Join([a, b, c], sep) == a + sep + (b + sep + c)
  {
    assert [b, c][1..] == [c];
    assert Join([b, c], sep) == b + sep + c;
    assert [a, b, c][1..] == [b, c];
  }

  /** Splitting and joining back with the same separator gives the string back. */
  lemma {:induction false} SplitJoin(s: string, c: char)
    ensures Join(Split(s, c), [c]) == s
    decreases |s|
  {
    match IndexOf(s, [c])
    case None =>
    case Some(i) =>
      assert s[i..i + 1] == [c];
      var rest := s[i + 1..];
      SplitJoin(rest, c);
      var tail := Split(rest, c);
      assert Split(s, c) == [s[..i]] + tail;
      assert ([s[..i]] + tail)[1..] == tail;
      assert s == s[..i] + [c] + rest;
  }

  /** The character `c` does not occur in `f`. */
  predicate Free(f: string, c: char) {
    forall i :: 0 <= i < |f| ==> f[i] != c
  }

  lemma OccursAtShift(f: string, tail: string, pat: string, k: nat)
    requires |f| <= k
    ensures OccursAt(f + tail, pat, k) == OccursAt(tail, pat, k - |f|)
  {
    if k + |pat| <= |f + tail| {
      assert (f + tail)[k..k + |pat|] == tail[k - |f|..k - |f| + |pat|];
    }
  }

  /** A pattern that starts with '/' does not occur at an index of a prefix free of '/'. */
  lemma SlashFreePrefix(f: string, tail: string, pat: string, k: nat)
    requires Free(f, '/') && |pat| > 0 && pat[0] == '/' && k < |f|
    ensures !OccursAt(f + tail, pat, k)
  {
    if k + |pat| <= |f + tail| {
      assert (f + tail)[k..k + |pat|][0] == f[k];
    }
  }

  /**
   * A pattern that starts with '/' cannot begin inside a prefix free of '/':
   * its first occurrence in `f + tail` is its first occurrence in `tail`, shifted.
   */
  lemma IndexOfPastSlashFree(f: string, tail: string, pat: string)
    requires Free(f, '/') && |pat| > 0 && pat[0] == '/'
    ensures IndexOf(f + tail, pat) ==
            (match IndexOf(tail, pat) case None => None case Some(j) => Some(|f| + j))
  {
    var r := IndexOf(f + tail, pat);
    if r.Some? {
      var v := r.value;
      if v < |f| {
        SlashFreePrefix(f, tail, pat, v);
      } else {
        OccursAtShift(f, tail, pat, v);
        assert OccursAt(tail, pat, v - |f|);
      }
    }
    match IndexOf(tail, pat)
    case None =>
    case Some(j) =>
      OccursAtShift(f, tail, pat, |f| + j);
      assert OccursAt(f + tail, pat, |f| + j);
  }

  /** Replacing the first occurrence of a '/'-led pattern that ends `f + pat` leaves `f`. */
  lemma StripSuffixPastSlashFree(f: string, pat: string)
    requires Free(f, '/') && |pat| > 0 && pat[0] == '/'
    ensures Contains(f + pat, pat) && ReplaceFirst(f + pat, pat, "") == f
  {
    assert OccursAt(pat, pat, 0);
    IndexOfPastSlashFree(f, pat, pat);
    assert (f + pat)[..|f|] == f;
  }

  /**
   * `re.exec(s)` for a global regular expression with `re.lastIndex == from`:
   * the leftmost index in `[from, bound)` where `matchAt` matches, with its match.
   */
  function ExecFrom<M>(matchAt: nat -> Option<M>, from: nat, bound: nat): (r: Option<(nat, M)>)
    decreases bound - from
    ensures r.Some? ==> from <= r.value.0 < bound && matchAt(r.value.0) == Some(r.value.1)
  {
    if from >= bound then None
    else if matchAt(from).Some? then Some((from, matchAt(from).value))
    else ExecFrom(matchAt, from + 1, bound)
  }

  /** The match `exec` finds is the leftmost: the matcher fails everywhere between `from` and it. */
  lemma {:induction false} ExecLeftmost<M>(matchAt: nat -> Option<M>, from: nat, bound: nat, k: nat)
    requires ExecFrom(matchAt, from, bound).Some?
    requires from <= k < ExecFrom(matchAt, from, bound).value.0
    ensures matchAt(k).None?
    decreases bound - from
  {
    if k > from {
      ExecLeftmost(matchAt, from + 1, bound, k);
    }
  }

  /** When `exec` finds nothing, the matcher fails everywhere in `[from, bound)`. */
  lemma {:induction false} ExecNone<M>(matchAt: nat -> Option<M>, from: nat, bound: nat, k: nat)
    requires ExecFrom(matchAt, from, bound).None? && from <= k < bound
    ensures matchAt(k).None?
    decreases bound - from
  {
    if k > from {
      ExecNone(matchAt, from + 1, bound, k);
    }
  }
}

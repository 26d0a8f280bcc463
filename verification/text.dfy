/**
  String helpers shared by every script of the translation tooling: prefix and
  suffix tests, first-occurrence search and replacement (the semantics of
  JavaScript's `String.prototype.includes` and of `replace` with a string
  pattern), POSIX-style `basename`/`dirname`, and the character classes of
  JavaScript regular expressions (`\s` and the line terminators used by `^`/`$`
  in multiline mode).
 */
module Text {

  datatype Option<+T> = None | Some(value: T)

  predicate StartsWith(s: string, prefix: string) {
    |prefix| <= |s| && s[..|prefix|] == prefix
  }

  predicate EndsWith(s: string, suffix: string) {
    |suffix| <= |s| && s[|s| - |suffix|..] == suffix
  }

  /** `pat` occurs in `s` starting at index `i`. */
  predicate OccursAt(s: string, pat: string, i: int) {
    0 <= i && i + |pat| <= |s| && s[i..i + |pat|] == pat
  }

  /** Index of the first occurrence of `pat` in `s` at or after `i`. */
  function FindFrom(s: string, pat: string, i: nat): (r: Option<nat>)
    decreases |s| - i
    ensures r.Some? ==> i <= r.value && OccursAt(s, pat, r.value)
    ensures r.Some? ==> forall j :: i <= j < r.value ==> !OccursAt(s, pat, j)
    ensures r.None? ==> forall j :: i <= j ==> !OccursAt(s, pat, j)
  {
    if i + |pat| > |s| then None
    else if s[i..i + |pat|] == pat then Some(i)
    else FindFrom(s, pat, i + 1)
  }

  /** Index of the first occurrence of `pat` in `s` (JavaScript `indexOf`). */
  function Find(s: string, pat: string): Option<nat> {
    FindFrom(s, pat, 0)
  }

  /** JavaScript `s.includes(pat)`. */
  predicate Contains(s: string, pat: string) {
    Find(s, pat).Some?
  }

  lemma ContainsIff(s: string, pat: string)
    ensures Contains(s, pat) <==> exists j :: OccursAt(s, pat, j)
  {
    if !Contains(s, pat) {
      forall j ensures !OccursAt(s, pat, j) {
        if j >= 0 {
          assert 0 <= j;
        }
      }
    }
  }

  /** One mismatching character rules an occurrence out. */
  lemma MismatchAt(s: string, pat: string, i: int, e: int)
    requires 0 <= i && 0 <= e < |pat| && i + e < |s| && s[i + e] != pat[e]
    ensures !OccursAt(s, pat, i)
  {
    if i + |pat| <= |s| {
      assert s[i..i + |pat|][e] == s[i + e];
    }
  }

  /** The characters of an occurrence, one by one. */
  lemma OccursAtChars(s: string, pat: string, i: int)
    requires OccursAt(s, pat, i)
    ensures forall e :: 0 <= e < |pat| ==> s[i + e] == pat[e]
  {
    forall e | 0 <= e < |pat| ensures s[i + e] == pat[e] {
      assert s[i..i + |pat|][e] == s[i + e];
    }
  }

  /** An occurrence with none before it is what `Find` returns. */
  lemma FindIsFirst(s: string, pat: string, i: nat)
    requires OccursAt(s, pat, i) && forall j :: 0 <= j < i ==> !OccursAt(s, pat, j)
    ensures Find(s, pat) == Some(i)
  {
  }

  /** JavaScript `s.replace(pat, rep)` with a string pattern: only the first
      occurrence is replaced, and `s` is returned unchanged when there is none. */
  function ReplaceFirst(s: string, pat: string, rep: string): string {
    match Find(s, pat)
    case None => s
    case Some(i) => s[..i] + rep + s[i + |pat|..]
  }

  /** Index of the last occurrence of `c` in `s`. */
  function LastIndexOf(s: string, c: char): (r: Option<nat>)
    ensures r.Some? ==> r.value < |s| && s[r.value] == c
    ensures r.Some? ==> forall j :: r.value < j < |s| ==> s[j] != c
    ensures r.None? ==> c !in s
  {
    if |s| == 0 then None
    else if s[|s| - 1] == c then Some(|s| - 1)
    else LastIndexOf(s[..|s| - 1], c)
  }

  /** A `c` with none after it is the last one. */
  lemma LastIndexOfIs(s: string, c: char, i: int)
    requires 0 <= i < |s| && s[i] == c && forall j :: i < j < |s| ==> s[j] != c
    ensures LastIndexOf(s, c) == Some(i)
  {
  }

  /** Splicing `rep` over `s[j..j + w]` inside the part before a separator at
      `q`, then putting the separator and the rest back, splices it over `s`. */
  lemma SpliceBeforeSeparator(s: string, j: int, w: int, q: int, rep: string)
    requires 0 <= j && 0 <= w && j + w <= q < |s|
    ensures s[..q][..j] + rep + s[..q][j + w..] + [s[q]] + s[q + 1..] == s[..j] + rep + s[j + w..]
  {
    assert s[j + w..] == s[j + w..q] + [s[q]] + s[q + 1..];
  }

  /** `path.basename`: what follows the last '/'. */
  function Basename(p: string): string {
    match LastIndexOf(p, '/')
    case None => p
    case Some(i) => p[i + 1..]
  }

  /** `path.dirname`: what precedes the last '/' ("/" for a root entry, "."
      when there is no '/'). */
  function Dirname(p: string): string {
    match LastIndexOf(p, '/')
    case None => "."
    case Some(i) => if i == 0 then "/" else p[..i]
  }

  /** `path.join` of two already-normalised components. */
  function Join(dir: string, name: string): string {
    dir + "/" + name
  }

  /** The last '/' of `u + v`, where `u` ends in '/'. */
  lemma LastSlashOfConcat(u: string, v: string)
    requires |u| > 0 && u[|u| - 1] == '/'
    ensures '/' in v ==> LastIndexOf(u + v, '/') == Some(|u| + LastIndexOf(v, '/').value)
    ensures '/' !in v ==> LastIndexOf(u + v, '/') == Some(|u| - 1)
  {
    var s := u + v;
    if '/' in v {
      var k := LastIndexOf(v, '/').value;
      assert s[|u| + k] == v[k];
      forall j | |u| + k < j < |s| ensures s[j] != '/' {
        assert s[j] == v[j - |u|];
      }
      LastIndexOfIs(s, '/', |u| + k);
    } else {
      assert s[|u| - 1] == u[|u| - 1];
      forall j | |u| - 1 < j < |s| ensures s[j] != '/' {
        assert s[j] == v[j - |u|];
      }
      LastIndexOfIs(s, '/', |u| - 1);
    }
  }

  /** Everything after a '/' decides the basename. */
  lemma {:induction false} BasenameOfConcat(u: string, v: string)
    requires |u| > 0 && u[|u| - 1] == '/'
    ensures Basename(u + v) == if '/' in v then Basename(v) else v
  {
    LastSlashOfConcat(u, v);
    var s := u + v;
    if '/' in v {
      var k := LastIndexOf(v, '/').value;
      assert s[|u| + k + 1..] == v[k + 1..];
    } else {
      assert s[|u|..] == v;
    }
  }

  /** `basename` and `dirname` split a path at its last '/'. */
  lemma JoinSplits(dir: string, name: string)
    requires |dir| > 0 && '/' !in name
    ensures Basename(Join(dir, name)) == name
    ensures Dirname(Join(dir, name)) == dir
  {
    var s := Join(dir, name);
    assert s == (dir + "/") + name;
    LastSlashOfConcat(dir + "/", name);
    assert s[|dir| + 1..] == name;
    assert s[..|dir|] == dir;
  }

  lemma SliceSplit<T>(s: seq<T>, a: int, m: int, b: int)
    requires 0 <= a <= m <= b <= |s|
    ensures s[a..b] == s[a..m] + s[m..b]
  {
  }

  lemma SliceOfSuffix<T>(s: seq<T>, a: int, i: int, j: int)
    requires 0 <= a <= |s| && 0 <= i <= j <= |s| - a
    ensures s[a..][i..j] == s[a + i..a + j]
    ensures s[a..][i..] == s[a + i..]
  {
  }

  /** `\s` of JavaScript regular expressions. */
  predicate IsJsWhitespace(c: char) {
    || c == ' ' || c == '\t' || c == '\n' || c == '\r'
    || c == '\U{B}' || c == '\U{C}' || c == '\U{A0}' || c == '\U{1680}'
    || ('\U{2000}' <= c <= '\U{200A}')
    || c == '\U{2028}' || c == '\U{2029}' || c == '\U{202F}'
    || c == '\U{205F}' || c == '\U{3000}' || c == '\U{FEFF}'
  }

  /** The line terminators at which `^` and `$` match in multiline mode. */
  predicate IsLineTerminator(c: char) {
    c == '\n' || c == '\r' || c == '\U{2028}' || c == '\U{2029}'
  }
}

/**
  The locale set and the path arithmetic shared by the watcher, the deletion
  propagator and the single-file script: `LANGS`, the `/blog/<lang>/` segment,
  source-locale detection (`LANGS.find(l => path.includes(...))`), the target
  list (`LANGS.filter(l => l !== sourceLang)`) and `getTargetPath`
  (scripts/watch-translate.mjs:6, 63-65, 87, 107).
 */
module Locales {
  import opened Text

  datatype Locale = Ru | En | Uz

  function Code(l: Locale): string {
    match l
    case Ru => "ru"
    case En => "en"
    case Uz => "uz"
  }

  /** `LANGS`, in its declared order. */
  const Langs: seq<Locale> := [Ru, En, Uz]

  /** Position of a locale in `LANGS`. */
  function Index(l: Locale): (r: nat)
    ensures r < |Langs| && Langs[r] == l
  {
    match l
    case Ru => 0
    case En => 1
    case Uz => 2
  }

  /** `/blog/<code>/`. */
  function Segment(l: Locale): string {
    "/blog/" + Code(l) + "/"
  }

  /** `langs.find(l => path.includes(Segment(l)))`. */
  function FindLocale(path: string, langs: seq<Locale>): (r: Option<Locale>)
    ensures r.Some? ==>
              exists i :: 0 <= i < |langs| && langs[i] == r.value && Contains(path, Segment(r.value)) &&
                          forall j :: 0 <= j < i ==> !Contains(path, Segment(langs[j]))
    ensures r.None? ==> forall j :: 0 <= j < |langs| ==> !Contains(path, Segment(langs[j]))
  {
    if |langs| == 0 then None
    else if Contains(path, Segment(langs[0])) then Some(langs[0])
    else
      var r := FindLocale(path, langs[1..]);
      assert forall j :: 1 <= j < |langs| ==> langs[j] == langs[1..][j - 1];
      r
  }

  /** The source locale of a path: the first of `ru, en, uz` whose segment the
      path contains, wherever in the path it occurs. */
  function DetectLocale(path: string): (r: Option<Locale>)
    ensures r.Some? ==> Contains(path, Segment(r.value))
    ensures r.Some? ==> forall l :: Index(l) < Index(r.value) ==> !Contains(path, Segment(l))
    ensures r.None? <==> forall l :: !Contains(path, Segment(l))
  {
    var r := FindLocale(path, Langs);
    if r.None? then
      assert forall l :: !Contains(path, Segment(l)) by {
        forall l ensures !Contains(path, Segment(l)) {
          assert Langs[Index(l)] == l;
        }
      }
      r
    else
      r
  }

  /** `langs.filter(l => l !== src)`. */
  function Without(langs: seq<Locale>, src: Locale): (r: seq<Locale>)
    ensures forall l :: l in r <==> l in langs && l != src
  {
    if |langs| == 0 then []
    else (if langs[0] != src then [langs[0]] else []) + Without(langs[1..], src)
  }

  /** The target locales of a source: the other two, in `LANGS` order. */
  function Others(src: Locale): (r: seq<Locale>)
    ensures |r| == 2 && Index(r[0]) < Index(r[1])
    ensures forall l :: l in r <==> l != src
  {
    var r := Without(Langs, src);
    assert r == match src case Ru => [En, Uz] case En => [Ru, Uz] case Uz => [Ru, En];
    r
  }

  /** Two lists of locales in strict `LANGS` order with the same members are
      the same list. */
  lemma {:induction false} SortedByIndexUnique(a: seq<Locale>, b: seq<Locale>)
    requires forall i, j :: 0 <= i < j < |a| ==> Index(a[i]) < Index(a[j])
    requires forall i, j :: 0 <= i < j < |b| ==> Index(b[i]) < Index(b[j])
    requires forall l :: l in a <==> l in b
    ensures a == b
    decreases |a|
  {
    assert |b| == 0 || b[0] in a;
    if |a| > 0 {
      assert a[0] in b;
      var j :| 0 <= j < |b| && b[j] == a[0];
      var i :| 0 <= i < |a| && a[i] == b[0];
      assert Index(b[0]) <= Index(b[j]) && Index(a[0]) <= Index(a[i]);
      assert a[0] == b[0] by {
        assert Langs[Index(a[0])] == a[0] && Langs[Index(b[0])] == b[0];
      }
      assert forall k :: 1 <= k < |a| ==> a[k] != a[0];
      assert forall k :: 1 <= k < |b| ==> b[k] != b[0];
      forall l ensures l in a[1..] <==> l in b[1..] {
        assert l in a <==> l == a[0] || l in a[1..];
        assert l in b <==> l == b[0] || l in b[1..];
      }
      SortedByIndexUnique(a[1..], b[1..]);
      assert a == [a[0]] + a[1..];
      assert b == [b[0]] + b[1..];
    }
  }

  /** `getTargetPath`: the first `/blog/<src>/` becomes `/blog/<tgt>/`. */
  function GetTargetPath(path: string, src: Locale, tgt: Locale): string {
    ReplaceFirst(path, Segment(src), Segment(tgt))
  }

  lemma SegmentFacts(l: Locale)
    ensures |Segment(l)| == 9
    ensures Segment(l)[..6] == "/blog/" && Segment(l)[8] == '/'
    ensures Segment(l)[6..8] == Code(l)
  {
  }

  /** Where a segment has its slashes, and that no 'b' follows the middle one. */
  lemma SegmentSlashes(l: Locale)
    ensures |Segment(l)| == 9
    ensures forall k :: 0 <= k < 9 ==> (Segment(l)[k] == '/' <==> k == 0 || k == 5 || k == 8)
    ensures Segment(l)[1] == 'b' && Segment(l)[6] != 'b'
  {
    match l
    case Ru => assert Segment(l) == "/blog/ru/";
    case En => assert Segment(l) == "/blog/en/";
    case Uz => assert Segment(l) == "/blog/uz/";
  }

  /** A path without the source segment is left as it is. */
  lemma TargetPathWithoutSegment(path: string, src: Locale, tgt: Locale)
    requires !Contains(path, Segment(src))
    ensures GetTargetPath(path, src, tgt) == path
  {
  }

  /** Where the target path differs from the source path: exactly the nine
      characters of the first source segment. */
  lemma TargetPathShape(path: string, src: Locale, tgt: Locale)
    requires Contains(path, Segment(src))
    ensures var i := Find(path, Segment(src)).value;
            var q := GetTargetPath(path, src, tgt);
            && |q| == |path| && i + 9 <= |path|
            && q[..i] == path[..i] && q[i..i + 9] == Segment(tgt) && q[i + 9..] == path[i + 9..]
            && (forall d :: 0 <= d < i || i + 9 <= d < |q| ==> q[d] == path[d])
            && forall j :: 0 <= j < i ==> !OccursAt(path, Segment(src), j)
  {
    SegmentFacts(src);
    SegmentFacts(tgt);
    var i := Find(path, Segment(src)).value;
    var q := GetTargetPath(path, src, tgt);
    assert q == path[..i] + Segment(tgt) + path[i + 9..];
  }

  /** `getTargetPath` keeps the file name. */
  lemma {:induction false} TargetPathKeepsFilename(path: string, src: Locale, tgt: Locale)
    ensures Basename(GetTargetPath(path, src, tgt)) == Basename(path)
  {
    if Contains(path, Segment(src)) {
      SegmentFacts(src);
      SegmentFacts(tgt);
      var i := Find(path, Segment(src)).value;
      var rest := path[i + 9..];
      assert path[i..i + 9] == Segment(src);
      assert path == (path[..i] + path[i..i + 9]) + rest;
      assert GetTargetPath(path, src, tgt) == (path[..i] + Segment(tgt)) + rest;
      BasenameOfConcat(path[..i] + Segment(src), rest);
      BasenameOfConcat(path[..i] + Segment(tgt), rest);
    }
  }

  /** A '/' in a string lies before any ending that has none. */
  lemma SlashBeforeSuffix(s: string, suffix: string, p: int)
    requires EndsWith(s, suffix) && '/' !in suffix && 0 <= p < |s| && s[p] == '/'
    ensures p < |s| - |suffix|
  {
    var e := |s| - |suffix|;
    assert forall d :: e <= d < |s| ==> s[d] == suffix[d - e];
  }

  /** A string that agrees with `s` from index `k` on, where `k` is before
      the ending, has the same ending. */
  lemma SameTailSameSuffix(s: string, q: string, k: int, suffix: string)
    requires EndsWith(s, suffix) && |q| == |s| && 0 <= k <= |s| - |suffix| && q[k..] == s[k..]
    ensures EndsWith(q, suffix)
  {
    var e := |s| - |suffix|;
    assert q[e..] == q[k..][e - k..] && s[e..] == s[k..][e - k..];
  }

  /** `getTargetPath` keeps any ending without a '/', such as `.md`: the
      segment it rewrites ends in '/' and so lies before that ending. */
  lemma {:induction false} TargetPathKeepsSuffix(path: string, src: Locale, tgt: Locale, suffix: string)
    requires EndsWith(path, suffix) && '/' !in suffix
    ensures EndsWith(GetTargetPath(path, src, tgt), suffix)
  {
    if Contains(path, Segment(src)) {
      var i := Find(path, Segment(src)).value;
      SegmentFacts(src);
      assert path[i + 8] == path[i..i + 9][8];
      SlashBeforeSuffix(path, suffix, i + 8);
      TargetPathShape(path, src, tgt);
      SameTailSameSuffix(path, GetTargetPath(path, src, tgt), i + 9, suffix);
    } else {
      TargetPathWithoutSegment(path, src, tgt);
    }
  }

  /** The mirrors of one source are pairwise distinct and distinct from the
      source itself. */
  lemma {:induction false} TargetPathsDistinct(path: string, src: Locale, t1: Locale, t2: Locale)
    requires Contains(path, Segment(src))
    ensures GetTargetPath(path, src, t1) == GetTargetPath(path, src, t2) <==> t1 == t2
  {
    if t1 != t2 {
      TargetPathShape(path, src, t1);
      TargetPathShape(path, src, t2);
      var i := Find(path, Segment(src)).value;
      var q1 := GetTargetPath(path, src, t1);
      var q2 := GetTargetPath(path, src, t2);
      assert q1[i..i + 9] != q2[i..i + 9] by {
        assert Segment(t1)[6..8] != Segment(t2)[6..8];
      }
    }
  }

  /** The mirror path is never the source path. */
  lemma TargetPathIsNotSource(path: string, src: Locale, tgt: Locale)
    requires Contains(path, Segment(src)) && tgt != src
    ensures GetTargetPath(path, src, tgt) != path
  {
    TargetPathsDistinct(path, src, tgt, src);
    TargetPathShape(path, src, src);
    var i := Find(path, Segment(src)).value;
    assert GetTargetPath(path, src, src) == path[..i] + path[i..i + 9] + path[i + 9..];
  }

  /** An occurrence of a segment that overlaps a later one starts exactly
      eight characters before it: the only '/' inside a segment that could be
      the later one's leading '/' is its last character. */
  lemma SegmentOverlap(q: string, t: Locale, i: int, j: int)
    requires OccursAt(q, Segment(t), i) && 0 <= j < i < j + 9
    ensures OccursAt(q, Segment(t), j) ==> i == j + 8
  {
    SegmentSlashes(t);
    OccursAtChars(q, Segment(t), i);
    if OccursAt(q, Segment(t), j) {
      OccursAtChars(q, Segment(t), j);
      var d := i - j;
      assert Segment(t)[d] == q[j + d] == q[i + 0] == '/';
      assert q[j + 6] == Segment(t)[6] && q[i + 1] == 'b';
    }
  }

  /** Before the first source segment, the target path has no target
      segment when the source path had none. */
  lemma NoEarlierSegment(path: string, src: Locale, tgt: Locale, j: int)
    requires Contains(path, Segment(src)) && !Contains(path, Segment(tgt))
    requires 0 <= j < Find(path, Segment(src)).value
    ensures !OccursAt(GetTargetPath(path, src, tgt), Segment(tgt), j)
  {
    SegmentFacts(src);
    SegmentFacts(tgt);
    TargetPathShape(path, src, tgt);
    var i := Find(path, Segment(src)).value;
    var q := GetTargetPath(path, src, tgt);
    ContainsIff(path, Segment(tgt));
    assert !OccursAt(path, Segment(tgt), j);
    assert forall e :: 0 <= e < i ==> q[e] == path[e];
    if j + 9 <= i {
      assert q[j..j + 9] == path[j..j + 9];
    } else {
      assert OccursAt(q, Segment(tgt), i);
      SegmentOverlap(q, tgt, i, j);
      if i == j + 8 {
        OccursAtChars(q, Segment(tgt), i);
        assert path[i..i + 9] == Segment(src);
        OccursAtChars(path, Segment(src), i);
        assert q[i + 0] == '/' && path[i + 0] == '/';
        assert forall e :: j <= e < j + 9 ==> q[e] == path[e];
        assert q[j..j + 9] == path[j..j + 9];
      }
    }
  }

  /** Mapping a path to a locale that does not occur in it and back gives the
      path again. */
  lemma {:induction false} TargetPathRoundTrip(path: string, src: Locale, tgt: Locale)
    requires Contains(path, Segment(src)) && !Contains(path, Segment(tgt))
    ensures GetTargetPath(GetTargetPath(path, src, tgt), tgt, src) == path
  {
    SegmentFacts(src);
    SegmentFacts(tgt);
    TargetPathShape(path, src, tgt);
    var i := Find(path, Segment(src)).value;
    var q := GetTargetPath(path, src, tgt);
    assert OccursAt(q, Segment(tgt), i);
    forall j | 0 <= j < i ensures !OccursAt(q, Segment(tgt), j) {
      NoEarlierSegment(path, src, tgt, j);
    }
    FindIsFirst(q, Segment(tgt), i);
    var back := GetTargetPath(q, tgt, src);
    assert back == q[..i] + Segment(src) + q[i + 9..];
    assert path[i..i + 9] == Segment(src);
    assert path == path[..i] + path[i..i + 9] + path[i + 9..];
  }

  /** The facts about a mirror path that the watcher relies on when the mirror
      shows up as a file of its own: it is a Markdown path, it is not the
      source, and mapping it back gives the source. */
  lemma MirrorPathFacts(path: string, src: Locale, tgt: Locale)
    requires Contains(path, Segment(src)) && !Contains(path, Segment(tgt)) && EndsWith(path, ".md")
    ensures var m := GetTargetPath(path, src, tgt);
            EndsWith(m, ".md") && m != path && GetTargetPath(m, tgt, src) == path
  {
    TargetPathsDistinct(path, src, tgt, src);
    TargetPathIsNotSource(path, src, tgt);
    TargetPathKeepsSuffix(path, src, tgt, ".md");
    TargetPathRoundTrip(path, src, tgt);
  }

  /** A path with a `/blog/ru/` segment anywhere is a `ru` path. */
  lemma DetectsRu(s: string, i: int)
    requires OccursAt(s, Segment(Ru), i)
    ensures DetectLocale(s) == Some(Ru)
  {
    ContainsIff(s, Segment(Ru));
  }

  /** `getTargetPath` rewrites only the first `/blog/<src>/`, so a post whose
      path holds that segment twice keeps one in its mirror: mirrored into
      `en`, the `ru` post `a/blog/ru/b/blog/ru/p.md` lands at
      `a/blog/en/b/blog/ru/p.md`, which is still detected as `ru`. */
  lemma MirrorMayStayInSourceLocale()
    ensures var path := "a" + Segment(Ru) + "b" + Segment(Ru) + "p.md";
            && DetectLocale(path) == Some(Ru)
            && GetTargetPath(path, Ru, En) == "a" + Segment(En) + "b" + Segment(Ru) + "p.md"
            && DetectLocale(GetTargetPath(path, Ru, En)) == Some(Ru)
  {
    var rest := "b" + Segment(Ru) + "p.md";
    var path := "a" + Segment(Ru) + rest;
    var out := "a" + Segment(En) + rest;
    assert path == "a" + Segment(Ru) + "b" + Segment(Ru) + "p.md";
    assert out == "a" + Segment(En) + "b" + Segment(Ru) + "p.md";
    assert path[1..10] == Segment(Ru);
    DetectsRu(path, 1);
    assert path[0] == 'a';
    FindIsFirst(path, Segment(Ru), 1);
    assert path[..1] == "a" && path[10..] == rest;
    assert rest[1..10] == Segment(Ru);
    assert out[11..20] == rest[1..10];
    DetectsRu(out, 11);
  }
}

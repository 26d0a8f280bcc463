/**
  The single-file script (scripts/translate.mjs): translate the one document
  named on the command line into the two other locales.

  The first argument is the input path. Its source locale is detected as in
  the watcher, the source is read, and for each other locale, in `LANGS`
  order, the service is called and its text written, verbatim, next to the
  input with `/blog/<src>` in the directory part replaced by `/blog/<tgt>`.
  There is no frontmatter or marker check, no stamping, no existence check on
  the target and no per-target catch: the first failed call ends the script
  with status 1, after whatever was written before it.
 */
module SingleFile {
  import opened Text
  import opened Locales
  import opened Store
  import opened Reconcile

  /** `/blog/<code>`, the pattern the script rewrites (no trailing slash). */
  function DirSegment(l: Locale): string {
    "/blog/" + Code(l)
  }

  /** `join(dirname(input).replace('/blog/<src>', '/blog/<tgt>'), basename(input))`. */
  function CliTarget(input: string, src: Locale, tgt: Locale): string {
    Join(ReplaceFirst(Dirname(input), DirSegment(src), DirSegment(tgt)), Basename(input))
  }

  /** Where the run on `input` writes the translation into each locale. */
  function CliPaths(input: string, src: Locale): Locale -> string {
    t => CliTarget(input, src, t)
  }

  /** The service, asked to translate the source into one locale. */
  type Ask = Locale -> Reply

  /** How the script ends: its exit status and the tree it leaves. */
  datatype Run = Run(status: int, files: FileMap)

  /** How many of `targets`, from the front, get an answer before the first
      failure. */
  function Answered(targets: seq<Locale>, ask: Ask): (k: nat)
    ensures k <= |targets|
    ensures forall j :: 0 <= j < k ==> ask(targets[j]).Reply?
    ensures k < |targets| ==> ask(targets[k]).Failed?
  {
    if |targets| == 0 || ask(targets[0]).Failed? then 0
    else 1 + Answered(targets[1..], ask)
  }

  /** Where the translation into each locale goes. */
  type PathOf = Locale -> string

  /** Every other locale gets an answer exactly when none of the calls
      fails. */
  lemma AnsweredOthers(src: Locale, ask: Ask)
    ensures Answered(Others(src), ask) == 2 <==> forall t :: t != src ==> ask(t).Reply?
  {
    var targets := Others(src);
    var k := Answered(targets, ask);
    if k == 2 {
      forall t | t != src ensures ask(t).Reply? {
        assert t in targets;
      }
    } else {
      assert targets[k] != src && ask(targets[k]).Failed?;
    }
  }

  /** The paths of the first `k` targets. */
  function WrittenPaths(pathOf: PathOf, targets: seq<Locale>, k: nat): set<string>
    requires k <= |targets|
  {
    set j | 0 <= j < k :: pathOf(targets[j])
  }

  /** The targets are written at pairwise different paths. */
  predicate Distinct(pathOf: PathOf, targets: seq<Locale>) {
    forall i, j :: 0 <= i < j < |targets| ==> pathOf(targets[i]) != pathOf(targets[j])
  }

  /** The first path and those of the rest. */
  lemma WrittenPathsStep(pathOf: PathOf, targets: seq<Locale>, k: nat)
    requires 0 < k <= |targets|
    ensures WrittenPaths(pathOf, targets, k) == {pathOf(targets[0])} + WrittenPaths(pathOf, targets[1..], k - 1)
  {
    forall p | p in WrittenPaths(pathOf, targets, k)
      ensures p in {pathOf(targets[0])} + WrittenPaths(pathOf, targets[1..], k - 1)
    {
      var j :| 0 <= j < k && p == pathOf(targets[j]);
      if j > 0 {
        assert targets[j] == targets[1..][j - 1];
      }
    }
    forall p | p in WrittenPaths(pathOf, targets[1..], k - 1)
      ensures p in WrittenPaths(pathOf, targets, k)
    {
      var j :| 0 <= j < k - 1 && p == pathOf(targets[1..][j]);
      assert targets[1..][j] == targets[j + 1];
    }
  }

  /** The write loop (scripts/translate.mjs:50-58): each answer is written
      verbatim, overwriting; the first failure stops the loop with status 1. */
  function WriteMirrors(fs: FileMap, pathOf: PathOf, targets: seq<Locale>, ask: Ask, now: int): (r: Run)
    ensures r.status == (if Answered(targets, ask) == |targets| then 0 else 1)
    ensures forall p :: p !in WrittenPaths(pathOf, targets, Answered(targets, ask)) ==>
              (p in r.files <==> p in fs) && (p in fs ==> r.files[p] == fs[p])
    ensures r.files.Keys == fs.Keys + WrittenPaths(pathOf, targets, Answered(targets, ask))
    decreases |targets|
  {
    if |targets| == 0 then Run(0, fs)
    else
      match ask(targets[0])
      case Failed => Run(1, fs)
      case Reply(text, _) =>
        WrittenPathsStep(pathOf, targets, Answered(targets, ask));
        WriteMirrors(fs[pathOf(targets[0]) := File(text, now)], pathOf, targets[1..], ask, now)
  }

  /** With pairwise different paths, each answered target holds its answer,
      verbatim, once the loop is over. */
  lemma {:induction false} WriteMirrorsWrites(fs: FileMap, pathOf: PathOf, targets: seq<Locale>, ask: Ask, now: int)
    requires Distinct(pathOf, targets)
    ensures var r := WriteMirrors(fs, pathOf, targets, ask, now);
            forall k :: 0 <= k < Answered(targets, ask) ==>
              r.files[pathOf(targets[k])] == File(ask(targets[k]).text, now)
    decreases |targets|
  {
    if |targets| > 0 && ask(targets[0]).Reply? {
      var path := pathOf(targets[0]);
      var fs1 := fs[path := File(ask(targets[0]).text, now)];
      var k := Answered(targets, ask);
      assert Distinct(pathOf, targets[1..]) by {
        forall i, j | 0 <= i < j < |targets[1..]|
          ensures pathOf(targets[1..][i]) != pathOf(targets[1..][j])
        {
          assert targets[1..][i] == targets[i + 1] && targets[1..][j] == targets[j + 1];
        }
      }
      WriteMirrorsWrites(fs1, pathOf, targets[1..], ask, now);
      var r := WriteMirrors(fs, pathOf, targets, ask, now);
      assert r == WriteMirrors(fs1, pathOf, targets[1..], ask, now);
      forall j | 0 <= j < k - 1 ensures pathOf(targets[1..][j]) != path {
        assert targets[1..][j] == targets[j + 1];
      }
      assert path !in WrittenPaths(pathOf, targets[1..], k - 1);
      forall k' | 0 < k' < k
        ensures r.files[pathOf(targets[k'])] == File(ask(targets[k']).text, now)
      {
        assert targets[k'] == targets[1..][k' - 1];
      }
    }
  }

  /** A path none of the targets is written at keeps its file. */
  lemma WriteMirrorsKeeps(fs: FileMap, pathOf: PathOf, targets: seq<Locale>, ask: Ask, now: int, p: string)
    requires forall t :: t in targets ==> pathOf(t) != p
    ensures var r := WriteMirrors(fs, pathOf, targets, ask, now);
            (p in r.files <==> p in fs) && (p in fs ==> r.files[p] == fs[p])
  {
    forall j | 0 <= j < Answered(targets, ask) ensures pathOf(targets[j]) != p {
      assert targets[j] in targets;
    }
  }

  /** The whole script on the argument list `args` (`process.argv` from index
      2 on): a missing or empty path, a path with no locale segment and an
      unreadable input each end it with status 1 before anything is written. */
  function RunCli(args: seq<string>, fs: FileMap, ask: Ask, now: int): (r: Run)
    ensures |args| == 0 || args[0] == "" ==> r == Run(1, fs)
    ensures |args| > 0 && DetectLocale(args[0]).None? ==> r == Run(1, fs)
    ensures |args| > 0 && args[0] !in fs ==> r == Run(1, fs)
    ensures r.status == 0 <==>
              && |args| > 0 && args[0] != "" && args[0] in fs
              && DetectLocale(args[0]).Some?
              && forall t :: t != DetectLocale(args[0]).value ==> ask(t).Reply?
  {
    if |args| == 0 || args[0] == "" then Run(1, fs)
    else
      var input := args[0];
      match DetectLocale(input)
      case None => Run(1, fs)
      case Some(src) =>
        if input !in fs then Run(1, fs)
        else
          var targets := Others(src);
          var r := WriteMirrors(fs, CliPaths(input, src), targets, ask, now);
          AnsweredOthers(src, ask);
          r
  }

  /** The input's locale segment survives in its directory part: the last
      '/' comes at or after the segment's closing '/', so `dirname` keeps the
      `/blog/<src>` that `replace` looks for. */
  lemma SegmentInDirname(input: string, src: Locale)
    requires Contains(input, Segment(src))
    ensures LastIndexOf(input, '/').Some? && LastIndexOf(input, '/').value > 0
    ensures LastIndexOf(input, '/').value >= Find(input, Segment(src)).value + 8
    ensures var q := LastIndexOf(input, '/').value;
            && Dirname(input) == input[..q] && Basename(input) == input[q + 1..]
            && Find(input[..q], DirSegment(src)).Some?
  {
    var i := Find(input, Segment(src)).value;
    OccursAtChars(input, Segment(src), i);
    SegmentSlashes(src);
    assert input[i + 8] == '/';
    var q := LastIndexOf(input, '/').value;
    assert q >= i + 8;
    var d := input[..q];
    assert Segment(src) == DirSegment(src) + "/";
    assert d[i..i + 8] == DirSegment(src) by {
      forall e | 0 <= e < 8 ensures d[i..i + 8][e] == DirSegment(src)[e] {
        assert d[i..i + 8][e] == input[i + e] == Segment(src)[e];
      }
    }
    assert OccursAt(d, DirSegment(src), i);
  }

  /** The target path is the input with its first `/blog/<src>` before the
      last '/' rewritten to `/blog/<tgt>`; everything else stays in place. */
  lemma CliTargetShape(input: string, src: Locale, tgt: Locale)
    requires Contains(input, Segment(src))
    ensures var d := Dirname(input);
            Find(d, DirSegment(src)).Some? &&
            var j := Find(d, DirSegment(src)).value;
            && j + 8 <= |input|
            && input[j..j + 8] == DirSegment(src)
            && CliTarget(input, src, tgt) == input[..j] + DirSegment(tgt) + input[j + 8..]
  {
    SegmentInDirname(input, src);
    var q := LastIndexOf(input, '/').value;
    var d := input[..q];
    var j := Find(d, DirSegment(src)).value;
    assert OccursAt(d, DirSegment(src), j);
    assert input[j..j + 8] == d[j..j + 8];
    var b := input[q + 1..];
    var x := ReplaceFirst(d, DirSegment(src), DirSegment(tgt));
    assert x == d[..j] + DirSegment(tgt) + d[j + 8..];
    assert CliTarget(input, src, tgt) == x + [input[q]] + b;
    SpliceBeforeSeparator(input, j, 8, q, DirSegment(tgt));
  }

  /** Different locales have different directory segments. */
  lemma DirSegmentInjective(t1: Locale, t2: Locale)
    ensures |DirSegment(t1)| == 8
    ensures DirSegment(t1) == DirSegment(t2) ==> t1 == t2
  {
    if t1 != t2 {
      assert DirSegment(t1)[6] != DirSegment(t2)[6];
    }
  }

  /** Splicing two strings of one length over the same place gives the same
      result only for equal strings, and splicing back what was there gives
      the original. */
  lemma SpliceCompare(s: string, j: int, a: string, b: string)
    requires 0 <= j && j + |a| <= |s| && |a| == |b|
    ensures s[..j] + a + s[j + |a|..] == s[..j] + b + s[j + |a|..] ==> a == b
    ensures s[j..j + |a|] == a ==> s[..j] + a + s[j + |a|..] == s
  {
    var x := s[..j] + a + s[j + |a|..];
    var y := s[..j] + b + s[j + |a|..];
    assert x[j..j + |a|] == a && y[j..j + |a|] == b;
    if s[j..j + |a|] == a {
      assert s == s[..j] + s[j..j + |a|] + s[j + |a|..];
    }
  }

  /** With its own locale as target the rewrite gives the input back, and
      different locales give different paths: the two writes of a run never
      collide and never touch the source. */
  lemma CliTargetsDistinct(input: string, src: Locale, t1: Locale, t2: Locale)
    requires Contains(input, Segment(src))
    ensures CliTarget(input, src, src) == input
    ensures CliTarget(input, src, t1) == CliTarget(input, src, t2) <==> t1 == t2
  {
    CliTargetShape(input, src, src);
    CliTargetShape(input, src, t1);
    CliTargetShape(input, src, t2);
    var j := Find(Dirname(input), DirSegment(src)).value;
    DirSegmentInjective(t1, t2);
    DirSegmentInjective(src, t2);
    SpliceCompare(input, j, DirSegment(t1), DirSegment(t2));
    SpliceCompare(input, j, DirSegment(src), DirSegment(src));
  }

  /** The two paths a run on `input` writes differ from each other and from
      the input. */
  lemma CliPathsDistinct(input: string, src: Locale)
    requires Contains(input, Segment(src))
    ensures Distinct(CliPaths(input, src), Others(src))
    ensures forall t :: t != src ==> CliTarget(input, src, t) != input
  {
    var targets := Others(src);
    CliTargetsDistinct(input, src, targets[0], targets[1]);
    assert CliPaths(input, src)(targets[0]) != CliPaths(input, src)(targets[1]);
    forall t | t != src ensures CliTarget(input, src, t) != input {
      CliTargetsDistinct(input, src, t, src);
    }
  }

  /** A run that reads its input calls `WriteMirrors` with pairwise
      different paths, none of them the input. */
  lemma CliRunSetup(args: seq<string>, fs: FileMap, ask: Ask, now: int, src: Locale)
    requires |args| > 0 && args[0] in fs && DetectLocale(args[0]) == Some(src)
    ensures RunCli(args, fs, ask, now) == WriteMirrors(fs, CliPaths(args[0], src), Others(src), ask, now)
    ensures Distinct(CliPaths(args[0], src), Others(src))
    ensures forall t :: t != src ==> CliTarget(args[0], src, t) != args[0]
  {
    CliPathsDistinct(args[0], src);
  }

  /** Each locale answered, in `LANGS` order up to the first failure, has its
      mirror overwritten with the answer verbatim, unstamped; the locales
      from the failure on are neither created nor changed. */
  lemma RunCliWrites(args: seq<string>, fs: FileMap, ask: Ask, now: int, src: Locale)
    requires |args| > 0 && args[0] in fs && DetectLocale(args[0]) == Some(src)
    ensures var r := RunCli(args, fs, ask, now); var targets := Others(src);
            && (forall k :: 0 <= k < Answered(targets, ask) ==>
                  r.files[CliTarget(args[0], src, targets[k])] == File(ask(targets[k]).text, now))
            && (forall k :: Answered(targets, ask) <= k < |targets| ==>
                  var p := CliTarget(args[0], src, targets[k]);
                  (p in r.files <==> p in fs) && (p in fs ==> r.files[p] == fs[p]))
  {
    CliRunSetup(args, fs, ask, now, src);
    var pathOf := CliPaths(args[0], src);
    var targets := Others(src);
    WriteMirrorsWrites(fs, pathOf, targets, ask, now);
    forall m | Answered(targets, ask) <= m < |targets|
      ensures pathOf(targets[m]) !in WrittenPaths(pathOf, targets, Answered(targets, ask))
    {
    }
  }

  /** The input and every path that is not a mirror of it are untouched, and
      a failure on the first call leaves the tree as it was. */
  lemma RunCliKeeps(args: seq<string>, fs: FileMap, ask: Ask, now: int, src: Locale)
    requires |args| > 0 && args[0] in fs && DetectLocale(args[0]) == Some(src)
    ensures var r := RunCli(args, fs, ask, now);
            && r.files[args[0]] == fs[args[0]]
            && (forall p :: (forall t :: t != src ==> p != CliTarget(args[0], src, t)) ==>
                  (p in r.files <==> p in fs) && (p in fs ==> r.files[p] == fs[p]))
            && (ask(Others(src)[0]).Failed? ==> r.files == fs)
  {
    CliRunSetup(args, fs, ask, now, src);
    var pathOf := CliPaths(args[0], src);
    var targets := Others(src);
    var r := RunCli(args, fs, ask, now);
    forall p | (forall t :: t != src ==> p != CliTarget(args[0], src, t))
      ensures (p in r.files <==> p in fs) && (p in fs ==> r.files[p] == fs[p])
    {
      WriteMirrorsKeeps(fs, pathOf, targets, ask, now, p);
    }
    WriteMirrorsKeeps(fs, pathOf, targets, ask, now, args[0]);
    if ask(targets[0]).Failed? {
      assert WriteMirrors(fs, pathOf, targets, ask, now) == Run(1, fs);
    }
  }

  /** In a locale directory of the blog tree the rewrite swaps the locale. */
  lemma DirRewrite(src: Locale, tgt: Locale)
    ensures ReplaceFirst(Dir(src), DirSegment(src), DirSegment(tgt)) == Dir(tgt)
  {
    var prefix := Dir(src);
    assert prefix == "src/content" + DirSegment(src);
    assert prefix[..11] == "src/content";
    SegmentSlashes(src);
    forall j | 0 <= j < 11 ensures !OccursAt(prefix, DirSegment(src), j) {
      assert prefix[j] == prefix[..11][j];
      if j == 10 {
        MismatchAt(prefix, DirSegment(src), j, 1);
      } else if j == 3 {
        assert prefix[4] == prefix[..11][4];
        MismatchAt(prefix, DirSegment(src), j, 1);
      } else {
        MismatchAt(prefix, DirSegment(src), j, 0);
      }
    }
    assert prefix[11..19] == DirSegment(src);
    FindIsFirst(prefix, DirSegment(src), 11);
  }

  /** On a post of the blog tree the script writes where the watcher and the
      batch script do. */
  lemma CliEntryAgrees(src: Locale, tgt: Locale, n: string)
    requires '/' !in n
    ensures CliTarget(EntryPath(src, n), src, tgt) == EntryPath(tgt, n)
    ensures CliTarget(EntryPath(src, n), src, tgt) == GetTargetPath(EntryPath(src, n), src, tgt)
  {
    JoinSplits(Dir(src), n);
    DirRewrite(src, tgt);
    EntryMirrorAgrees(src, tgt, n);
  }

  /** The script rewrites the first `/blog/<src>` of the directory even when
      it is only the start of a longer name, so a post under a directory such
      as `blog/rux/blog/ru/` is "translated" into `blog/enx/blog/ru/`: a path
      still in the `ru` tree, where the watcher would take the unstamped
      result for a new Russian source. */
  lemma CliTargetMayStayInSourceLocale()
    ensures var input := "a/blog/rux/blog/ru/p.md";
            && DetectLocale(input) == Some(Ru)
            && CliTarget(input, Ru, En) == "a/blog/enx/blog/ru/p.md"
            && DetectLocale(CliTarget(input, Ru, En)) == Some(Ru)
  {
    var input := "a/blog/rux/blog/ru/p.md";
    var out := "a/blog/enx/blog/ru/p.md";
    assert DirSegment(En) == "/blog/en";
    assert input[..1] == "a" && input[9..] == "x/blog/ru/p.md";
    assert "a" + "/blog/en" + "x/blog/ru/p.md" == out;
    assert out[10..19] == Segment(Ru);
    DetectsRu(out, 10);
    RuxPathFacts();
    CliTargetShape(input, Ru, En);
  }

  /** The example path is a `ru` path whose directory part has its first
      `/blog/ru` at index 1, inside `/blog/rux`. */
  lemma RuxPathFacts()
    ensures DetectLocale("a/blog/rux/blog/ru/p.md") == Some(Ru)
    ensures Find(Dirname("a/blog/rux/blog/ru/p.md"), DirSegment(Ru)) == Some(1)
  {
    var input := "a/blog/rux/blog/ru/p.md";
    var d := input[..18];
    assert d == "a/blog/rux/blog/ru";
    assert d[1..9] == "/blog/ru";
    assert DirSegment(Ru) == "/blog/ru";
    assert input[10..19] == Segment(Ru);
    DetectsRu(input, 10);
    LastIndexOfIs(input, '/', 18);
    MismatchAt(d, DirSegment(Ru), 0, 0);
    FindIsFirst(d, DirSegment(Ru), 1);
  }
}

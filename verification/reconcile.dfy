/**
  The batch reconciler (scripts/translate-all.mjs): one pass per locale of
  `LANGS`, in order. A pass lists the `.md` entries of the locale directory
  and, for every entry that has a frontmatter block and no marker, translates
  it into each other locale whose directory has no file of that name yet.
  Existing files are never overwritten.

  The translation service is an oracle indexed by (source locale, file name,
  target locale): within one run each such triple is asked at most once, and
  the source text it is asked about is the file's content, which the run never
  changes. The order in which `readdirSync` lists a directory is not fixed, so
  a pass takes its entries in an arbitrary order; `PassResultIsUnique` shows
  the result does not depend on it.
 */
module Reconcile {
  import opened Text
  import opened Frontmatter
  import opened Locales
  import opened Store

  /** The oracle: what the service answers for one (source, file, target). */
  type Oracle = (Locale, string, Locale) -> Reply

  /** `join(BLOG_DIR, lang)`. */
  function Dir(l: Locale): string {
    BlogDir + "/" + Code(l)
  }

  /** `join(BLOG_DIR, lang, file)`. */
  function EntryPath(l: Locale, n: string): string {
    Join(Dir(l), n)
  }

  lemma EntryPathLayout(l: Locale, n: string)
    ensures |EntryPath(l, n)| == 20 + |n|
    ensures EntryPath(l, n)[..20] == BlogDir + "/" + Code(l) + "/"
    ensures EntryPath(l, n)[20..] == n
  {
  }

  /** Different (locale, name) pairs live at different paths. */
  lemma EntryPathInjective(l1: Locale, n1: string, l2: Locale, n2: string)
    ensures EntryPath(l1, n1) == EntryPath(l2, n2) <==> l1 == l2 && n1 == n2
  {
    EntryPathLayout(l1, n1);
    EntryPathLayout(l2, n2);
    if EntryPath(l1, n1) == EntryPath(l2, n2) {
      var p := EntryPath(l1, n1);
      assert Code(l1) == p[..20][17..19] == Code(l2);
    }
  }

  /** The locale directory a path of the blog tree lies in (`ru` when its
      code is not `en` or `uz`). */
  function EntryLocale(p: string): Locale {
    if |p| >= 19 && p[17] == 'e' && p[18] == 'n' then En
    else if |p| >= 19 && p[17] == 'u' && p[18] == 'z' then Uz
    else Ru
  }

  /** The file name of a path of the blog tree. */
  function EntryName(p: string): string {
    if |p| >= 20 then p[20..] else ""
  }

  /** An entry path names its locale and file. */
  lemma EntryOfPath(l: Locale, n: string)
    ensures EntryLocale(EntryPath(l, n)) == l && EntryName(EntryPath(l, n)) == n
  {
    EntryPathLayout(l, n);
    var p := EntryPath(l, n);
    assert p[17] == p[..20][17] && p[18] == p[..20][18];
  }

  /** A path that is in `after` but was not in `before`. */
  predicate Added(before: FileMap, after: FileMap, p: string) {
    p in after && p !in before
  }

  /** A file that a pass of `src` over `fs` writes: the mirror, in the locale
      its path names, of an entry it wanted translated. */
  predicate WrittenFor(fs: FileMap, src: Locale, p: string) {
    p == EntryPath(EntryLocale(p), EntryName(p)) && Wanted(fs, src, EntryName(p), EntryLocale(p))
  }

  /** An entry `readdirSync(dir).filter(f => f.endsWith('.md'))` lists. */
  predicate Candidate(fs: FileMap, l: Locale, n: string) {
    '/' !in n && EndsWith(n, ".md") && EntryPath(l, n) in fs
  }

  /** An entry that survives both `continue`s: it has a frontmatter block and
      no marker. */
  predicate IsSource(fs: FileMap, l: Locale, n: string) {
    && Candidate(fs, l, n)
    && ParseFrontmatter(fs[EntryPath(l, n)].content).Some?
    && !HasTranslatedFlag(fs[EntryPath(l, n)].content)
  }

  /** A translation the pass of `src` attempts: a source entry whose mirror in
      another locale does not exist yet. */
  predicate Wanted(fs: FileMap, src: Locale, n: string, tgt: Locale) {
    IsSource(fs, src, n) && tgt != src && EntryPath(tgt, n) !in fs
  }

  /** What a pass of `src` over `before` may produce, independent of listing
      order: nothing already there changes; each wanted mirror exists
      afterwards exactly when its call returned text, and then holds that text
      stamped, whatever the stop reason; nothing else appears. */
  ghost predicate IsPassResult(before: FileMap, after: FileMap, src: Locale, oracle: Oracle, now: int) {
    && (forall p :: p in before ==> p in after && after[p] == before[p])
    && (forall n, tgt :: Wanted(before, src, n, tgt) ==>
          && (EntryPath(tgt, n) in after <==> oracle(src, n, tgt).Reply?)
          && (oracle(src, n, tgt).Reply? ==>
                after[EntryPath(tgt, n)] == File(AddTranslatedFlag(oracle(src, n, tgt).text), now)))
    && (forall p {:trigger Added(before, after, p)} :: Added(before, after, p) ==> WrittenFor(before, src, p))
  }

  /** The `.md` entries of a locale directory. */
  function Listing(fs: FileMap, l: Locale): (r: set<string>)
    ensures forall n :: n in r <==> Candidate(fs, l, n)
  {
    var prefix := Dir(l) + "/";
    var r := set p | p in fs && StartsWith(p, prefix) && '/' !in p[20..] && EndsWith(p[20..], ".md") :: p[20..];
    forall n | Candidate(fs, l, n) ensures n in r {
      EntryPathLayout(l, n);
      assert EntryPath(l, n)[..20] == prefix;
    }
    forall n | n in r ensures Candidate(fs, l, n) {
      var p :| p in fs && StartsWith(p, prefix) && '/' !in p[20..] && EndsWith(p[20..], ".md") && p[20..] == n;
      assert p == p[..20] + p[20..];
    }
    r
  }

  /** Growing a map by fresh keys only, in two steps, counts the new keys of
      each step. */
  lemma NewKeysAdd(a: FileMap, b: FileMap, c: FileMap)
    requires a.Keys <= b.Keys <= c.Keys
    ensures |c.Keys - a.Keys| == |c.Keys - b.Keys| + |b.Keys - a.Keys|
  {
    assert c.Keys - a.Keys == (c.Keys - b.Keys) + (b.Keys - a.Keys);
    assert (c.Keys - b.Keys) * (b.Keys - a.Keys) == {};
  }

  /** The paths of the mirrors of `n` in `targets`. */
  function MirrorsOf(n: string, targets: seq<Locale>): (r: set<string>)
    ensures forall p :: p in r <==> EntryLocale(p) in targets && p == EntryPath(EntryLocale(p), n)
    decreases |targets|
  {
    if |targets| == 0 then {}
    else
      var r := {EntryPath(targets[0], n)} + MirrorsOf(n, targets[1..]);
      EntryOfPath(targets[0], n);
      forall p | EntryLocale(p) in targets && p == EntryPath(EntryLocale(p), n) ensures p in r {
        if EntryLocale(p) != targets[0] {
          assert EntryLocale(p) in targets[1..];
        }
      }
      r
  }

  /** One iteration of the inner loop: a missing mirror is translated,
      stamped and written; a failed call is reported and skipped. Returns the
      new tree, the number of files written, and the target locale if the
      service was called. */
  function Attempt(cur: FileMap, src: Locale, n: string, tgt: Locale, oracle: Oracle, now: int)
    : (r: (FileMap, nat, bool))
    ensures forall p :: p in cur ==> p in r.0 && r.0[p] == cur[p]
    ensures EntryPath(tgt, n) !in cur ==>
              && (EntryPath(tgt, n) in r.0 <==> oracle(src, n, tgt).Reply?)
              && (oracle(src, n, tgt).Reply? ==>
                    r.0[EntryPath(tgt, n)] == File(AddTranslatedFlag(oracle(src, n, tgt).text), now))
    ensures r.0.Keys - cur.Keys <= {EntryPath(tgt, n)}
    ensures r.1 == |r.0.Keys - cur.Keys|
    ensures r.2 <==> EntryPath(tgt, n) !in cur
  {
    var path := EntryPath(tgt, n);
    if path in cur then (cur, 0, false)
    else match oracle(src, n, tgt)
      case Failed => (cur, 0, true)
      case Reply(text, _) =>
        var next := cur[path := File(AddTranslatedFlag(text), now)];
        assert next.Keys - cur.Keys == {path};
        (next, 1, true)
  }

  /** A step that adds at most the mirror in `t0` leaves the mirrors of `n`
      in every other locale as they were. */
  lemma OtherMirrorsUntouched(cur: FileMap, next: FileMap, n: string, t0: Locale)
    requires cur.Keys <= next.Keys && next.Keys - cur.Keys <= {EntryPath(t0, n)}
    ensures forall t :: t != t0 ==> (EntryPath(t, n) in next <==> EntryPath(t, n) in cur)
  {
    forall t | t != t0 ensures EntryPath(t, n) in next <==> EntryPath(t, n) in cur {
      EntryPathInjective(t, n, t0, n);
      assert EntryPath(t, n) !in next.Keys - cur.Keys;
    }
  }

  /** The first step of the inner loop followed by the rest: files are only
      added, only mirrors of `n` in `targets`, and the counts add up. */
  lemma StepThenRest(cur: FileMap, next: FileMap, last: FileMap, n: string, targets: seq<Locale>)
    requires |targets| > 0
    requires forall p :: p in cur ==> p in next && next[p] == cur[p]
    requires next.Keys - cur.Keys <= {EntryPath(targets[0], n)}
    requires forall p :: p in next ==> p in last && last[p] == next[p]
    requires last.Keys - next.Keys <= MirrorsOf(n, targets[1..])
    ensures forall p :: p in cur ==> p in last && last[p] == cur[p]
    ensures last.Keys - cur.Keys <= MirrorsOf(n, targets)
    ensures |last.Keys - cur.Keys| == |next.Keys - cur.Keys| + |last.Keys - next.Keys|
  {
    assert MirrorsOf(n, targets) == {EntryPath(targets[0], n)} + MirrorsOf(n, targets[1..]);
    NewKeysAdd(cur, next, last);
  }

  /** The calls of the inner loop are those of its first step and those of
      the rest, which sees the mirror the first step wrote. */
  lemma AskedAdd(cur: FileMap, next: FileMap, n: string, targets: seq<Locale>,
                 called: bool, later: set<Locale>)
    requires |targets| > 0
    requires cur.Keys <= next.Keys && next.Keys - cur.Keys <= {EntryPath(targets[0], n)}
    requires called <==> EntryPath(targets[0], n) !in cur
    requires forall t :: t in later <==> t in targets[1..] && EntryPath(t, n) !in next
    ensures forall t :: t in Record(called, targets[0], later) <==> t in targets && EntryPath(t, n) !in cur
  {
    OtherMirrorsUntouched(cur, next, n, targets[0]);
    forall t | t in targets && t != targets[0] ensures t in targets[1..] {
    }
  }

  /** The calls made so far, with `t` in front when the step called for it. */
  function Record(called: bool, t: Locale, later: set<Locale>): set<Locale> {
    if called then {t} + later else later
  }

  /** The inner loop over the other locales for one source entry. Returns the
      new tree and the number of files written. */
  function TranslateEntry(cur: FileMap, src: Locale, n: string, targets: seq<Locale>, oracle: Oracle, now: int)
    : (r: (FileMap, nat))
    ensures forall p :: p in cur ==> p in r.0 && r.0[p] == cur[p]
    ensures r.0.Keys - cur.Keys <= MirrorsOf(n, targets)
    ensures r.1 == |r.0.Keys - cur.Keys|
    decreases |targets|
  {
    if |targets| == 0 then (cur, 0)
    else
      var step := Attempt(cur, src, n, targets[0], oracle, now);
      var rest := TranslateEntry(step.0, src, n, targets[1..], oracle, now);
      StepThenRest(cur, step.0, rest.0, n, targets);
      (rest.0, step.1 + rest.1)
  }

  /** The target locales the same loop calls the service for: it runs the
      iterations of `TranslateEntry`, each seeing what the earlier ones
      wrote, and keeps the calls instead of the tree. */
  function Asks(cur: FileMap, src: Locale, n: string, targets: seq<Locale>, oracle: Oracle, now: int)
    : set<Locale>
    decreases |targets|
  {
    if |targets| == 0 then {}
    else
      var step := Attempt(cur, src, n, targets[0], oracle, now);
      Record(step.2, targets[0], Asks(step.0, src, n, targets[1..], oracle, now))
  }

  /** The inner loop calls the service for exactly the targets whose mirror
      was missing when it started. */
  lemma {:induction false} TranslateEntryAsks(cur: FileMap, src: Locale, n: string, targets: seq<Locale>,
                                              oracle: Oracle, now: int)
    ensures forall t :: t in Asks(cur, src, n, targets, oracle, now) <==>
                        t in targets && EntryPath(t, n) !in cur
    decreases |targets|
  {
    if |targets| > 0 {
      var step := Attempt(cur, src, n, targets[0], oracle, now);
      TranslateEntryAsks(step.0, src, n, targets[1..], oracle, now);
      AskedAdd(cur, step.0, n, targets, step.2, Asks(step.0, src, n, targets[1..], oracle, now));
    }
  }

  /** Later iterations of the inner loop leave the mirror of an earlier
      target alone. */
  lemma {:induction false} LaterTargetsKeep(cur: FileMap, src: Locale, n: string, targets: seq<Locale>,
                                            oracle: Oracle, now: int, tgt: Locale)
    requires tgt !in targets
    ensures var r := TranslateEntry(cur, src, n, targets, oracle, now).0;
            EntryPath(tgt, n) in r <==> EntryPath(tgt, n) in cur
  {
    var r := TranslateEntry(cur, src, n, targets, oracle, now).0;
    var p := EntryPath(tgt, n);
    if p in r && p !in cur {
      assert p in r.Keys - cur.Keys;
      assert p in MirrorsOf(n, targets);
      EntryPathInjective(EntryLocale(p), n, tgt, n);
    }
  }

  /** What the inner loop does to the mirror in one target locale: a missing
      mirror exists afterwards exactly when its call returned text, and then
      holds that text stamped. */
  lemma {:induction false} TranslateEntryWrites(cur: FileMap, src: Locale, n: string, targets: seq<Locale>,
                                                oracle: Oracle, now: int, tgt: Locale)
    requires forall i, j :: 0 <= i < j < |targets| ==> targets[i] != targets[j]
    requires tgt in targets && EntryPath(tgt, n) !in cur
    ensures var r := TranslateEntry(cur, src, n, targets, oracle, now).0;
            && (EntryPath(tgt, n) in r <==> oracle(src, n, tgt).Reply?)
            && (oracle(src, n, tgt).Reply? ==>
                  r[EntryPath(tgt, n)] == File(AddTranslatedFlag(oracle(src, n, tgt).text), now))
    decreases |targets|
  {
    if targets[0] == tgt {
      assert tgt !in targets[1..];
      FirstTargetWrites(cur, src, n, targets, oracle, now);
    } else {
      var step := Attempt(cur, src, n, targets[0], oracle, now);
      TranslateEntryUnfold(cur, src, n, targets, oracle, now);
      EntryPathInjective(targets[0], n, tgt, n);
      assert tgt in targets[1..];
      assert forall i, j :: 0 <= i < j < |targets[1..]| ==> targets[1..][i] != targets[1..][j] by {
        forall i, j | 0 <= i < j < |targets[1..]| ensures targets[1..][i] != targets[1..][j] {
          assert targets[1..][i] == targets[i + 1] && targets[1..][j] == targets[j + 1];
        }
      }
      TranslateEntryWrites(step.0, src, n, targets[1..], oracle, now, tgt);
    }
  }

  /** The first target's mirror, when missing, is written by the first step
      and left alone by the rest. */
  lemma FirstTargetWrites(cur: FileMap, src: Locale, n: string, targets: seq<Locale>, oracle: Oracle, now: int)
    requires |targets| > 0 && targets[0] !in targets[1..] && EntryPath(targets[0], n) !in cur
    ensures var r := TranslateEntry(cur, src, n, targets, oracle, now).0;
            var tgt := targets[0];
            && (EntryPath(tgt, n) in r <==> oracle(src, n, tgt).Reply?)
            && (oracle(src, n, tgt).Reply? ==>
                  r[EntryPath(tgt, n)] == File(AddTranslatedFlag(oracle(src, n, tgt).text), now))
  {
    var step := Attempt(cur, src, n, targets[0], oracle, now);
    TranslateEntryUnfold(cur, src, n, targets, oracle, now);
    LaterTargetsKeep(step.0, src, n, targets[1..], oracle, now, targets[0]);
  }

  /** The inner loop is its first step followed by the rest. */
  lemma TranslateEntryUnfold(cur: FileMap, src: Locale, n: string, targets: seq<Locale>, oracle: Oracle, now: int)
    requires |targets| > 0
    ensures TranslateEntry(cur, src, n, targets, oracle, now).0 ==
            TranslateEntry(Attempt(cur, src, n, targets[0], oracle, now).0, src, n, targets[1..], oracle, now).0
  {
  }

  /** Nothing in `before` is changed or removed in `after`. */
  ghost predicate KeepsAll(before: FileMap, after: FileMap) {
    forall p :: p in before ==> p in after && after[p] == before[p]
  }

  /** The wanted mirrors of the entries in `done` are settled as a pass
      settles them. */
  ghost predicate DoneWritten(fs: FileMap, after: FileMap, src: Locale, oracle: Oracle, now: int, done: set<string>) {
    forall n, tgt :: n in done && Wanted(fs, src, n, tgt) ==>
      && (EntryPath(tgt, n) in after <==> oracle(src, n, tgt).Reply?)
      && (oracle(src, n, tgt).Reply? ==>
            after[EntryPath(tgt, n)] == File(AddTranslatedFlag(oracle(src, n, tgt).text), now))
  }

  /** Every file added so far is a wanted mirror of an entry in `done`. */
  ghost predicate OnlyWanted(fs: FileMap, after: FileMap, src: Locale, done: set<string>) {
    forall p {:trigger Added(fs, after, p)} :: Added(fs, after, p) ==> WrittenFor(fs, src, p) && EntryName(p) in done
  }

  /** The pass of `src` after the entries in `done` have been handled: what
      `IsPassResult` says, restricted to those entries. */
  ghost predicate PassSoFar(fs: FileMap, after: FileMap, src: Locale, oracle: Oracle, now: int, done: set<string>) {
    KeepsAll(fs, after) && DoneWritten(fs, after, src, oracle, now, done) && OnlyWanted(fs, after, src, done)
  }

  /** Mid-pass, a mirror of an entry not yet handled exists exactly when it
      existed before the pass: files written so far belong to other entries. */
  lemma NotYetWritten(fs: FileMap, after: FileMap, src: Locale, oracle: Oracle, now: int,
                      done: set<string>, n: string, tgt: Locale)
    requires PassSoFar(fs, after, src, oracle, now, done) && n !in done
    ensures EntryPath(tgt, n) in after <==> EntryPath(tgt, n) in fs
  {
    var p := EntryPath(tgt, n);
    if p in after && p !in fs {
      assert Added(fs, after, p);
      EntryOfPath(tgt, n);
    }
  }

  /** Handling a source entry attempts each of its missing mirrors. */
  lemma HandleSourceWrites(fs: FileMap, after: FileMap, src: Locale, oracle: Oracle, now: int,
                           done: set<string>, n: string, tgt: Locale)
    requires PassSoFar(fs, after, src, oracle, now, done) && n !in done && Wanted(fs, src, n, tgt)
    ensures var next := TranslateEntry(after, src, n, Others(src), oracle, now).0;
            && (EntryPath(tgt, n) in next <==> oracle(src, n, tgt).Reply?)
            && (oracle(src, n, tgt).Reply? ==>
                  next[EntryPath(tgt, n)] == File(AddTranslatedFlag(oracle(src, n, tgt).text), now))
  {
    NotYetWritten(fs, after, src, oracle, now, done, n, tgt);
    TranslateEntryWrites(after, src, n, Others(src), oracle, now, tgt);
  }

  /** A file the inner loop for `n` writes is a mirror of `n` that was
      missing. */
  lemma HandleSourceAdds(fs: FileMap, after: FileMap, src: Locale, oracle: Oracle, now: int,
                         done: set<string>, n: string, p: string)
    requires PassSoFar(fs, after, src, oracle, now, done) && n !in done && IsSource(fs, src, n)
    requires p in TranslateEntry(after, src, n, Others(src), oracle, now).0 && p !in after
    ensures WrittenFor(fs, src, p) && EntryName(p) == n
  {
    var next := TranslateEntry(after, src, n, Others(src), oracle, now).0;
    assert p in next.Keys - after.Keys;
    assert p in MirrorsOf(n, Others(src));
    var tgt := EntryLocale(p);
    EntryOfPath(tgt, n);
    NotYetWritten(fs, after, src, oracle, now, done, n, tgt);
  }

  /** Handling a source entry settles its own wanted mirrors and leaves
      those of the entries handled earlier as they were. */
  lemma HandleSourceSettles(fs: FileMap, after: FileMap, src: Locale, oracle: Oracle, now: int,
                            done: set<string>, n: string)
    requires PassSoFar(fs, after, src, oracle, now, done) && n !in done && IsSource(fs, src, n)
    ensures DoneWritten(fs, TranslateEntry(after, src, n, Others(src), oracle, now).0, src, oracle, now, done + {n})
  {
    var next := TranslateEntry(after, src, n, Others(src), oracle, now).0;
    forall m, tgt | m in done + {n} && Wanted(fs, src, m, tgt)
      ensures && (EntryPath(tgt, m) in next <==> oracle(src, m, tgt).Reply?)
              && (oracle(src, m, tgt).Reply? ==>
                    next[EntryPath(tgt, m)] == File(AddTranslatedFlag(oracle(src, m, tgt).text), now))
    {
      EntrySettled(fs, after, src, oracle, now, done, n, m, tgt);
    }
  }

  /** After handling `n`, each wanted mirror of an entry handled so far is
      settled. */
  lemma EntrySettled(fs: FileMap, after: FileMap, src: Locale, oracle: Oracle, now: int,
                     done: set<string>, n: string, m: string, tgt: Locale)
    requires PassSoFar(fs, after, src, oracle, now, done) && n !in done && IsSource(fs, src, n)
    requires m in done + {n} && Wanted(fs, src, m, tgt)
    ensures var next := TranslateEntry(after, src, n, Others(src), oracle, now).0;
            && (EntryPath(tgt, m) in next <==> oracle(src, m, tgt).Reply?)
            && (oracle(src, m, tgt).Reply? ==>
                  next[EntryPath(tgt, m)] == File(AddTranslatedFlag(oracle(src, m, tgt).text), now))
  {
    if m == n {
      HandleSourceWrites(fs, after, src, oracle, now, done, n, tgt);
    } else {
      EarlierEntrySettled(fs, after, src, oracle, now, done, n, m, tgt);
    }
  }

  /** An entry handled earlier keeps its settled mirror. */
  lemma EarlierEntrySettled(fs: FileMap, after: FileMap, src: Locale, oracle: Oracle, now: int,
                            done: set<string>, n: string, m: string, tgt: Locale)
    requires PassSoFar(fs, after, src, oracle, now, done) && n !in done && IsSource(fs, src, n)
    requires m in done && Wanted(fs, src, m, tgt)
    ensures var next := TranslateEntry(after, src, n, Others(src), oracle, now).0;
            && (EntryPath(tgt, m) in next <==> oracle(src, m, tgt).Reply?)
            && (oracle(src, m, tgt).Reply? ==>
                  next[EntryPath(tgt, m)] == File(AddTranslatedFlag(oracle(src, m, tgt).text), now))
  {
    EntryOfPath(tgt, m);
    EarlierEntryKept(fs, after, src, oracle, now, done, n, EntryPath(tgt, m));
  }

  /** The inner loop for `n` adds nothing at a path of another entry. */
  lemma EarlierEntryKept(fs: FileMap, after: FileMap, src: Locale, oracle: Oracle, now: int,
                         done: set<string>, n: string, p: string)
    requires PassSoFar(fs, after, src, oracle, now, done) && n !in done && IsSource(fs, src, n)
    requires EntryName(p) != n
    ensures var next := TranslateEntry(after, src, n, Others(src), oracle, now).0;
            (p in next <==> p in after) && (p in after ==> next[p] == after[p])
  {
    var next := TranslateEntry(after, src, n, Others(src), oracle, now).0;
    if p in next && p !in after {
      HandleSourceAdds(fs, after, src, oracle, now, done, n, p);
    }
  }

  /** Handling a source entry adds only its own wanted mirrors. */
  lemma HandleSourceAddsOnlyWanted(fs: FileMap, after: FileMap, src: Locale, oracle: Oracle, now: int,
                                   done: set<string>, n: string)
    requires PassSoFar(fs, after, src, oracle, now, done) && n !in done && IsSource(fs, src, n)
    ensures OnlyWanted(fs, TranslateEntry(after, src, n, Others(src), oracle, now).0, src, done + {n})
  {
    var next := TranslateEntry(after, src, n, Others(src), oracle, now).0;
    forall p | Added(fs, next, p)
      ensures WrittenFor(fs, src, p) && EntryName(p) in done + {n}
    {
      if p !in after {
        HandleSourceAdds(fs, after, src, oracle, now, done, n, p);
      } else {
        assert Added(fs, after, p);
      }
    }
  }

  /** Handling a source entry: its missing mirrors are attempted and the
      entries handled earlier keep their results. */
  lemma HandleSource(fs: FileMap, after: FileMap, src: Locale, oracle: Oracle, now: int,
                     done: set<string>, n: string)
    requires PassSoFar(fs, after, src, oracle, now, done) && n !in done && IsSource(fs, src, n)
    ensures PassSoFar(fs, TranslateEntry(after, src, n, Others(src), oracle, now).0, src, oracle, now, done + {n})
  {
    HandleSourceSettles(fs, after, src, oracle, now, done, n);
    HandleSourceAddsOnlyWanted(fs, after, src, oracle, now, done, n);
  }

  /** A listed entry is read from the tree as the pass found it. */
  lemma EntryAsListed(fs: FileMap, after: FileMap, src: Locale, oracle: Oracle, now: int,
                      done: set<string>, n: string)
    requires PassSoFar(fs, after, src, oracle, now, done) && Candidate(fs, src, n)
    ensures EntryPath(src, n) in after && after[EntryPath(src, n)] == fs[EntryPath(src, n)]
  {
  }

  /** One source entry handled: the pass stays on track, its calls are added,
      and so is the number of files written. */
  lemma SourceStep(fs: FileMap, after: FileMap, src: Locale, oracle: Oracle, now: int,
                   done: set<string>, n: string, asked: set<(string, Locale)>)
    requires PassSoFar(fs, after, src, oracle, now, done) && AskedSoFar(fs, src, asked, done)
    requires n !in done && IsSource(fs, src, n)
    ensures var r := TranslateEntry(after, src, n, Others(src), oracle, now);
            && PassSoFar(fs, r.0, src, oracle, now, done + {n})
            && AskedSoFar(fs, src, asked + Pairs(n, Asks(after, src, n, Others(src), oracle, now)), done + {n})
            && |r.0.Keys - fs.Keys| == |after.Keys - fs.Keys| + r.1
  {
    var r := TranslateEntry(after, src, n, Others(src), oracle, now);
    HandleSource(fs, after, src, oracle, now, done, n);
    HandleSourceAsks(fs, after, src, oracle, now, done, n);
    AskedSource(fs, src, asked, done, n, Asks(after, src, n, Others(src), oracle, now));
    NewKeysAdd(fs, after, r.0);
  }

  /** Skipping an entry that is not a source keeps the pass on track. */
  lemma SkipEntry(fs: FileMap, after: FileMap, src: Locale, oracle: Oracle, now: int,
                  done: set<string>, n: string)
    requires PassSoFar(fs, after, src, oracle, now, done) && !IsSource(fs, src, n)
    ensures PassSoFar(fs, after, src, oracle, now, done + {n})
  {
    forall p | Added(fs, after, p) ensures WrittenFor(fs, src, p) && EntryName(p) in done + {n} {
    }
  }

  /** Handling a source entry calls the service once for each of its wanted
      mirrors and for nothing else. */
  lemma HandleSourceAsks(fs: FileMap, after: FileMap, src: Locale, oracle: Oracle, now: int,
                         done: set<string>, n: string)
    requires PassSoFar(fs, after, src, oracle, now, done) && n !in done && IsSource(fs, src, n)
    ensures forall t :: t in Asks(after, src, n, Others(src), oracle, now) <==> Wanted(fs, src, n, t)
  {
    TranslateEntryAsks(after, src, n, Others(src), oracle, now);
    forall t ensures t in Others(src) <==> t != src {
    }
    forall t ensures EntryPath(t, n) in after <==> EntryPath(t, n) in fs {
      NotYetWritten(fs, after, src, oracle, now, done, n, t);
    }
  }

  /** The calls made for entry `n`, one per target locale in `calls`. */
  function Pairs(n: string, calls: set<Locale>): (r: set<(string, Locale)>)
    ensures forall m, t :: (m, t) in r <==> m == n && t in calls
  {
    set t | t in calls :: (n, t)
  }

  /** Mid-pass, the calls made so far are the wanted mirrors of the entries
      already handled. */
  ghost predicate AskedSoFar(fs: FileMap, src: Locale, asked: set<(string, Locale)>, done: set<string>) {
    forall n, t :: (n, t) in asked <==> n in done && Wanted(fs, src, n, t)
  }

  /** Handling a source entry adds the calls for its wanted mirrors. */
  lemma AskedSource(fs: FileMap, src: Locale, asked: set<(string, Locale)>, done: set<string>,
                    n: string, calls: set<Locale>)
    requires AskedSoFar(fs, src, asked, done)
    requires forall t :: t in calls <==> Wanted(fs, src, n, t)
    ensures AskedSoFar(fs, src, asked + Pairs(n, calls), done + {n})
  {
  }

  /** Skipping an entry that is not a source adds no call. */
  lemma AskedSkip(fs: FileMap, src: Locale, asked: set<(string, Locale)>, done: set<string>, n: string)
    requires AskedSoFar(fs, src, asked, done) && !IsSource(fs, src, n)
    ensures AskedSoFar(fs, src, asked, done + {n})
  {
  }

  /** Once every listed entry is handled, the calls are exactly the wanted
      mirrors. */
  lemma AskedFinished(fs: FileMap, src: Locale, asked: set<(string, Locale)>, done: set<string>)
    requires AskedSoFar(fs, src, asked, done)
    requires forall n :: Candidate(fs, src, n) ==> n in done
    ensures forall n, t :: (n, t) in asked <==> Wanted(fs, src, n, t)
  {
  }

  /** Mid-pass, the listing is split into the entries still to handle and
      those handled. */
  ghost predicate Listed(fs: FileMap, src: Locale, todo: set<string>, done: set<string>) {
    todo * done == {} && forall n :: Candidate(fs, src, n) <==> n in todo || n in done
  }

  /** Handling one listed entry moves it from `todo` to `done`. */
  lemma ListedStep(fs: FileMap, src: Locale, todo: set<string>, done: set<string>, n: string)
    requires Listed(fs, src, todo, done) && n in todo
    ensures Listed(fs, src, todo - {n}, done + {n})
    ensures n !in done && Candidate(fs, src, n)
  {
    assert n !in todo * done;
    assert Candidate(fs, src, n) <==> n in todo || n in done;
  }

  /** Once every listed entry is handled, the pass is complete. */
  lemma PassFinished(fs: FileMap, after: FileMap, src: Locale, oracle: Oracle, now: int, done: set<string>)
    requires PassSoFar(fs, after, src, oracle, now, done)
    requires forall n :: Candidate(fs, src, n) ==> n in done
    ensures IsPassResult(fs, after, src, oracle, now)
  {
    forall n, tgt | Wanted(fs, src, n, tgt)
      ensures && (EntryPath(tgt, n) in after <==> oracle(src, n, tgt).Reply?)
              && (oracle(src, n, tgt).Reply? ==>
                    after[EntryPath(tgt, n)] == File(AddTranslatedFlag(oracle(src, n, tgt).text), now))
    {
      assert n in done;
    }
    forall p | Added(fs, after, p) ensures WrittenFor(fs, src, p) {
    }
  }

  /** The body of the outer loop for one listed entry: an entry with a
      frontmatter block and no marker has its missing mirrors attempted; any
      other entry is passed over (`continue`). */
  method HandleEntry(fs: FileMap, src: Locale, oracle: Oracle, now: int,
                     after: FileMap, count: nat, asked: set<(string, Locale)>, ghost done: set<string>, n: string)
    returns (after': FileMap, count': nat, asked': set<(string, Locale)>)
    requires PassSoFar(fs, after, src, oracle, now, done) && AskedSoFar(fs, src, asked, done)
    requires count == |after.Keys - fs.Keys|
    requires n !in done && Candidate(fs, src, n)
    ensures PassSoFar(fs, after', src, oracle, now, done + {n})
    ensures AskedSoFar(fs, src, asked', done + {n})
    ensures count' == |after'.Keys - fs.Keys|
  {
    EntryAsListed(fs, after, src, oracle, now, done, n);
    var content := after[EntryPath(src, n)].content;
    if ParseFrontmatter(content).Some? && !HasTranslatedFlag(content) {
      SourceStep(fs, after, src, oracle, now, done, n, asked);
      var r := TranslateEntry(after, src, n, Others(src), oracle, now);
      after' := r.0;
      count' := count + r.1;
      asked' := asked + Pairs(n, Asks(after, src, n, Others(src), oracle, now));
    } else {
      SkipEntry(fs, after, src, oracle, now, done, n);
      AskedSkip(fs, src, asked, done, n);
      after', count', asked' := after, count, asked;
    }
  }

  /** One pass of the outer loop: the entries of `src`'s directory, in
      whatever order the listing gives them. Returns the new tree, the
      number of files written, and the (file name, target locale) pairs the
      service was called for: exactly the wanted mirrors, so a marked entry,
      an entry without frontmatter or an existing mirror costs no call. */
  method ReconcilePass(fs: FileMap, src: Locale, oracle: Oracle, now: int)
    returns (after: FileMap, count: nat, asked: set<(string, Locale)>)
    ensures IsPassResult(fs, after, src, oracle, now)
    ensures count == |after.Keys - fs.Keys|
    ensures forall n, t :: (n, t) in asked <==> Wanted(fs, src, n, t)
  {
    var todo := Listing(fs, src);
    ghost var done: set<string> := {};
    after := fs;
    count := 0;
    asked := {};
    while todo != {}
      invariant Listed(fs, src, todo, done)
      invariant PassSoFar(fs, after, src, oracle, now, done)
      invariant count == |after.Keys - fs.Keys|
      invariant AskedSoFar(fs, src, asked, done)
      decreases todo
    {
      var n :| n in todo;
      ListedStep(fs, src, todo, done, n);
      after, count, asked := HandleEntry(fs, src, oracle, now, after, count, asked, done, n);
      todo := todo - {n};
      done := done + {n};
    }
    PassFinished(fs, after, src, oracle, now, done);
    AskedFinished(fs, src, asked, done);
  }

  /** The calls of one pass, tagged with its source locale. */
  function Tagged(src: Locale, calls: set<(string, Locale)>): (r: set<(Locale, string, Locale)>)
    ensures forall s, n, t :: (s, n, t) in r <==> s == src && (n, t) in calls
  {
    set x | x in calls :: (src, x.0, x.1)
  }

  /** `translate-all`: the passes for `ru`, `en` and `uz`, in that order, each
      seeing what the earlier ones wrote. Returns the trees after each pass,
      the number of files written, and the (source, file name, target) calls
      made. On a settled tree the run makes no call and writes nothing. */
  method ReconcileAll(fs: FileMap, oracle: Oracle, now: int)
    returns (fsRu: FileMap, fsEn: FileMap, fsUz: FileMap, count: nat, asked: set<(Locale, string, Locale)>)
    ensures IsPassResult(fs, fsRu, Ru, oracle, now)
    ensures IsPassResult(fsRu, fsEn, En, oracle, now)
    ensures IsPassResult(fsEn, fsUz, Uz, oracle, now)
    ensures count == |fsUz.Keys - fs.Keys|
    ensures forall n, t :: (Ru, n, t) in asked <==> Wanted(fs, Ru, n, t)
    ensures forall n, t :: (En, n, t) in asked <==> Wanted(fsRu, En, n, t)
    ensures forall n, t :: (Uz, n, t) in asked <==> Wanted(fsEn, Uz, n, t)
    ensures Settled(fs) ==> asked == {} && fsUz == fs && count == 0
  {
    var c1, c2, c3, a1, a2, a3;
    fsRu, c1, a1 := ReconcilePass(fs, Ru, oracle, now);
    fsEn, c2, a2 := ReconcilePass(fsRu, En, oracle, now);
    fsUz, c3, a3 := ReconcilePass(fsEn, Uz, oracle, now);
    NewKeysAdd(fs, fsRu, fsEn);
    NewKeysAdd(fs, fsEn, fsUz);
    count := c1 + c2 + c3;
    asked := Tagged(Ru, a1) + Tagged(En, a2) + Tagged(Uz, a3);
    RunCalls(fs, fsRu, fsEn, a1, a2, a3);
    if Settled(fs) {
      SettledRunIsIdle(fs, fsRu, fsEn, fsUz, oracle, now, a1, a2, a3);
    }
  }

  /** The calls of a run are those of its three passes, each tagged with its
      source locale. */
  lemma RunCalls(fs: FileMap, fsRu: FileMap, fsEn: FileMap,
                 a1: set<(string, Locale)>, a2: set<(string, Locale)>, a3: set<(string, Locale)>)
    requires forall n, t :: (n, t) in a1 <==> Wanted(fs, Ru, n, t)
    requires forall n, t :: (n, t) in a2 <==> Wanted(fsRu, En, n, t)
    requires forall n, t :: (n, t) in a3 <==> Wanted(fsEn, Uz, n, t)
    ensures var asked := Tagged(Ru, a1) + Tagged(En, a2) + Tagged(Uz, a3);
            && (forall n, t :: (Ru, n, t) in asked <==> Wanted(fs, Ru, n, t))
            && (forall n, t :: (En, n, t) in asked <==> Wanted(fsRu, En, n, t))
            && (forall n, t :: (Uz, n, t) in asked <==> Wanted(fsEn, Uz, n, t))
  {
  }

  /** On a settled tree no pass calls the service or writes a file. */
  lemma SettledRunIsIdle(fs: FileMap, fsRu: FileMap, fsEn: FileMap, fsUz: FileMap, oracle: Oracle, now: int,
                         a1: set<(string, Locale)>, a2: set<(string, Locale)>, a3: set<(string, Locale)>)
    requires Settled(fs)
    requires IsPassResult(fs, fsRu, Ru, oracle, now)
    requires IsPassResult(fsRu, fsEn, En, oracle, now)
    requires IsPassResult(fsEn, fsUz, Uz, oracle, now)
    requires forall n, t :: (n, t) in a1 <==> Wanted(fs, Ru, n, t)
    requires forall n, t :: (n, t) in a2 <==> Wanted(fsRu, En, n, t)
    requires forall n, t :: (n, t) in a3 <==> Wanted(fsEn, Uz, n, t)
    ensures fsUz == fs
    ensures Tagged(Ru, a1) + Tagged(En, a2) + Tagged(Uz, a3) == {}
  {
    SettledPassWritesNothing(fs, fsRu, Ru, oracle, now);
    SettledPassWritesNothing(fsRu, fsEn, En, oracle, now);
    SettledPassWritesNothing(fsEn, fsUz, Uz, oracle, now);
    forall x ensures x !in a1 && x !in a2 && x !in a3 {
      assert !Wanted(fs, Ru, x.0, x.1) && !Wanted(fs, En, x.0, x.1) && !Wanted(fs, Uz, x.0, x.1);
    }
    assert a1 == {} && a2 == {} && a3 == {};
  }

  /** The listing order does not matter: a pass has exactly one possible
      result. */
  lemma PassResultIsUnique(fs: FileMap, a: FileMap, b: FileMap, src: Locale, oracle: Oracle, now: int)
    requires IsPassResult(fs, a, src, oracle, now) && IsPassResult(fs, b, src, oracle, now)
    ensures a == b
  {
    forall p | p in a ensures p in b && b[p] == a[p] {
      if p !in fs {
        assert Added(fs, a, p);
      }
    }
    forall p | p in b ensures p in a {
      if p !in fs {
        assert Added(fs, b, p);
      }
    }
    assert a.Keys == b.Keys;
  }

  /** A tree in which every source entry has all its mirrors. */
  ghost predicate Settled(fs: FileMap) {
    forall src, n, tgt :: !Wanted(fs, src, n, tgt)
  }

  /** On a settled tree a pass writes nothing. */
  lemma SettledPassWritesNothing(fs: FileMap, after: FileMap, src: Locale, oracle: Oracle, now: int)
    requires Settled(fs) && IsPassResult(fs, after, src, oracle, now)
    ensures after == fs
  {
    forall p | p in after ensures p in fs {
      assert !Added(fs, after, p);
    }
    assert after.Keys == fs.Keys;
  }

  /** Every call to the service returns text, whatever its shape. */
  ghost predicate AlwaysAnswers(oracle: Oracle) {
    forall src, n, tgt :: oracle(src, n, tgt).Reply?
  }

  /** The service always answers with a whole document whose frontmatter
      block opens with `---\n`, so stamping it sets the marker. */
  ghost predicate WellBehaved(oracle: Oracle) {
    forall src, n, tgt ::
      && oracle(src, n, tgt).Reply?
      && StartsWith(oracle(src, n, tgt).text, "---\n")
      && ParseFrontmatter(oracle(src, n, tgt).text).Some?
  }

  /** What one pass keeps: a source entry of `before` is still one after, and
      a source entry after the pass was one before, since the pass only adds
      stamped files. */
  lemma PassKeepsSources(before: FileMap, after: FileMap, pass: Locale, oracle: Oracle, now: int, l: Locale, n: string)
    requires WellBehaved(oracle) && IsPassResult(before, after, pass, oracle, now)
    ensures IsSource(after, l, n) <==> IsSource(before, l, n)
  {
    var p := EntryPath(l, n);
    if p in before {
      assert after[p] == before[p];
    } else if p in after {
      assert Added(before, after, p);
      EntryOfPath(l, n);
      var text := oracle(pass, n, l).text;
      assert after[p].content == AddTranslatedFlag(text);
      StampSetsFlag(text);
      assert HasTranslatedFlag(after[p].content);
    }
  }

  /** A pass writes only into the other locales' directories. */
  lemma PassStaysOutOfItsLocale(before: FileMap, after: FileMap, src: Locale, oracle: Oracle, now: int, n: string)
    requires IsPassResult(before, after, src, oracle, now)
    ensures EntryPath(src, n) in after <==> EntryPath(src, n) in before
  {
    var p := EntryPath(src, n);
    if p in after && p !in before {
      assert Added(before, after, p);
      EntryOfPath(src, n);
    }
  }

  /** Every file of name `n`, in each of the three locales. */
  ghost predicate Complete(fs: FileMap, n: string) {
    forall t :: EntryPath(t, n) in fs
  }

  /** With a service that always answers, a pass gives a source entry a file
      of its name in every locale. */
  lemma SourceCompletesName(before: FileMap, after: FileMap, src: Locale, oracle: Oracle, now: int, n: string)
    requires AlwaysAnswers(oracle) && IsPassResult(before, after, src, oracle, now) && IsSource(before, src, n)
    ensures Complete(after, n)
  {
    forall t ensures EntryPath(t, n) in after {
      if t != src && EntryPath(t, n) !in before {
        assert Wanted(before, src, n, t);
      }
    }
  }

  /** With a service that always answers, a pass that creates any file of
      name `n` creates every missing one: they all mirror the same source. */
  lemma AddedCompletesName(before: FileMap, after: FileMap, src: Locale, oracle: Oracle, now: int, l: Locale, n: string)
    requires AlwaysAnswers(oracle) && IsPassResult(before, after, src, oracle, now)
    requires EntryPath(l, n) in after && EntryPath(l, n) !in before
    ensures Complete(after, n)
  {
    assert Added(before, after, EntryPath(l, n));
    EntryOfPath(l, n);
    SourceCompletesName(before, after, src, oracle, now, n);
  }

  /** What one pass has completed stays complete. */
  lemma CompleteStays(before: FileMap, after: FileMap, src: Locale, oracle: Oracle, now: int, n: string)
    requires IsPassResult(before, after, src, oracle, now) && Complete(before, n)
    ensures Complete(after, n)
  {
    forall t ensures EntryPath(t, n) in after {
      assert EntryPath(t, n) in before;
    }
  }

  /** After the pass of `src` with a service that always answers, no entry of
      `src` is missing a mirror, whatever the replies look like. */
  lemma PassCompletesItsLocale(before: FileMap, after: FileMap, src: Locale, oracle: Oracle, now: int, n: string, tgt: Locale)
    requires AlwaysAnswers(oracle) && IsPassResult(before, after, src, oracle, now)
    ensures !Wanted(after, src, n, tgt)
  {
    if IsSource(after, src, n) {
      PassStaysOutOfItsLocale(before, after, src, oracle, now, n);
      assert after[EntryPath(src, n)] == before[EntryPath(src, n)];
      SourceCompletesName(before, after, src, oracle, now, n);
    }
  }

  /** A source entry of `ru` at the end of a run: its name was completed by
      the `ru` pass if the entry was there from the start, and otherwise by
      the later pass that created it. */
  lemma RuSourceEndsComplete(fs: FileMap, fsRu: FileMap, fsEn: FileMap, fsUz: FileMap, oracle: Oracle, now: int, n: string)
    requires AlwaysAnswers(oracle)
    requires IsPassResult(fs, fsRu, Ru, oracle, now)
    requires IsPassResult(fsRu, fsEn, En, oracle, now)
    requires IsPassResult(fsEn, fsUz, Uz, oracle, now)
    requires IsSource(fsUz, Ru, n)
    ensures Complete(fsUz, n)
  {
    var p := EntryPath(Ru, n);
    PassStaysOutOfItsLocale(fs, fsRu, Ru, oracle, now, n);
    if p in fs {
      assert fsUz[p] == fs[p];
      SourceCompletesName(fs, fsRu, Ru, oracle, now, n);
      CompleteStays(fsRu, fsEn, En, oracle, now, n);
      CompleteStays(fsEn, fsUz, Uz, oracle, now, n);
    } else if p in fsEn {
      AddedCompletesName(fsRu, fsEn, En, oracle, now, Ru, n);
      CompleteStays(fsEn, fsUz, Uz, oracle, now, n);
    } else {
      AddedCompletesName(fsEn, fsUz, Uz, oracle, now, Ru, n);
    }
  }

  /** A source entry of `en` at the end of a run: completed by the `en` pass
      if it was there before it, otherwise by the `uz` pass that created it. */
  lemma EnSourceEndsComplete(fsRu: FileMap, fsEn: FileMap, fsUz: FileMap, oracle: Oracle, now: int, n: string)
    requires AlwaysAnswers(oracle)
    requires IsPassResult(fsRu, fsEn, En, oracle, now)
    requires IsPassResult(fsEn, fsUz, Uz, oracle, now)
    requires IsSource(fsUz, En, n)
    ensures Complete(fsUz, n)
  {
    var p := EntryPath(En, n);
    PassStaysOutOfItsLocale(fsRu, fsEn, En, oracle, now, n);
    if p in fsRu {
      assert fsUz[p] == fsRu[p];
      SourceCompletesName(fsRu, fsEn, En, oracle, now, n);
      CompleteStays(fsEn, fsUz, Uz, oracle, now, n);
    } else {
      AddedCompletesName(fsEn, fsUz, Uz, oracle, now, En, n);
    }
  }

  /** A source entry of `uz` at the end of a run was there before the `uz`
      pass, which completed its name. */
  lemma UzSourceEndsComplete(fsEn: FileMap, fsUz: FileMap, oracle: Oracle, now: int, n: string)
    requires AlwaysAnswers(oracle)
    requires IsPassResult(fsEn, fsUz, Uz, oracle, now)
    requires IsSource(fsUz, Uz, n)
    ensures Complete(fsUz, n)
  {
    var p := EntryPath(Uz, n);
    PassStaysOutOfItsLocale(fsEn, fsUz, Uz, oracle, now, n);
    assert fsUz[p] == fsEn[p];
    SourceCompletesName(fsEn, fsUz, Uz, oracle, now, n);
  }

  /** A full run with a service that always answers settles the tree, so
      running it again makes no call and writes nothing. The replies need not
      be well formed: a pass that writes any mirror of a name writes all the
      missing ones at once. */
  lemma {:induction false} RunSettles(fs: FileMap, fsRu: FileMap, fsEn: FileMap, fsUz: FileMap, oracle: Oracle, now: int)
    requires AlwaysAnswers(oracle)
    requires IsPassResult(fs, fsRu, Ru, oracle, now)
    requires IsPassResult(fsRu, fsEn, En, oracle, now)
    requires IsPassResult(fsEn, fsUz, Uz, oracle, now)
    ensures Settled(fsUz)
  {
    forall src, n, tgt ensures !Wanted(fsUz, src, n, tgt) {
      if IsSource(fsUz, src, n) {
        match src
        case Ru => RuSourceEndsComplete(fs, fsRu, fsEn, fsUz, oracle, now, n);
        case En => EnSourceEndsComplete(fsRu, fsEn, fsUz, oracle, now, n);
        case Uz => UzSourceEndsComplete(fsEn, fsUz, oracle, now, n);
        assert EntryPath(tgt, n) in fsUz;
      }
    }
  }

  /** Unlike the watcher, the batch script does not look at the stop reason:
      a reply cut at `max_tokens` is stamped and written. */
  lemma TruncatedReplyIsWritten(fs: FileMap, after: FileMap, src: Locale, oracle: Oracle, now: int, n: string, tgt: Locale)
    requires IsPassResult(fs, after, src, oracle, now) && Wanted(fs, src, n, tgt)
    requires oracle(src, n, tgt).Reply? && oracle(src, n, tgt).stop == MaxTokens
    ensures EntryPath(tgt, n) in after
    ensures after[EntryPath(tgt, n)].content == AddTranslatedFlag(oracle(src, n, tgt).text)
  {
  }

  /** The batch script and the watcher put a mirror at the same place:
      `getTargetPath` of an entry path is the entry path in the target
      locale. */
  lemma EntryMirrorAgrees(src: Locale, tgt: Locale, n: string)
    ensures GetTargetPath(EntryPath(src, n), src, tgt) == EntryPath(tgt, n)
  {
    var p := EntryPath(src, n);
    EntryPathLayout(src, n);
    EntryPathLayout(tgt, n);
    SegmentFacts(src);
    assert p[11..20] == Segment(src);
    SegmentSlashes(src);
    forall j | 0 <= j < 11 ensures !OccursAt(p, Segment(src), j) {
      var prefix := BlogDir + "/" + Code(src) + "/";
      assert p[j] == prefix[j] && p[j + 1] == prefix[j + 1] by {
        assert p[..20] == prefix;
        assert p[..20][j] == p[j] && p[..20][j + 1] == p[j + 1];
      }
      if j == 3 {
        MismatchAt(p, Segment(src), j, 1);
      } else {
        MismatchAt(p, Segment(src), j, 0);
      }
    }
    FindIsFirst(p, Segment(src), 11);
    assert EntryPath(tgt, n) == p[..11] + Segment(tgt) + p[20..];
  }
}

/**
  The live watcher (scripts/watch-translate.mjs): for every `add` or `change`
  of a Markdown post under a locale directory it translates the post into the
  other two locales and writes the results as stamped mirrors; for every
  `unlink` it deletes the mirrors.

  The set of paths in flight (`pending`) is part of the state. The guard
  sequence of `handleFile`, from the `.md` test up to the `pending.add`, runs
  without an `await`, so `Admit` followed by `BeginBatch` is one atomic step
  here. The translation calls a batch makes are answered, in order, by a
  sequence of replies; a call past the end of that sequence fails.
 */
module Watcher {
  import opened Text
  import opened Frontmatter
  import opened Locales
  import opened Store

  datatype Event = Add | Change

  datatype State = State(files: FileMap, pending: set<string>)

  /** Why `handleFile` returned before translating anything. */
  datatype Skip =
    | NotMarkdown
    | AlreadyProcessing
    | NoLocale
    | Unreadable
    | InvalidFrontmatter
    | AlreadyTranslated
    | UpToDate

  datatype Target = Target(lang: Locale, path: string)

  /** `handleFile` either returns early or starts a batch for the locales it
      selected; the mirror of locale `l` is `GetTargetPath(path, src, l)`. */
  datatype Admission =
    | Skipped(reason: Skip)
    | Admitted(src: Locale, content: string, langs: seq<Locale>)

  /** `langs.filter(keep)`: the locales `keep` selects, in their order. In
      `handleFile` it keeps every locale on `change` and otherwise those whose
      mirror is missing or older. */
  function Kept(langs: seq<Locale>, keep: Locale -> bool): (r: seq<Locale>)
    requires forall a, b :: 0 <= a < b < |langs| ==> Index(langs[a]) < Index(langs[b])
    ensures |r| <= |langs|
    ensures forall l :: l in r <==> l in langs && keep(l)
    ensures forall a, b :: 0 <= a < b < |r| ==> Index(r[a]) < Index(r[b])
  {
    if |langs| == 0 then []
    else
      var rest := Kept(langs[1..], keep);
      assert forall l :: l in langs[1..] ==> Index(langs[0]) < Index(l);
      if keep(langs[0]) then [langs[0]] + rest else rest
  }

  /** The `{ lang, path }` records of the batch loop. For a post under the
      source locale's directory and distinct target locales other than the
      source, the records lie at pairwise different paths, none of them the
      post itself, so no iteration overwrites another's mirror or the post. */
  function TargetsOf(path: string, src: Locale, langs: seq<Locale>): (r: seq<Target>)
    ensures |r| == |langs|
    ensures forall k :: 0 <= k < |r| ==> r[k].lang == langs[k] && r[k].path == GetTargetPath(path, src, langs[k])
    ensures Contains(path, Segment(src)) && src !in langs &&
            (forall a, b :: 0 <= a < b < |langs| ==> langs[a] != langs[b]) ==>
              && (forall i, j :: 0 <= i < j < |r| ==> r[i].path != r[j].path)
              && (forall k :: 0 <= k < |r| ==> r[k].path != path)
  {
    var r := seq(|langs|, k requires 0 <= k < |langs| => Target(langs[k], GetTargetPath(path, src, langs[k])));
    if Contains(path, Segment(src)) && src !in langs && (forall a, b :: 0 <= a < b < |langs| ==> langs[a] != langs[b]) then
      assert forall i, j :: 0 <= i < j < |r| ==> r[i].path != r[j].path by {
        forall i, j | 0 <= i < j < |r| ensures r[i].path != r[j].path {
          TargetPathsDistinct(path, src, langs[i], langs[j]);
        }
      }
      assert forall k :: 0 <= k < |r| ==> r[k].path != path by {
        forall k | 0 <= k < |r| ensures r[k].path != path {
          assert langs[k] in langs;
          TargetPathIsNotSource(path, src, langs[k]);
        }
      }
      r
    else r
  }

  /** The mirror paths of a set of targets. */
  function PathsOf(targets: seq<Target>): (r: set<string>)
    ensures forall p :: p in r <==> exists k :: 0 <= k < |targets| && targets[k].path == p
    decreases |targets|
  {
    if |targets| == 0 then {}
    else
      var r := {targets[0].path} + PathsOf(targets[1..]);
      forall p | p in r ensures exists k :: 0 <= k < |targets| && targets[k].path == p {
        if p != targets[0].path {
          var k :| 0 <= k < |targets[1..]| && targets[1..][k].path == p;
          assert targets[k + 1].path == p;
        }
      }
      forall k | 0 < k < |targets| ensures targets[k].path in r {
        assert targets[k] == targets[1..][k - 1];
      }
      r
  }

  /** The `filter` of `handleFile`: on `change` every other locale, otherwise
      the other locales whose mirror is missing or older than the post, in
      `LANGS` order. */
  function Selected(st: State, event: Event, path: string, src: Locale): (r: seq<Locale>)
    requires path in st.files
    ensures forall l :: l in r <==>
              l != src && (event == Change || NeedsTranslation(st.files, path, GetTargetPath(path, src, l)))
    ensures forall i, j :: 0 <= i < j < |r| ==> Index(r[i]) < Index(r[j])
  {
    var keep := l => event == Change || NeedsTranslation(st.files, path, GetTargetPath(path, src, l));
    Kept(Others(src), keep)
  }

  /** The guard sequence of `handleFile`, up to the point where the batch
      starts. A post is admitted only when it is Markdown, not in flight, under
      a locale directory, readable, has a frontmatter block, is not a
      translation itself, and at least one mirror is selected; the selected
      locales are, in `LANGS` order, the other locales whose mirror is missing
      or older than the post, or all of them on `change`. */
  function Admit(st: State, event: Event, path: string): (a: Admission)
    ensures !EndsWith(path, ".md") ==> a == Skipped(NotMarkdown)
    ensures path in st.pending ==> a.Skipped?
    ensures DetectLocale(path).None? ==> a.Skipped?
    ensures path !in st.files ==> a.Skipped?
    ensures path in st.files && HasTranslatedFlag(st.files[path].content) ==> a.Skipped?
    ensures a.Admitted? ==>
              && EndsWith(path, ".md") && path !in st.pending && path in st.files
              && DetectLocale(path) == Some(a.src)
              && a.content == st.files[path].content
              && ParseFrontmatter(a.content).Some? && !HasTranslatedFlag(a.content)
    ensures a.Admitted? ==>
              && |a.langs| > 0
              && (forall l :: l in a.langs <==>
                    l != a.src && (event == Change || NeedsTranslation(st.files, path, GetTargetPath(path, a.src, l))))
              && (forall i, j :: 0 <= i < j < |a.langs| ==> Index(a.langs[i]) < Index(a.langs[j]))
    ensures && EndsWith(path, ".md") && path !in st.pending && DetectLocale(path).Some? && path in st.files
            && ParseFrontmatter(st.files[path].content).Some? && !HasTranslatedFlag(st.files[path].content)
            && (exists l :: l != DetectLocale(path).value &&
                  (event == Change || NeedsTranslation(st.files, path, GetTargetPath(path, DetectLocale(path).value, l))))
            ==> a.Admitted?
  {
    if !EndsWith(path, ".md") then Skipped(NotMarkdown)
    else if path in st.pending then Skipped(AlreadyProcessing)
    else match DetectLocale(path)
      case None => Skipped(NoLocale)
      case Some(src) =>
        if path !in st.files then Skipped(Unreadable)
        else
          var content := st.files[path].content;
          if ParseFrontmatter(content).None? then Skipped(InvalidFrontmatter)
          else if HasTranslatedFlag(content) then Skipped(AlreadyTranslated)
          else
            var langs := Selected(st, event, path, src);
            if |langs| == 0 then Skipped(UpToDate) else Admitted(src, content, langs)
  }

  /** `pending.add(filePath)`. */
  function BeginBatch(st: State, path: string): State {
    st.(pending := st.pending + {path})
  }

  /** `pending.delete(filePath)`. */
  function EndBatch(st: State, path: string): State {
    st.(pending := st.pending - {path})
  }

  /** The `i`-th reply of a batch; a call past the last reply fails. */
  function ReplyAt(replies: seq<Reply>, i: nat): Reply {
    if i < |replies| then replies[i] else Failed
  }

  /** The replies left after `n` calls. */
  function Drop(replies: seq<Reply>, n: nat): seq<Reply> {
    if n <= |replies| then replies[n..] else []
  }

  /** After one call, the `k`-th remaining reply is the `k + 1`-th. */
  lemma ReplyAtDrop(replies: seq<Reply>, k: nat)
    ensures ReplyAt(Drop(replies, 1), k) == ReplyAt(replies, k + 1)
  {
  }

  /** One call and then `k` more consume `k + 1` replies. */
  lemma DropDrop(replies: seq<Reply>, k: nat)
    ensures Drop(Drop(replies, 1), k) == Drop(replies, k + 1)
  {
  }

  /** What one iteration of the batch loop does to the mirror at `path`: a
      translation is stamped and written, an error is logged and leaves the
      file as it was. */
  ghost predicate Effect(before: FileMap, after: FileMap, path: string, o: Outcome, now: int) {
    match o
    case Translated(text) => path in after && after[path] == File(AddTranslatedFlag(text), now)
    case Error(_) => (path in after <==> path in before) && (path in before ==> after[path] == before[path])
  }

  /** Files outside `paths` are the same before and after. */
  ghost predicate SameOutside(before: FileMap, after: FileMap, paths: set<string>) {
    forall p :: p !in paths ==> (p in after <==> p in before) && (p in before ==> after[p] == before[p])
  }

  /** The batch loop of `handleFile`: one translation call per target, each in
      its own `try`, so a failure for one target does not stop the others. */
  function RunTargets(fs: FileMap, targets: seq<Target>, replies: seq<Reply>, now: int): (r: (FileMap, seq<Reply>))
    requires forall a, b :: 0 <= a < b < |targets| ==> targets[a].path != targets[b].path
    ensures SameOutside(fs, r.0, PathsOf(targets))
    ensures forall k :: 0 <= k < |targets| ==> Effect(fs, r.0, targets[k].path, WatchOutcome(ReplyAt(replies, k)), now)
    ensures r.1 == Drop(replies, |targets|)
    decreases |targets|
  {
    if |targets| == 0 then (fs, replies)
    else
      var t := targets[0];
      var fs1 := match WatchOutcome(ReplyAt(replies, 0))
        case Translated(text) => fs[t.path := File(AddTranslatedFlag(text), now)]
        case Error(_) => fs;
      var r := RunTargets(fs1, targets[1..], Drop(replies, 1), now);
      assert t.path !in PathsOf(targets[1..]) by {
        forall j | 0 <= j < |targets| - 1 ensures targets[1..][j].path != t.path {
          assert targets[1..][j] == targets[j + 1];
        }
      }
      forall k | 1 <= k < |targets|
        ensures ReplyAt(Drop(replies, 1), k - 1) == ReplyAt(replies, k)
        ensures targets[1..][k - 1] == targets[k]
      {
        ReplyAtDrop(replies, k - 1);
      }
      DropDrop(replies, |targets| - 1);
      (r.0, r.1)
  }

  /** The result of one `handleFile` call: the new state, the admission
      decision, and the replies not consumed. */
  datatype Step = Step(state: State, admission: Admission, rest: seq<Reply>)

  /** `handleFile(event, filePath)` from start to end. Whatever happens, the
      in-flight set is the same afterwards; a skipped event changes nothing; an
      admitted one changes only the selected mirrors, never the source, and
      writes each mirror exactly when its translation came back whole. */
  function HandleFile(st: State, event: Event, path: string, replies: seq<Reply>, now: int): (r: Step)
    ensures r.admission == Admit(st, event, path)
    ensures r.state.pending == st.pending
    ensures r.admission.Skipped? ==> r.state == st && r.rest == replies
    ensures r.admission.Admitted? ==>
              var targets := TargetsOf(path, r.admission.src, r.admission.langs);
              && path !in PathsOf(targets)
              && SameOutside(st.files, r.state.files, PathsOf(targets))
              && (forall k :: 0 <= k < |targets| ==>
                    Effect(st.files, r.state.files, targets[k].path, WatchOutcome(ReplyAt(replies, k)), now))
              && r.rest == Drop(replies, |targets|)
  {
    var a := Admit(st, event, path);
    match a
    case Skipped(_) => Step(st, a, replies)
    case Admitted(src, content, langs) =>
      var targets := TargetsOf(path, src, langs);
      var busy := BeginBatch(st, path);
      AdmittedTargets(st, event, path);
      var run := RunTargets(busy.files, targets, replies, now);
      BatchRestoresPending(st, path, run.0);
      Step(EndBatch(busy.(files := run.0), path), a, run.1)
  }

  /** A batch marks its post in flight while it runs and, since the post was
      not in flight before, leaves the in-flight set as it found it; the
      files written in between are kept. */
  lemma BatchRestoresPending(st: State, path: string, files: FileMap)
    requires path !in st.pending
    ensures path in BeginBatch(st, path).pending
    ensures EndBatch(BeginBatch(st, path).(files := files), path) == st.(files := files)
  {
    assert (st.pending + {path}) - {path} == st.pending;
  }

  /** The mirrors of an admitted post lie at pairwise different paths, none
      of them the post itself. */
  lemma AdmittedTargets(st: State, event: Event, path: string)
    requires Admit(st, event, path).Admitted?
    ensures var a := Admit(st, event, path);
            var targets := TargetsOf(path, a.src, a.langs);
            && (forall i, j :: 0 <= i < j < |targets| ==> targets[i].path != targets[j].path)
            && (forall k :: 0 <= k < |targets| ==> targets[k].path != path)
  {
    var a := Admit(st, event, path);
    forall i, j | 0 <= i < j < |a.langs| ensures a.langs[i] != a.langs[j] {
    }
  }

  /** An event for a path that is in flight is dropped, whatever the batch has
      written in the meantime. */
  lemma InFlightEventIsDropped(st: State, e1: Event, e2: Event, path: string, during: FileMap)
    requires Admit(st, e1, path).Admitted?
    ensures Admit(BeginBatch(st, path).(files := during), e2, path) == Skipped(AlreadyProcessing)
  {
  }

  /** On `change` every other locale is a target, fresh or not, in `LANGS`
      order. */
  lemma ChangeSelectsEveryLocale(st: State, path: string)
    requires Admit(st, Change, path).Admitted?
    ensures var a := Admit(st, Change, path);
            a.langs == Others(a.src)
  {
    var a := Admit(st, Change, path);
    SortedByIndexUnique(a.langs, Others(a.src));
  }

  /** A new unmarked post with no mirrors yet: on `add` both other locales
      are selected, one call is made per locale in `LANGS` order, and each
      mirror exists afterwards exactly when its reply finished, holding that
      reply stamped. */
  lemma NewPostIsTranslated(st: State, path: string, replies: seq<Reply>, now: int)
    requires EndsWith(path, ".md") && path !in st.pending && path in st.files && DetectLocale(path).Some?
    requires ParseFrontmatter(st.files[path].content).Some? && !HasTranslatedFlag(st.files[path].content)
    requires forall l :: l != DetectLocale(path).value ==> GetTargetPath(path, DetectLocale(path).value, l) !in st.files
    ensures var src := DetectLocale(path).value;
            var r := HandleFile(st, Add, path, replies, now);
            && r.admission == Admitted(src, st.files[path].content, Others(src))
            && r.rest == Drop(replies, 2)
            && forall k :: 0 <= k < 2 ==>
                 var m := GetTargetPath(path, src, Others(src)[k]);
                 && (m in r.state.files <==> WatchOutcome(ReplyAt(replies, k)).Translated?)
                 && (WatchOutcome(ReplyAt(replies, k)).Translated? ==>
                       r.state.files[m] == File(AddTranslatedFlag(ReplyAt(replies, k).text), now))
  {
    var src := DetectLocale(path).value;
    var langs := Selected(st, Add, path, src);
    forall l | l != src ensures l in langs {
      assert l in Others(src);
    }
    SortedByIndexUnique(langs, Others(src));
    var targets := TargetsOf(path, src, langs);
    forall k | 0 <= k < 2 ensures targets[k].path == GetTargetPath(path, src, Others(src)[k]) && Others(src)[k] != src {
      assert Others(src)[k] in Others(src);
    }
  }

  /** On `add`, a post whose two mirrors both exist and are at least as recent
      is skipped, and nothing changes. */
  lemma AddSkipsUpToDateMirrors(st: State, path: string, replies: seq<Reply>, now: int)
    requires path in st.files && DetectLocale(path).Some?
    requires var src := DetectLocale(path).value;
             forall l :: l != src ==>
               var m := GetTargetPath(path, src, l);
               m in st.files && st.files[m].mtime >= st.files[path].mtime
    ensures HandleFile(st, Add, path, replies, now).admission.Skipped?
    ensures HandleFile(st, Add, path, replies, now).state == st
  {
    var src := DetectLocale(path).value;
    forall l | l != src ensures !NeedsTranslation(st.files, path, GetTargetPath(path, src, l)) {
    }
  }

  /** A reply cut at `max_tokens` never reaches the mirror: the file at that
      path is what it was before the batch. */
  lemma TruncatedReplyIsNotWritten(st: State, event: Event, path: string, replies: seq<Reply>, now: int, k: nat)
    requires Admit(st, event, path).Admitted?
    requires k < |Admit(st, event, path).langs|
    requires k < |replies| && replies[k].Reply? && replies[k].stop == MaxTokens
    ensures var a := Admit(st, event, path);
            var m := GetTargetPath(path, a.src, a.langs[k]);
            var after := HandleFile(st, event, path, replies, now).state.files;
            (m in after <==> m in st.files) && (m in st.files ==> after[m] == st.files[m])
  {
    assert WatchOutcome(ReplyAt(replies, k)) == Error(Truncated);
  }

  /** A mirror written from a reply with an LF frontmatter block carries the
      marker, so its own `add`/`change` event is skipped and changes nothing:
      the watcher does not translate its own output. */
  lemma MirrorIsNotRetranslated(st: State, event: Event, path: string, replies: seq<Reply>, now: int,
                                k: nat, e2: Event, replies2: seq<Reply>, now2: int)
    requires Admit(st, event, path).Admitted?
    requires k < |Admit(st, event, path).langs|
    requires k < |replies| && replies[k].Reply? && replies[k].stop == EndTurn
    requires StartsWith(replies[k].text, "---\n") && ParseFrontmatter(replies[k].text).Some?
    ensures var a := Admit(st, event, path);
            var r := HandleFile(st, event, path, replies, now);
            var m := GetTargetPath(path, a.src, a.langs[k]);
            var again := HandleFile(r.state, e2, m, replies2, now2);
            again.admission.Skipped? && again.state == r.state && again.rest == replies2
  {
    var a := Admit(st, event, path);
    var r := HandleFile(st, event, path, replies, now);
    var m := GetTargetPath(path, a.src, a.langs[k]);
    StampSetsFlag(replies[k].text);
    assert TargetsOf(path, a.src, a.langs)[k].path == m;
    assert r.state.files[m].content == AddTranslatedFlag(replies[k].text);
  }

  /** The marker only breaks the cycle for replies with LF line endings. A
      reply whose frontmatter opens with `---\r\n` is written unstamped (see
      `CrlfDocumentStaysUnmarked`), so the mirror's own `add` event is admitted
      as a new source, newer than the original post, and that post is one of
      the paths it would translate over. */
  lemma CrlfMirrorIsRetranslated(st: State, event: Event, path: string, replies: seq<Reply>, now: int,
                                 k: nat, text: string)
    requires Admit(st, event, path).Admitted?
    requires k < |Admit(st, event, path).langs|
    requires k < |replies| && replies[k] == Reply(text, EndTurn)
    requires !StartsWith(text, "---\n") && ParseFrontmatter(text).Some? && !HasTranslatedFlag(text)
    requires var a := Admit(st, event, path);
             var tgt := a.langs[k];
             var m := GetTargetPath(path, a.src, tgt);
             && m !in st.pending && DetectLocale(m) == Some(tgt) && !Contains(path, Segment(tgt))
             && now > st.files[path].mtime
    ensures var a := Admit(st, event, path);
            var tgt := a.langs[k];
            var m := GetTargetPath(path, a.src, tgt);
            var again := Admit(HandleFile(st, event, path, replies, now).state, Add, m);
            && again.Admitted? && again.src == tgt && a.src in again.langs
            && GetTargetPath(m, tgt, a.src) == path
  {
    var a := Admit(st, event, path);
    var tgt := a.langs[k];
    var m := GetTargetPath(path, a.src, tgt);
    var after := HandleFile(st, event, path, replies, now).state;
    StampIsInsertion(text);
    WrittenMirror(st, event, path, replies, now, k);
    MirrorPathFacts(path, a.src, tgt);
    UnmarkedNewerFileIsAdmitted(after, m, tgt, path, a.src);
  }

  /** After a batch, the mirror of the `k`-th selected locale holds the
      stamped `k`-th reply and the post is as it was. */
  lemma WrittenMirror(st: State, event: Event, path: string, replies: seq<Reply>, now: int, k: nat)
    requires Admit(st, event, path).Admitted?
    requires k < |Admit(st, event, path).langs|
    requires k < |replies| && replies[k].Reply? && replies[k].stop == EndTurn
    ensures var a := Admit(st, event, path);
            var after := HandleFile(st, event, path, replies, now).state;
            var m := GetTargetPath(path, a.src, a.langs[k]);
            && m in after.files && after.files[m] == File(AddTranslatedFlag(replies[k].text), now)
            && path in after.files && after.files[path] == st.files[path]
            && after.pending == st.pending
  {
    var a := Admit(st, event, path);
    assert TargetsOf(path, a.src, a.langs)[k].path == GetTargetPath(path, a.src, a.langs[k]);
  }

  /** An unstamped post with a frontmatter block whose mirror in `src` is
      older is admitted on `add`, with `src` among its targets. */
  lemma UnmarkedNewerFileIsAdmitted(st: State, m: string, tgt: Locale, path: string, src: Locale)
    requires m in st.files && path in st.files && m !in st.pending
    requires EndsWith(m, ".md") && DetectLocale(m) == Some(tgt) && src != tgt
    requires ParseFrontmatter(st.files[m].content).Some? && !HasTranslatedFlag(st.files[m].content)
    requires GetTargetPath(m, tgt, src) == path && st.files[m].mtime > st.files[path].mtime
    ensures Admit(st, Add, m).Admitted? && Admit(st, Add, m).src == tgt && src in Admit(st, Add, m).langs
  {
    assert NeedsTranslation(st.files, m, GetTargetPath(m, tgt, src));
  }

  /** The mirrors `deleteTranslations` looks for. */
  function MirrorPaths(path: string, src: Locale): set<string> {
    set l | l != src :: GetTargetPath(path, src, l)
  }

  /** The deletion loop over `langs`: each mirror that exists is removed. */
  function DeleteFrom(fs: FileMap, path: string, src: Locale, langs: seq<Locale>): (r: FileMap)
    ensures r == fs - (set l | l in langs :: GetTargetPath(path, src, l))
    decreases |langs|
  {
    if |langs| == 0 then fs
    else
      var m := GetTargetPath(path, src, langs[0]);
      var fs1 := if m in fs then fs - {m} else fs;
      var r := DeleteFrom(fs1, path, src, langs[1..]);
      assert (set l | l in langs :: GetTargetPath(path, src, l)) ==
             {m} + (set l | l in langs[1..] :: GetTargetPath(path, src, l));
      r
  }

  /** `deleteTranslations(filePath)`: without a locale nothing happens;
      otherwise every mirror of the path is removed, whatever it contains. */
  function DeleteTranslations(fs: FileMap, path: string): (r: FileMap)
    ensures DetectLocale(path).None? ==> r == fs
    ensures DetectLocale(path).Some? ==> r == fs - MirrorPaths(path, DetectLocale(path).value)
  {
    match DetectLocale(path)
    case None => fs
    case Some(src) =>
      var r := DeleteFrom(fs, path, src, Others(src));
      assert (set l | l in Others(src) :: GetTargetPath(path, src, l)) == MirrorPaths(path, src);
      r
  }

  /** Deleting twice is deleting once. */
  lemma DeleteIsIdempotent(fs: FileMap, path: string)
    ensures DeleteTranslations(DeleteTranslations(fs, path), path) == DeleteTranslations(fs, path)
  {
  }

  /** Deletion never checks the marker: a hand-written file at a mirror path
      goes too, while the source path itself is kept. */
  lemma DeleteRemovesEveryMirror(fs: FileMap, path: string, l: Locale)
    requires DetectLocale(path).Some? && l != DetectLocale(path).value
    ensures GetTargetPath(path, DetectLocale(path).value, l) !in DeleteTranslations(fs, path)
    ensures path in fs ==> path in DeleteTranslations(fs, path)
  {
    var src := DetectLocale(path).value;
    forall l' | l' != src ensures GetTargetPath(path, src, l') != path {
      TargetPathIsNotSource(path, src, l');
    }
  }

  /** Maps that agree outside `changed` agree once a superset of it and one
      more key are removed. */
  lemma ChangesInsideAreRemoved(before: FileMap, after: FileMap, changed: set<string>, removed: set<string>, key: string)
    requires SameOutside(before, after, changed) && changed <= removed
    ensures (after - {key}) - removed == (before - {key}) - removed
  {
    var x := (after - {key}) - removed;
    var y := (before - {key}) - removed;
    assert forall p :: p in x <==> p in y;
    assert forall p :: p in x ==> x[p] == y[p];
  }

  /** Removing a post after the watcher translated it, and propagating the
      deletion, leaves the tree as if the post had been removed before: every
      file the batch wrote is a mirror of the post. */
  lemma DeleteUndoesTranslation(st: State, event: Event, path: string, replies: seq<Reply>, now: int)
    requires Admit(st, event, path).Admitted?
    ensures var after := HandleFile(st, event, path, replies, now).state.files;
            DeleteTranslations(after - {path}, path) == DeleteTranslations(st.files - {path}, path)
  {
    var a := Admit(st, event, path);
    var targets := TargetsOf(path, a.src, a.langs);
    var after := HandleFile(st, event, path, replies, now).state.files;
    assert PathsOf(targets) <= MirrorPaths(path, a.src) by {
      forall p | p in PathsOf(targets) ensures p in MirrorPaths(path, a.src) {
        var k :| 0 <= k < |targets| && targets[k].path == p;
        assert a.langs[k] in a.langs;
      }
    }
    ChangesInsideAreRemoved(st.files, after, PathsOf(targets), MirrorPaths(path, a.src), path);
  }
}

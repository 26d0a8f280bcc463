# Translation sync for a trilingual blog, in Dafny

This project models the four scripts that keep the Russian, English and Uzbek
copies of the blog's Markdown posts in step, and proves properties of that model:

- **the watcher** (`scripts/watch-translate.mjs`). It reacts to an added,
  changed or deleted post under `src/content/blog/<locale>/`. It asks the
  translation service for each missing or stale mirror and writes each reply
  stamped with the `translated: true` marker. When a post is deleted, it
  deletes the post's mirrors;
- **the batch reconciler** (`scripts/translate-all.mjs`). It makes one pass
  per locale. A pass translates every unmarked post into every locale
  directory that has no file of that name yet;
- **the single-file script** (`scripts/translate.mjs`). It translates the one
  post named on the command line into the two other locales;
- **the orphan-media sweep** (`scripts/cleanup-orphan-media.mjs`). It collects
  the `/uploads/<name>` references of all posts and deletes every file in
  `public/uploads` that nothing references.

The file system is a map from path to (content, modification time). The
translation service is an oracle that gives back a reply (a text plus a stop
reason) or a failure. The modules follow the scripts:

| module | file | models |
|---|---|---|
| `Text` | `text.dfy` | JavaScript string search and replace, `basename`/`dirname`, regular-expression character classes |
| `Locales` | `locales.dfy` | `LANGS`, locale detection from a path, `getTargetPath` |
| `Store` | `store.dfy` | files, replies, the watcher's `translate`, `needsTranslation` |
| `Frontmatter` | `frontmatter.dfy` | `parseFrontmatter`, `hasTranslatedFlag`, `addTranslatedFlag` |
| `Watcher` | `watcher.dfy` | `handleFile`, `deleteTranslations` |
| `Reconcile` | `reconcile.dfy` | the batch reconciler |
| `SingleFile` | `cli.dfy` | the single-file script |
| `MediaCleanup` | `media.dfy` | the orphan-media sweep |

The three regular expressions on frontmatter and the reference pattern of the
sweep are modelled as explicit scanners. Each scanner is proved equal to a
declarative description of what the pattern matches.

## Behaviour worth knowing

- Stamping never looks for an existing marker. It inserts a new marker line
  after an LF opening delimiter every time. The watcher and the batch script
  stamp the service's reply as it comes back. A reply that already carries
  `translated: true` in its header therefore gets a second marker line
  (`Frontmatter.StampDoesNotDeduplicate`).
- Only the watcher refuses a reply cut at `max_tokens`
  (`Watcher.TruncatedReplyIsNotWritten`). The batch script writes such a
  reply, stamped (`Reconcile.TruncatedReplyIsWritten`). The single-file
  script writes it as it is.
- The marker is what tells a mirror from a post. A reply that opens with
  `---\r\n` is not stamped, because the stamp only matches `---\n`. Such a
  mirror stays unmarked. If it is newer than its source, a later `add` event
  translates it back over the source (`Watcher.CrlfMirrorIsRetranslated`).
- `getTargetPath` rewrites only the first `/blog/<src>/`. A post whose path
  holds that segment twice gets a mirror that is still detected in the
  source locale (`Locales.MirrorMayStayInSourceLocale`).
- The single-file script rewrites `/blog/<src>` in the directory part without
  a trailing slash. Its target can therefore stay in the source locale
  (`SingleFile.CliTargetMayStayInSourceLocale`).
- Stamping a post whose header starts with a `---` line closes the header
  right after the marker. The rest of the old header moves into the body
  (`Frontmatter.DelimiterFirstLineLeaksIntoBody`).
- A reference with a query string (`/uploads/a.png?v=2`) captures
  `a.png?v=2`. It does not protect `a.png` from the sweep
  (`MediaCleanup.QueryStringDoesNotProtect`).

## Model

| member | source | states |
|---|---|---|
| Locales.DetectLocale | scripts/watch-translate.mjs:87-91 | the detected locale is the first of ru, en, uz whose `/blog/<code>/` occurs in the path; there is none exactly when no segment occurs |
| Locales.Others | scripts/watch-translate.mjs:107 | the targets are the two locales other than the source, in `LANGS` order |
| Locales.TargetPathWithoutSegment | scripts/watch-translate.mjs:63-65 | a path without the source segment maps to itself |
| Locales.TargetPathShape | scripts/watch-translate.mjs:63-65 | only the first source segment is replaced by the target segment; every other character is unchanged |
| Locales.TargetPathKeepsFilename | scripts/watch-translate.mjs:63-65 | the mirror has the same file name as the source |
| Locales.TargetPathKeepsSuffix | scripts/watch-translate.mjs:63-65 | the mirror of a `.md` path is a `.md` path |
| Locales.TargetPathsDistinct | scripts/watch-translate.mjs:107-109 | different target locales give different mirror paths, in both directions |
| Locales.TargetPathIsNotSource | scripts/watch-translate.mjs:107-109 | no mirror of a post is the post itself |
| Locales.TargetPathRoundTrip | scripts/watch-translate.mjs:63-65 | mapping to a locale absent from the path and back restores the path |
| Locales.GetTargetPath | scripts/watch-translate.mjs:63-65 | the mirror path; what it is is stated by `TargetPathWithoutSegment`, `TargetPathShape`, `TargetPathKeepsFilename`, `TargetPathRoundTrip` and `MirrorPathFacts` |
| Locales.MirrorPathFacts | scripts/watch-translate.mjs:63-65 | for a `.md` path holding the source segment and not the target one, the mirror is a `.md` path other than the post, and mapping it back gives the post |
| Locales.DetectsRu | scripts/watch-translate.mjs:87 | a path with `/blog/ru/` anywhere is a `ru` path, since `ru` comes first in `LANGS` |
| Locales.MirrorMayStayInSourceLocale | scripts/watch-translate.mjs:63-65 | the `en` mirror of `a/blog/ru/b/blog/ru/p.md` is `a/blog/en/b/blog/ru/p.md`, which is still detected as `ru` |
| Store.WatchOutcome | scripts/watch-translate.mjs:56-60 | the watcher gets text exactly when the reply finished normally; a `max_tokens` reply is an error |
| Store.NeedsTranslation | scripts/watch-translate.mjs:67-72 | a mirror needs translating when it is missing or older than the post; what that means for the watcher is stated by `WrittenTargetIsFresh`, `Watcher.AddSkipsUpToDateMirrors` and `Watcher.UnmarkedNewerFileIsAdmitted` |
| Store.WrittenTargetIsFresh | scripts/watch-translate.mjs:67-72 | after a write at time `now`, the mirror is stale exactly when the source's mtime is later than `now` |
| Frontmatter.ParseFrontmatter | scripts/watch-translate.mjs:18-22 | a header is found exactly when the text opens with a delimiter line and has a closing one; `raw` ends at the first closing delimiter and `body` is the rest |
| Frontmatter.ParseReconstructsLf | scripts/watch-translate.mjs:18-22 | an LF document is delimiter + raw + delimiter + body |
| Frontmatter.ParseComposes | scripts/watch-translate.mjs:18-22 | composing a header without delimiter lines and a body parses back to both |
| Frontmatter.FlagLineAtIff | scripts/watch-translate.mjs:27 | the marker scanner agrees with the multiline pattern `^translated:\s*true$` |
| Frontmatter.ScanFlag | scripts/watch-translate.mjs:27 | the scan is true exactly when the pattern matches at some later position |
| Frontmatter.HasTranslatedFlag | scripts/watch-translate.mjs:24-28 | a document is marked exactly when it has a header and the pattern matches inside that header |
| Frontmatter.AddTranslatedFlag | scripts/watch-translate.mjs:30-32 | the stamp; what it does is stated by `StampIsInsertion`, `StampedHeader`, `StampSetsFlag`, `StampDoesNotDeduplicate` and `CrlfDocumentStaysUnmarked` |
| Frontmatter.StampIsInsertion | scripts/watch-translate.mjs:30-32 | stamping inserts the marker line after an LF opening delimiter and leaves anything else unchanged |
| Frontmatter.StampedHeader | scripts/watch-translate.mjs:18-32 | when the header's first line is not itself `---`, a stamped document's header is the marker line followed by the old header, and its body is the old body; when it is `---`, the marker alone becomes the header and the rest of the old header joins the body |
| Frontmatter.DelimiterFirstLineLeaksIntoBody | scripts/watch-translate.mjs:18-32 | `---\n---\nA\n---\nB` has header `---\nA` and body `B`; once stamped, its header is `translated: true` and its body is `A\n---\nB` |
| Frontmatter.StampSetsFlag | scripts/watch-translate.mjs:24-32 | stamping a document with an LF header makes it marked |
| Frontmatter.StampDoesNotDeduplicate | scripts/watch-translate.mjs:30-32 | stamping twice inserts the marker line twice |
| Frontmatter.BodyIsIgnored | scripts/watch-translate.mjs:24-28 | whether a document is marked depends on the header only |
| Frontmatter.MarkerInBodyDoesNotCount | scripts/watch-translate.mjs:24-28 | a marker line in the body does not mark the document |
| Frontmatter.MarkerMaySpanLines | scripts/watch-translate.mjs:27 | `\s*` crosses a line break, so `translated:` and `true` on two lines count as a marker |
| Frontmatter.CrlfDocumentStaysUnmarked | scripts/watch-translate.mjs:19-31 | a CRLF document has a header, yet stamping leaves it unchanged and unmarked |
| Watcher.Kept | scripts/watch-translate.mjs:110-115 | the filter keeps exactly the locales the predicate accepts, in order |
| Watcher.Selected | scripts/watch-translate.mjs:106-115 | the selected locales are exactly the other locales whose mirror needs translating, or all of them on `change`, in `LANGS` order |
| Watcher.TargetsOf | scripts/watch-translate.mjs:108-109 | each target pairs a locale with its mirror path; for distinct locales other than the source, under a path holding the source segment, the paths are pairwise different and none is the post |
| Watcher.Admit | scripts/watch-translate.mjs:74-122 | the checks on the extension, the pending set, the locale, the file, the header, the marker and staleness, in the source's order; an admitted file yields its source locale, its content and the non-empty ordered set of stale targets; conversely a Markdown post not in flight, with a detected locale, a header, no marker and at least one selected locale is admitted |
| Watcher.BeginBatch | scripts/watch-translate.mjs:122 | marks the post in flight; `BatchRestoresPending` and `InFlightEventIsDropped` state what that does |
| Watcher.EndBatch | scripts/watch-translate.mjs:147 | clears the post's in-flight mark; `BatchRestoresPending` states that the in-flight set is then as before the batch |
| Watcher.BatchRestoresPending | scripts/watch-translate.mjs:122-147 | the post is in flight while its batch runs; afterwards the in-flight set is what it was, and the files written are kept |
| Watcher.RunTargets | scripts/watch-translate.mjs:128-141 | each target gets a stamped write at `now` when its reply finished, and stays as it was otherwise; nothing outside the targets changes |
| Watcher.HandleFile | scripts/watch-translate.mjs:74-148 | a skipped event changes nothing; an admitted one changes only mirrors, never the source; the pending set is restored |
| Watcher.AdmittedTargets | scripts/watch-translate.mjs:107-109 | the admitted targets have distinct paths, all different from the source |
| Watcher.InFlightEventIsDropped | scripts/watch-translate.mjs:82-85 | an event for a file whose batch is running is skipped |
| Watcher.ChangeSelectsEveryLocale | scripts/watch-translate.mjs:106-111 | a `change` event targets both other locales, whatever their mtimes |
| Watcher.NewPostIsTranslated | scripts/watch-translate.mjs:74-148 | on `add`, a new unmarked post with no mirror is admitted with both other locales, one reply is consumed per locale in `LANGS` order, and each mirror exists afterwards exactly when its reply finished, holding it stamped |
| Watcher.AddSkipsUpToDateMirrors | scripts/watch-translate.mjs:110-120 | an `add` event whose mirrors all exist and are not older is skipped and changes nothing |
| Watcher.TruncatedReplyIsNotWritten | scripts/watch-translate.mjs:56-58 | a target whose reply hit `max_tokens` is left as it was |
| Watcher.MirrorIsNotRetranslated | scripts/watch-translate.mjs:100-103 | a written mirror with an LF header is marked, so its own event is skipped |
| Watcher.CrlfMirrorIsRetranslated | scripts/watch-translate.mjs:31 | a written CRLF mirror stays unmarked and, being newer, is admitted as a source that targets the original post |
| Watcher.WrittenMirror | scripts/watch-translate.mjs:132-135 | a finished reply is written stamped at `now`; the source and the pending set are unchanged |
| Watcher.UnmarkedNewerFileIsAdmitted | scripts/watch-translate.mjs:77-122 | an unmarked post newer than its counterpart is admitted with that counterpart as a target |
| Watcher.DeleteFrom | scripts/watch-translate.mjs:157-164 | the loop removes exactly the mirrors of the listed locales |
| Watcher.DeleteTranslations | scripts/watch-translate.mjs:150-169 | without a detected locale nothing changes; otherwise exactly the post's mirrors are removed, whatever they contain |
| Watcher.DeleteIsIdempotent | scripts/watch-translate.mjs:150-169 | deleting twice is deleting once |
| Watcher.DeleteRemovesEveryMirror | scripts/watch-translate.mjs:157-164 | every mirror is gone afterwards and the post itself stays |
| Watcher.DeleteUndoesTranslation | scripts/watch-translate.mjs:128-169 | removing the post and its mirrors after a translation batch gives the same tree as removing them before it |
| Reconcile.EntryPathInjective | scripts/translate-all.mjs:55-71 | `join(BLOG_DIR, locale, name)` is injective in (locale, name) |
| Reconcile.EntryOfPath | scripts/translate-all.mjs:55-71 | locale and name are recovered from an entry path |
| Reconcile.Listing | scripts/translate-all.mjs:58 | the listing holds exactly the `.md` names directly in the locale directory |
| Reconcile.MirrorsOf | scripts/translate-all.mjs:69-71 | exactly the entry paths of the name in the given locales |
| Reconcile.Attempt | scripts/translate-all.mjs:73-85 | a missing target is created exactly when the call returned text, stamped; existing files never change; the count grows by the number of files created |
| Reconcile.TranslateEntry | scripts/translate-all.mjs:67-86 | only mirrors of the entry are added, nothing changes, and the count is the number added |
| Reconcile.Asks | scripts/translate-all.mjs:69-77 | the target locales the inner loop calls the service for; `TranslateEntryAsks` states which |
| Reconcile.TranslateEntryAsks | scripts/translate-all.mjs:69-77 | the inner loop calls the service for exactly the targets whose mirror was missing when it started |
| Reconcile.LaterTargetsKeep | scripts/translate-all.mjs:69-86 | a locale outside the target list is not touched |
| Reconcile.TranslateEntryWrites | scripts/translate-all.mjs:69-85 | each missing target exists afterwards exactly when its call returned text, and then holds that text stamped |
| Reconcile.HandleSourceAsks | scripts/translate-all.mjs:64-77 | the calls made for a source entry are exactly its wanted mirrors |
| Reconcile.HandleEntry | scripts/translate-all.mjs:60-86 | handling one listed entry: the files written so far are what a pass must write for the entries handled, the calls are their wanted mirrors, and the count is the number of files added |
| Reconcile.ReconcilePass | scripts/translate-all.mjs:54-87 | a pass adds exactly the stamped replies for wanted mirrors, changes nothing existing, and counts what it added; it calls the service for exactly the wanted mirrors, so a marked entry, one without a header or one whose mirror exists costs no call |
| Reconcile.ReconcileAll | scripts/translate-all.mjs:52-90 | the run is the ru, en and uz passes in order; the final count is the number of files created; the calls of each pass are the mirrors wanted in the tree it sees; on a settled tree the run makes no call and writes nothing |
| Reconcile.SettledRunIsIdle | scripts/translate-all.mjs:52-88 | on a tree where no mirror is wanted, no pass calls the service or writes a file |
| Reconcile.PassResultIsUnique | scripts/translate-all.mjs:58-60 | the result of a pass does not depend on the order of the listing |
| Reconcile.SettledPassWritesNothing | scripts/translate-all.mjs:64-73 | a pass over a tree with no missing mirror writes nothing |
| Reconcile.PassKeepsSources | scripts/translate-all.mjs:64-65 | when every call returns a document with an LF header, a pass neither creates nor removes unmarked posts |
| Reconcile.PassStaysOutOfItsLocale | scripts/translate-all.mjs:69-80 | a pass creates and removes nothing in its own locale directory |
| Reconcile.SourceCompletesName | scripts/translate-all.mjs:64-85 | with a service that always answers, a pass gives each source entry of its locale a file of that name in every locale |
| Reconcile.AddedCompletesName | scripts/translate-all.mjs:69-85 | with a service that always answers, a pass that creates any file of a name creates every missing one |
| Reconcile.CompleteStays | scripts/translate-all.mjs:73 | a name present in every locale stays so, since a pass removes nothing |
| Reconcile.PassCompletesItsLocale | scripts/translate-all.mjs:69-85 | with a service that always answers, whatever the replies look like, no mirror of the pass's locale is missing afterwards |
| Reconcile.RunSettles | scripts/translate-all.mjs:52-90 | with a service that always answers, whatever the replies look like, a full run leaves no missing mirror, so a second run makes no call and writes nothing |
| Reconcile.TruncatedReplyIsWritten | scripts/translate-all.mjs:27-50 | a `max_tokens` reply is written, stamped |
| Reconcile.EntryMirrorAgrees | scripts/translate-all.mjs:70-71 | the batch script's target path equals the watcher's mirror path |
| SingleFile.Answered | scripts/translate.mjs:50-58 | the number of calls answered before the first failure |
| SingleFile.AnsweredOthers | scripts/translate.mjs:50-58 | both calls are answered exactly when the service answers for every other locale |
| SingleFile.WriteMirrors | scripts/translate.mjs:50-58 | the status is 0 exactly when every call is answered; files are added only at the answered targets' paths |
| SingleFile.WriteMirrorsWrites | scripts/translate.mjs:52-56 | each answered target's path holds the reply verbatim, unstamped, at `now` |
| SingleFile.WriteMirrorsKeeps | scripts/translate.mjs:50-58 | a path that is no target keeps its file |
| SingleFile.RunCli | scripts/translate.mjs:8-58 | a missing argument, an undetected locale or an unreadable input exits with 1 and writes nothing; the status is 0 exactly when every call is answered |
| SingleFile.CliTarget | scripts/translate.mjs:53-55 | the path written for one locale; what it is is stated by `CliTargetShape`, `CliTargetsDistinct`, `CliEntryAgrees` and `CliTargetMayStayInSourceLocale` |
| SingleFile.CliTargetShape | scripts/translate.mjs:53-55 | the target is the input with the first `/blog/<src>` of the directory replaced |
| SingleFile.CliTargetsDistinct | scripts/translate.mjs:53-55 | different target locales give different paths; the source locale gives the input |
| SingleFile.RunCliWrites | scripts/translate.mjs:50-58 | the answered targets are written verbatim; from the first failure on, no target is created or changed |
| SingleFile.RunCliKeeps | scripts/translate.mjs:50-58 | the input and every non-target path keep their files; a first failed call changes nothing |
| SingleFile.CliEntryAgrees | scripts/translate.mjs:53-55 | for a post directly in its locale directory, the script's target is the watcher's mirror |
| SingleFile.CliTargetMayStayInSourceLocale | scripts/translate.mjs:53 | for `a/blog/rux/blog/ru/p.md` the English target is still detected as Russian |
| MediaCleanup.RunEnd | scripts/cleanup-orphan-media.mjs:17 | the end of the longest run of reference characters |
| MediaCleanup.RefsFrom | scripts/cleanup-orphan-media.mjs:17-19 | the captures of the global pattern from one position on; `RefsFromSound` and `RefsFromComplete` state which they are |
| MediaCleanup.Referenced | scripts/cleanup-orphan-media.mjs:10-23 | the references of every post under the blog tree; `RefsOfPost` and `SweepKeepsReferences` state what they are |
| MediaCleanup.RefsFromSound | scripts/cleanup-orphan-media.mjs:17-19 | every captured reference is the maximal run after a match start that no earlier match covers |
| MediaCleanup.RefsFromComplete | scripts/cleanup-orphan-media.mjs:17-19 | every match start that no earlier match covers is captured |
| MediaCleanup.RefsOfPost | scripts/cleanup-orphan-media.mjs:17-19 | the captures of a post, characterised in both directions |
| MediaCleanup.RefAtIsMaximalRun | scripts/cleanup-orphan-media.mjs:17 | a capture is non-empty, follows `/uploads/`, contains only reference characters, and ends at a delimiter or at the end |
| MediaCleanup.DelimitedRefIsFound | scripts/cleanup-orphan-media.mjs:17-19 | a reference not preceded by a reference character is always captured |
| MediaCleanup.FirstOccurrenceIsFound | scripts/cleanup-orphan-media.mjs:17-19 | the first `/uploads/` of a post starts a capture |
| MediaCleanup.RemoveOrphans | scripts/cleanup-orphan-media.mjs:33-42 | exactly the unreferenced uploads other than `.gitkeep` are removed, the rest is unchanged, and the count is their number |
| MediaCleanup.CleanupOrphanMedia | scripts/cleanup-orphan-media.mjs:10-42 | without an uploads directory nothing changes; otherwise the sweep runs against the references of all posts |
| MediaCleanup.SweepLeavesNoOrphans | scripts/cleanup-orphan-media.mjs:34-41 | afterwards every upload is `.gitkeep` or referenced, and every such upload survives |
| MediaCleanup.SweepKeepsReferences | scripts/cleanup-orphan-media.mjs:10-23 | the sweep does not change the set of references |
| MediaCleanup.CleanupIsIdempotent | scripts/cleanup-orphan-media.mjs:33-42 | a second sweep finds no orphan and changes nothing |
| MediaCleanup.QueryStringDoesNotProtect | scripts/cleanup-orphan-media.mjs:17-36 | `/uploads/a.png?v=2` captures `a.png?v=2`, and `public/uploads/a.png` is an orphan |

## Left out

- The translation service is an oracle. The model keeps the API client,
  model name, prompts, `max_tokens` value and `LANG_NAMES` out. A response
  without text (`content[0]` missing) counts as a failed call.
- Logging and console output are left out, including the final messages.
  The counts they report are modelled.
- The chokidar wiring is left out: the `**/*.md` glob, `ignoreInitial`,
  `awaitWriteFinish` and the mapping of `unlink` events. `handleFile` and
  `deleteTranslations` are modelled as the handlers they are.
- Each watcher batch is atomic. The model leaves out interleaving between
  batches for different paths while a call is outstanding. It keeps the
  pending set's effect on events for the same path.
- Modification times are integers rather than `mtimeMs` doubles. All writes
  of one batch or run get the same `now`.
- Directories and `mkdirSync` are left out. A directory exists when a path
  below it does, and creating it never fails.
- `path.join` and `path.dirname` are modelled for normalised paths only:
  no `..`, `.`, doubled or trailing slashes.
- The readdir order is unspecified. The batch reconciler takes entries in
  an arbitrary order, and `Reconcile.PassResultIsUnique` shows the order
  does not matter.
- The batch reconciler's oracle depends on (source locale, file name,
  target locale). Within one run the source text of that triple never
  changes, because the run only adds files.
- File system errors are left out: a failed `writeFileSync`, a `.md`
  directory entry that `readFileSync` rejects, a subdirectory of
  `public/uploads` that `unlinkSync` rejects. The sweep lists only files
  directly inside `public/uploads`.
- The existence of `src/content/blog` and of `public/uploads` is a
  parameter of the sweep or follows from the file map. A missing
  `public/uploads` is required to hold no file of the map.
- Watcher.Admit treats a source that cannot be read as a skip. In the
  script, `readFileSync` throws inside the async handler; Node reports an
  unhandled rejection, which by default ends the process.
- Locales.MirrorPathFacts does not promise that the mirror is detected in
  the target locale. When the source segment occurs twice in the path, the
  mirror keeps one and is still detected in the source locale
  (`Locales.MirrorMayStayInSourceLocale`).
- The Astro configuration, the content schema and the middleware are not
  part of this model.

/**
  The file tree the scripts work on and the translation service they call.

  The tree is a map from path to file contents and modification time, standing
  for `readFileSync`, `writeFileSync`, `existsSync`, `statSync` and
  `unlinkSync`. The translation service is an oracle: each call gives back a
  `Reply` (the text and why generation stopped) or fails.
 */
module Store {

  /** `BLOG_DIR`, declared alike by every script. */
  const BlogDir: string := "src/content/blog"

  /** A file: its text and its modification time (`mtimeMs`, as an integer). */
  datatype File = File(content: string, mtime: int)

  type FileMap = map<string, File>

  /** Why the service stopped generating: `max_tokens` means the text was cut. */
  datatype StopReason = EndTurn | MaxTokens

  /** One call to the translation service. `Failed` covers network and API
      errors and a response without text. */
  datatype Reply = Reply(text: string, stop: StopReason) | Failed

  datatype TranslateError = Truncated | ServiceError

  /** What the watcher's `translate` returns or throws. */
  datatype Outcome = Translated(text: string) | Error(reason: TranslateError)

  /** The watcher's `translate` (scripts/watch-translate.mjs:56-60): a reply
      cut at `max_tokens` is thrown away as an error, so truncated text can
      never reach a file. */
  function WatchOutcome(reply: Reply): (o: Outcome)
    ensures o.Translated? <==> reply.Reply? && reply.stop == EndTurn
    ensures o.Translated? ==> o.text == reply.text
    ensures reply.Reply? && reply.stop == MaxTokens ==> o == Error(Truncated)
  {
    match reply
    case Failed => Error(ServiceError)
    case Reply(text, stop) =>
      match stop
      case MaxTokens => Error(Truncated)
      case EndTurn => Translated(text)
  }

  /** `needsTranslation`: a missing target always needs one; an existing one
      only when the source was modified strictly later. */
  function NeedsTranslation(fs: FileMap, sourcePath: string, targetPath: string): bool
    requires sourcePath in fs
  {
    targetPath !in fs || fs[sourcePath].mtime > fs[targetPath].mtime
  }

  /** Staleness is a strict comparison: writing the target at the source's own
      time, or later, makes it up to date, and only a later modification of
      the source makes it stale again. */
  lemma WrittenTargetIsFresh(fs: FileMap, sourcePath: string, targetPath: string, content: string, now: int)
    requires sourcePath in fs && sourcePath != targetPath
    ensures var after := fs[targetPath := File(content, now)];
            !NeedsTranslation(after, sourcePath, targetPath) <==> fs[sourcePath].mtime <= now
  {
  }
}

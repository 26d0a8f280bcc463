/**
  The orphan-media sweep (scripts/cleanup-orphan-media.mjs): collect every
  `/uploads/<name>` reference from the Markdown posts of the blog tree, then
  delete each file directly inside `public/uploads` that no post references,
  except `.gitkeep`.

  References are extracted by the global regular expression
  `/\/uploads\/([^\s"')>\]]+)/g`, written here as a left-to-right scanner:
  at each position the pattern `/uploads/` followed by at least one reference
  character starts a match, the match takes the longest run of reference
  characters, and the search resumes after it. So an occurrence of
  `/uploads/` that lies inside an earlier match is not a match of its own.
 */
module MediaCleanup {
  import opened Text
  import opened Store

  /** The literal part of the reference pattern. */
  const Pattern: string := "/uploads/"

  /** `UPLOADS_DIR` with its separator. */
  const UploadsPrefix: string := "public/uploads/"

  /** The class `[^\s"')>\]]`. */
  predicate IsRefChar(c: char) {
    !IsJsWhitespace(c) && c != '"' && c != '\'' && c != ')' && c != '>' && c != ']'
  }

  /** Every character of an occurrence of the pattern is a reference
      character. */
  lemma RefInsideOccurrence(s: string, j: int)
    ensures OccursAt(s, Pattern, j) ==> forall m :: j <= m < j + 9 ==> IsRefChar(s[m])
  {
    if OccursAt(s, Pattern, j) {
      OccursAtChars(s, Pattern, j);
      forall m | j <= m < j + 9 ensures IsRefChar(s[m]) {
        assert s[m] == Pattern[m - j];
      }
    }
  }

  /** The end of the run of reference characters starting at `j`. */
  function RunEnd(s: string, j: nat): (e: nat)
    requires j <= |s|
    ensures j <= e <= |s|
    ensures forall m :: j <= m < e ==> IsRefChar(s[m])
    ensures e < |s| ==> !IsRefChar(s[e])
    decreases |s| - j
  {
    if j == |s| || !IsRefChar(s[j]) then j else RunEnd(s, j + 1)
  }

  /** A match of the regular expression can start at `j`: the pattern and
      one reference character after it. */
  predicate MatchStart(s: string, j: int) {
    OccursAt(s, Pattern, j) && j + 9 < |s| && IsRefChar(s[j + 9])
  }

  /** The capture group of a match at `j`: the longest run of reference
      characters after the pattern. */
  function RefAt(s: string, j: int): string
    requires MatchStart(s, j)
  {
    s[j + 9..RunEnd(s, j + 9)]
  }

  /** `content.matchAll(...)` from position `i` on, collecting each `m[1]`. */
  function RefsFrom(s: string, i: nat): set<string>
    decreases |s| - i
  {
    if i >= |s| then {}
    else if MatchStart(s, i) then
      var e := RunEnd(s, i + 9);
      {s[i + 9..e]} + RefsFrom(s, e)
    else RefsFrom(s, i + 1)
  }

  /** An occurrence of the pattern at `k` whose run of reference characters
      reaches up to `j`: a match starting at `k`, or at a match covering `k`,
      goes on past `j`. */
  ghost predicate Covers(s: string, k: int, j: int) {
    0 <= k < j <= |s| && OccursAt(s, Pattern, k) && forall m :: k + 9 <= m < j ==> IsRefChar(s[m])
  }

  /** Position `j` lies inside a match that starts at or after `i`. */
  ghost predicate Hidden(s: string, i: int, j: int) {
    exists k :: i <= k < j && Covers(s, k, j)
  }

  /** Every reference found is the capture at a possible match start that no
      earlier match swallows. */
  lemma {:induction false} RefsFromSound(s: string, i: nat, x: string)
    ensures x in RefsFrom(s, i) ==> exists j :: i <= j && MatchStart(s, j) && !Hidden(s, i, j) && RefAt(s, j) == x
    decreases |s| - i
  {
    if x in RefsFrom(s, i) {
      if MatchStart(s, i) {
        var e := RunEnd(s, i + 9);
        if x == s[i + 9..e] {
          assert RefAt(s, i) == x && !Hidden(s, i, i);
        } else {
          RefsFromSound(s, e, x);
          var j :| e <= j && MatchStart(s, j) && !Hidden(s, e, j) && RefAt(s, j) == x;
          RefInsideOccurrence(s, j);
          assert IsRefChar(s[j]) && !IsRefChar(s[e]);
          forall k | i <= k < j ensures !Covers(s, k, j) {
            if k < e {
              RefInsideOccurrence(s, k);
              assert !IsRefChar(s[e]);
            }
          }
        }
      } else {
        RefsFromSound(s, i + 1, x);
        var j :| i + 1 <= j && MatchStart(s, j) && !Hidden(s, i + 1, j) && RefAt(s, j) == x;
        if OccursAt(s, Pattern, i) {
          RefInsideOccurrence(s, j);
          assert !IsRefChar(s[i + 9]);
        }
        assert !Covers(s, i, j);
      }
    }
  }

  /** Every possible match start that no earlier match swallows contributes
      its capture. */
  lemma {:induction false} RefsFromComplete(s: string, i: nat, j: int)
    requires i <= j && MatchStart(s, j) && !Hidden(s, i, j)
    ensures RefAt(s, j) in RefsFrom(s, i)
    decreases |s| - i
  {
    if i < j {
      if MatchStart(s, i) {
        var e := RunEnd(s, i + 9);
        assert !Covers(s, i, j);
        RefsFromComplete(s, e, j);
      } else {
        RefsFromComplete(s, i + 1, j);
      }
    }
  }

  /** The references of one post, in the terms of the regular expression:
      the captures at the match starts not swallowed by an earlier match. */
  lemma RefsOfPost(s: string, x: string)
    ensures x in RefsFrom(s, 0) <==> exists j :: 0 <= j && MatchStart(s, j) && !Hidden(s, 0, j) && RefAt(s, j) == x
  {
    RefsFromSound(s, 0, x);
    if exists j :: 0 <= j && MatchStart(s, j) && !Hidden(s, 0, j) && RefAt(s, j) == x {
      var j :| 0 <= j && MatchStart(s, j) && !Hidden(s, 0, j) && RefAt(s, j) == x;
      RefsFromComplete(s, 0, j);
    }
  }

  /** A capture is a non-empty run of reference characters that ends the
      run. */
  lemma RefAtIsMaximalRun(s: string, j: int)
    requires MatchStart(s, j)
    ensures var x := RefAt(s, j);
            && |x| > 0 && s[j..j + 9] == Pattern && s[j + 9..j + 9 + |x|] == x
            && (forall c :: c in x ==> IsRefChar(c))
            && (j + 9 + |x| < |s| ==> !IsRefChar(s[j + 9 + |x|]))
  {
  }

  /** A pattern occurrence at the start or after a character that cannot be
      part of a reference (a space, a quote, a parenthesis) is never
      swallowed, so its capture is always found. */
  lemma DelimitedRefIsFound(s: string, j: int)
    requires MatchStart(s, j) && (j == 0 || !IsRefChar(s[j - 1]))
    ensures RefAt(s, j) in RefsFrom(s, 0)
  {
    forall k | 0 <= k < j ensures !Covers(s, k, j) {
      if k + 9 <= j - 1 {
        assert !IsRefChar(s[j - 1]);
      } else {
        RefInsideOccurrence(s, k);
        assert !IsRefChar(s[j - 1]);
      }
    }
    RefsFromComplete(s, 0, j);
  }

  /** The first occurrence of the pattern in a post is found wherever it
      stands, inside an absolute URL such as `https://host/uploads/a.png`
      too. */
  lemma FirstOccurrenceIsFound(s: string, j: int)
    requires MatchStart(s, j) && forall k :: 0 <= k < j ==> !OccursAt(s, Pattern, k)
    ensures RefAt(s, j) in RefsFrom(s, 0)
  {
    RefsFromComplete(s, 0, j);
  }

  /** `scanDir(BLOG_DIR)`: the files anywhere below the blog directory whose
      name ends in `.md`. */
  predicate IsPost(p: string) {
    StartsWith(p, BlogDir + "/") && EndsWith(p, ".md")
  }

  /** The `referenced` set: every capture of every post. */
  function Referenced(fs: FileMap): set<string> {
    set p, x | p in fs && IsPost(p) && x in RefsFrom(fs[p].content, 0) :: x
  }

  /** An entry of `readdirSync(UPLOADS_DIR)`: a file directly inside the
      uploads directory. */
  predicate IsUpload(p: string) {
    StartsWith(p, UploadsPrefix) && |p| > 15 && '/' !in p[15..]
  }

  function UploadName(p: string): string
    requires IsUpload(p)
  {
    p[15..]
  }

  /** What the removal loop deletes: an upload other than `.gitkeep` whose
      name is not referenced. */
  predicate IsOrphan(p: string, refs: set<string>) {
    IsUpload(p) && UploadName(p) != ".gitkeep" && UploadName(p) !in refs
  }

  function Orphans(fs: FileMap, refs: set<string>): set<string> {
    set p | p in fs && IsOrphan(p, refs)
  }

  /** The tree after the removal loop: the orphans are gone, every other
      file is as it was. */
  ghost predicate IsSweep(fs: FileMap, after: FileMap, refs: set<string>) {
    && (forall p :: p in after <==> p in fs && !IsOrphan(p, refs))
    && (forall p :: p in after ==> after[p] == fs[p])
  }

  /** The removal loop (scripts/cleanup-orphan-media.mjs:33-42), over the
      uploads in whatever order the directory listing gives them; `removed`
      counts the unlinks. */
  method RemoveOrphans(fs: FileMap, refs: set<string>) returns (after: FileMap, removed: nat)
    ensures IsSweep(fs, after, refs)
    ensures removed == |Orphans(fs, refs)|
  {
    var entries := set p | p in fs && IsUpload(p);
    after := fs;
    removed := 0;
    while entries != {}
      invariant entries <= fs.Keys
      invariant forall p :: p in entries ==> IsUpload(p)
      invariant forall p :: p in after <==> p in fs && !(IsOrphan(p, refs) && p !in entries)
      invariant forall p :: p in after ==> after[p] == fs[p]
      invariant removed == |Orphans(fs, refs) - entries|
      decreases |entries|
    {
      var p :| p in entries;
      OneEntryLess(Orphans(fs, refs), entries, p);
      entries := entries - {p};
      if UploadName(p) != ".gitkeep" && UploadName(p) !in refs {
        after := after - {p};
        removed := removed + 1;
      }
    }
  }

  /** Taking one entry off the to-do set adds it to the handled part of `o`
      exactly when it belongs to `o`. */
  lemma OneEntryLess(o: set<string>, entries: set<string>, p: string)
    requires p in entries
    ensures p in o ==> |o - (entries - {p})| == |o - entries| + 1
    ensures p !in o ==> o - (entries - {p}) == o - entries
  {
    if p in o {
      assert o - (entries - {p}) == (o - entries) + {p};
    }
  }

  /** The whole script: collect the references, stop if there is no uploads
      directory, otherwise sweep. Whether `public/uploads` exists is a
      parameter because an empty directory holds no file of the map; a
      missing directory holds no upload. */
  method CleanupOrphanMedia(fs: FileMap, uploadsExist: bool) returns (after: FileMap, removed: nat)
    requires !uploadsExist ==> forall p :: p in fs ==> !IsUpload(p)
    ensures !uploadsExist ==> after == fs && removed == 0
    ensures uploadsExist ==> IsSweep(fs, after, Referenced(fs)) && removed == |Orphans(fs, Referenced(fs))|
  {
    var refs := Referenced(fs);
    if !uploadsExist {
      return fs, 0;
    }
    after, removed := RemoveOrphans(fs, refs);
  }

  /** After a sweep no upload is an orphan: each remaining one is `.gitkeep`
      or referenced, and every referenced upload and `.gitkeep` is kept. */
  lemma SweepLeavesNoOrphans(fs: FileMap, after: FileMap, refs: set<string>)
    requires IsSweep(fs, after, refs)
    ensures Orphans(after, refs) == {}
    ensures forall p :: p in after && IsUpload(p) ==> UploadName(p) == ".gitkeep" || UploadName(p) in refs
    ensures forall p :: p in fs && IsUpload(p) && (UploadName(p) == ".gitkeep" || UploadName(p) in refs) ==> p in after
  {
  }

  /** Uploads are not posts, so a sweep leaves the referenced set as it was. */
  lemma SweepKeepsReferences(fs: FileMap, after: FileMap, refs: set<string>)
    requires IsSweep(fs, after, refs)
    ensures Referenced(after) == Referenced(fs)
  {
    forall p | p in fs && IsPost(p) ensures p in after && after[p] == fs[p] {
      assert p[..15] != UploadsPrefix by {
        assert p[..15][0] == p[..|BlogDir + "/"|][0];
      }
    }
  }

  /** A second run over the same posts removes nothing and leaves the tree
      as it is. */
  lemma CleanupIsIdempotent(fs: FileMap, after: FileMap, again: FileMap)
    requires IsSweep(fs, after, Referenced(fs))
    requires IsSweep(after, again, Referenced(after))
    ensures Orphans(after, Referenced(after)) == {}
    ensures again == after
  {
    SweepKeepsReferences(fs, after, Referenced(fs));
    SweepLeavesNoOrphans(fs, after, Referenced(fs));
  }

  /** The comparison is with the whole capture, so a reference with a query
      string or a fragment does not protect the file it points to:
      `/uploads/a.png?v=2` captures `a.png?v=2`, and `a.png` is deleted. */
  lemma QueryStringDoesNotProtect()
    ensures var fs := map["src/content/blog/ru/p.md" := File("![](/uploads/a.png?v=2)", 0),
                          "public/uploads/a.png" := File("", 0)];
            && Referenced(fs) == {"a.png?v=2"}
            && Orphans(fs, Referenced(fs)) == {"public/uploads/a.png"}
  {
    var s := "![](/uploads/a.png?v=2)";
    var post := "src/content/blog/ru/p.md";
    var upload := "public/uploads/a.png";
    var fs := map[post := File(s, 0), upload := File("", 0)];
    QueryStringCapture(s);
    ExamplePaths(post, upload);
    OnlyPost(fs, post);
    assert Orphans(fs, {"a.png?v=2"}) == {upload};
  }

  /** The example post is a post and no upload; the example upload is an
      upload named `a.png` and no post. */
  lemma ExamplePaths(post: string, upload: string)
    requires post == "src/content/blog/ru/p.md" && upload == "public/uploads/a.png"
    ensures IsPost(post) && !IsUpload(post)
    ensures IsUpload(upload) && UploadName(upload) == "a.png" && !IsPost(upload)
    ensures post != upload
  {
    assert post[..17] == BlogDir + "/" && post[|post| - 3..] == ".md";
    assert post[0] != UploadsPrefix[0] && post[..15][0] == post[0];
    assert upload[..15] == UploadsPrefix && upload[15..] == "a.png";
    assert upload[0] != (BlogDir + "/")[0] && upload[..17][0] == upload[0];
  }

  /** The one capture of the example post. */
  lemma QueryStringCapture(s: string)
    requires s == "![](/uploads/a.png?v=2)"
    ensures RefsFrom(s, 0) == {"a.png?v=2"}
  {
    ExampleLayout(s);
    forall k | 0 <= k < 4 ensures !MatchStart(s, k) {
      MismatchAt(s, Pattern, k, 0);
    }
    NoMatchBetween(s, 0, 4);
    RunEndIs(s, 13, 22);
    assert MatchStart(s, 4);
    assert RefsFrom(s, 22) == {};
  }

  /** Where the example post has its pattern and its delimiters. */
  lemma ExampleLayout(s: string)
    requires s == "![](/uploads/a.png?v=2)"
    ensures |s| == 23 && s[4..13] == Pattern && s[13..22] == "a.png?v=2"
    ensures forall k :: 0 <= k < 4 ==> s[k] != '/'
    ensures forall m :: 13 <= m < 22 ==> IsRefChar(s[m])
    ensures !IsRefChar(s[22])
  {
    assert s[..4] == "![](";
    forall k | 0 <= k < 4 ensures s[k] != '/' {
      assert s[k] == s[..4][k];
    }
    forall m | 13 <= m < 22 ensures IsRefChar(s[m]) {
      assert s[m] == s[13..22][m - 13];
    }
  }

  /** With a single post, the referenced set is that post's captures. */
  lemma OnlyPost(fs: FileMap, p: string)
    requires p in fs && IsPost(p) && forall q :: q in fs && q != p ==> !IsPost(q)
    ensures Referenced(fs) == RefsFrom(fs[p].content, 0)
  {
  }

  /** Positions where no match can start contribute nothing. */
  lemma {:induction false} NoMatchBetween(s: string, i: nat, j: nat)
    requires i <= j && forall k :: i <= k < j ==> !MatchStart(s, k)
    ensures RefsFrom(s, i) == RefsFrom(s, j)
    decreases j - i
  {
    if i < j {
      NoMatchBetween(s, i + 1, j);
    }
  }

  /** The run ends at the first character that is not a reference
      character. */
  lemma RunEndIs(s: string, j: nat, e: nat)
    requires j <= e <= |s| && (forall m :: j <= m < e ==> IsRefChar(s[m])) && (e < |s| ==> !IsRefChar(s[e]))
    ensures RunEnd(s, j) == e
  {
  }
}

/**
  The frontmatter tracker shared by the watcher and the one-shot reconciler
  (scripts/watch-translate.mjs:18-32, duplicated in scripts/translate-all.mjs:11-25).

  The three regular expressions of the source are written out as scanners:
  - `^---\r?\n([\s\S]*?)\r?\n---\r?\n([\s\S]*)$` splits the header (`raw`) from
    the body; `raw` ends at the FIRST closing delimiter line;
  - `/^translated:\s*true$/m` looks for the marker line inside `raw` only;
  - `replace(/^---\n/, '---\ntranslated: true\n')` stamps the marker.
 */
module Frontmatter {
  import opened Text

  datatype Header = Header(raw: string, body: string)

  /** The line `addTranslatedFlag` inserts after the opening delimiter. */
  const Marker: string := "translated: true\n"

  /** Length of the line break `\r?\n` at `i`, 0 when there is none. As in the
      pattern, a `\r` not followed by `\n` is no line break. */
  function LineBreakLength(s: string, i: int): nat {
    if 0 <= i && i + 1 < |s| && s[i] == '\r' && s[i + 1] == '\n' then 2
    else if 0 <= i < |s| && s[i] == '\n' then 1
    else 0
  }

  /** `---` at `i`. */
  predicate DashesAt(s: string, i: int) {
    0 <= i && i + 3 <= |s| && s[i] == '-' && s[i + 1] == '-' && s[i + 2] == '-'
  }

  /** Length of the opening `---\r?\n` at the start of `s`, 0 when absent. */
  function OpeningLength(s: string): nat {
    if DashesAt(s, 0) && LineBreakLength(s, 3) > 0 then 3 + LineBreakLength(s, 3) else 0
  }

  /** Length of a closing `\r?\n---\r?\n` starting at `k`, 0 when none starts
      there. A `\r` at `k` must be the first half of the leading line break. */
  function ClosingLength(s: string, k: int): nat {
    var lead := LineBreakLength(s, k);
    if lead > 0 && DashesAt(s, k + lead) && LineBreakLength(s, k + lead + 3) > 0
    then lead + 3 + LineBreakLength(s, k + lead + 3)
    else 0
  }

  /** `k` is the first position at or after `from` where a closing delimiter
      starts: this is what the lazy `([\s\S]*?)` selects. */
  ghost predicate IsFirstClosing(s: string, from: int, k: int) {
    from <= k && ClosingLength(s, k) > 0 &&
    forall j :: from <= j < k ==> ClosingLength(s, j) == 0
  }

  function FindClosing(s: string, k: nat): (r: Option<nat>)
    decreases |s| - k
    ensures r.Some? ==> IsFirstClosing(s, k, r.value)
    ensures r.None? ==> forall j :: k <= j ==> ClosingLength(s, j) == 0
  {
    if k >= |s| then None
    else if ClosingLength(s, k) > 0 then Some(k)
    else FindClosing(s, k + 1)
  }

  /** `parseFrontmatter`: `None` plays the role of the source's `null`. */
  function ParseFrontmatter(s: string): (r: Option<Header>)
    ensures r.Some? <==>
              OpeningLength(s) > 0 && exists k :: OpeningLength(s) <= k && ClosingLength(s, k) > 0
    ensures r.Some? ==>
              var o := OpeningLength(s);
              var k := o + |r.value.raw|;
              && IsFirstClosing(s, o, k)
              && k + ClosingLength(s, k) <= |s|
              && r.value.raw == s[o..k]
              && r.value.body == s[k + ClosingLength(s, k)..]
  {
    var o := OpeningLength(s);
    if o == 0 then None
    else
      match FindClosing(s, o)
      case None => None
      case Some(k) => Some(Header(s[o..k], s[k + ClosingLength(s, k)..]))
  }

  /** Two documents that agree from some point on agree on the closing
      delimiters found there. */
  lemma ClosingLengthOfSuffix(s: string, a: nat, t: string, b: nat)
    requires a <= |s| && b <= |t| && s[a..] == t[b..]
    ensures ClosingLength(s, a) == ClosingLength(t, b)
  {
    assert forall d :: 0 <= d < |s| - a ==> s[a + d] == s[a..][d];
    assert forall d :: 0 <= d < |t| - b ==> t[b + d] == t[b..][d];
  }

  /** The first closing delimiter is unique. */
  lemma FirstClosingUnique(s: string, from: int, k1: int, k2: int)
    requires IsFirstClosing(s, from, k1) && IsFirstClosing(s, from, k2)
    ensures k1 == k2
  {
  }

  /** For a document with LF line endings only, the header and the body put
      back between their delimiters give the document again. */
  lemma ParseReconstructsLf(s: string)
    requires '\r' !in s && ParseFrontmatter(s).Some?
    ensures var h := ParseFrontmatter(s).value; s == "---\n" + h.raw + "\n---\n" + h.body
  {
    var h := ParseFrontmatter(s).value;
    assert s[3] != '\r';
    assert OpeningLength(s) == 4;
    var k := 4 + |h.raw|;
    assert s[k] != '\r' && s[k + 4] != '\r';
    assert ClosingLength(s, k) == 5;
    assert s[..4] == "---\n";
    assert s[k..k + 5] == "\n---\n";
    assert s == s[..4] + s[4..k] + s[k..k + 5] + s[k + 5..];
  }

  /** No line of `raw` after the first starts with `---`. */
  ghost predicate NoDelimiterLine(raw: string) {
    forall j :: 0 <= j < |raw| && raw[j] == '\n' ==> !DashesAt(raw, j + 1)
  }

  /** A header without CR and without a line starting with `---`, followed by
      any body, parses back into exactly that header and body. */
  lemma ParseComposes(raw: string, body: string)
    requires '\r' !in raw && NoDelimiterLine(raw)
    ensures ParseFrontmatter("---\n" + raw + "\n---\n" + body) == Some(Header(raw, body))
  {
    var s := "---\n" + raw + "\n---\n" + body;
    var k := 4 + |raw|;
    assert forall j :: 4 <= j < k ==> s[j] == raw[j - 4];
    assert s[0] == '-' && s[1] == '-' && s[2] == '-' && s[3] == '\n';
    assert OpeningLength(s) == 4;
    assert s[k] == '\n' && s[k + 1] == '-' && s[k + 2] == '-' && s[k + 3] == '-' && s[k + 4] == '\n';
    assert ClosingLength(s, k) == 5;
    forall j | 4 <= j < k ensures ClosingLength(s, j) == 0 {
      assert s[j] != '\r';
      if s[j] == '\n' {
        if j + 4 <= k {
          assert !DashesAt(raw, j - 3);
        } else {
          assert s[k] == '\n';
        }
        assert !DashesAt(s, j + 1);
      }
    }
    assert IsFirstClosing(s, 4, k);
    var r := FindClosing(s, 4);
    FirstClosingUnique(s, 4, r.value, k);
    assert s[4..k] == raw;
    assert s[k + 5..] == body;
  }

  /** `^` in multiline mode: start of `raw` or just after a line terminator. */
  predicate AtLineStart(raw: string, p: int) {
    p == 0 || (0 < p <= |raw| && IsLineTerminator(raw[p - 1]))
  }

  /** `$` in multiline mode: end of `raw` or just before a line terminator. */
  predicate AtLineEnd(raw: string, q: int) {
    q == |raw| || (0 <= q < |raw| && IsLineTerminator(raw[q]))
  }

  /** Every character of `raw[a..b]` is `\s`. */
  ghost predicate WhitespaceBetween(raw: string, a: int, b: int) {
    0 <= a <= b <= |raw| && forall j :: a <= j < b ==> IsJsWhitespace(raw[j])
  }

  /** The regular-expression meaning of `^translated:\s*true$` matching at `p`:
      `\s*` may take any run of whitespace, newlines included. */
  ghost predicate FlagMatchesAt(raw: string, p: int) {
    && AtLineStart(raw, p)
    && OccursAt(raw, "translated:", p)
    && exists q :: WhitespaceBetween(raw, p + 11, q) && OccursAt(raw, "true", q) && AtLineEnd(raw, q + 4)
  }

  function SkipWhitespace(raw: string, q: nat): (r: nat)
    requires q <= |raw|
    decreases |raw| - q
    ensures q <= r <= |raw|
    ensures WhitespaceBetween(raw, q, r)
    ensures r == |raw| || !IsJsWhitespace(raw[r])
  {
    if q == |raw| || !IsJsWhitespace(raw[q]) then q else SkipWhitespace(raw, q + 1)
  }

  /** The scanner form: skip the whole whitespace run, then expect `true`. */
  predicate FlagLineAt(raw: string, p: nat) {
    && AtLineStart(raw, p)
    && OccursAt(raw, "translated:", p)
    && var q := SkipWhitespace(raw, p + 11);
       OccursAt(raw, "true", q) && AtLineEnd(raw, q + 4)
  }

  /** Since `t` is not whitespace, `\s*` can only stop at the end of the run:
      the scanner and the pattern agree. */
  lemma FlagLineAtIff(raw: string, p: nat)
    ensures FlagLineAt(raw, p) <==> FlagMatchesAt(raw, p)
  {
    if FlagMatchesAt(raw, p) {
      var q :| WhitespaceBetween(raw, p + 11, q) && OccursAt(raw, "true", q) && AtLineEnd(raw, q + 4);
      var r := SkipWhitespace(raw, p + 11);
      assert raw[q] == 't';
      assert r == q;
    }
  }

  function ScanFlag(raw: string, p: nat): (r: bool)
    decreases |raw| + 1 - p
    ensures r <==> exists p' :: p <= p' && FlagMatchesAt(raw, p')
  {
    if p > |raw| then
      assert forall p' :: p <= p' ==> !OccursAt(raw, "translated:", p');
      false
    else
      FlagLineAtIff(raw, p);
      FlagLineAt(raw, p) || ScanFlag(raw, p + 1)
  }

  /** `hasTranslatedFlag`: the marker line must be inside the header. */
  function HasTranslatedFlag(content: string): (r: bool)
    ensures r <==> ParseFrontmatter(content).Some? &&
                   exists p :: FlagMatchesAt(ParseFrontmatter(content).value.raw, p)
  {
    match ParseFrontmatter(content)
    case None => false
    case Some(h) =>
      assert forall p :: FlagMatchesAt(h.raw, p) ==> 0 <= p;
      ScanFlag(h.raw, 0)
  }

  /** `addTranslatedFlag`. */
  function AddTranslatedFlag(content: string): string {
    if StartsWith(content, "---\n") then "---\n" + Marker + content[4..] else content
  }

  /** Stamping never removes or reorders anything: taking the marker out again
      gives the original document back, and a document that does not start
      with `---\n` (a CRLF one, for instance) is returned unchanged. */
  lemma StampIsInsertion(content: string)
    ensures StartsWith(content, "---\n") ==>
              var r := AddTranslatedFlag(content);
              |r| == |content| + |Marker| && r[4..4 + |Marker|] == Marker &&
              r[..4] + r[4 + |Marker|..] == content
    ensures !StartsWith(content, "---\n") ==> AddTranslatedFlag(content) == content
  {
    if StartsWith(content, "---\n") {
      var r := AddTranslatedFlag(content);
      assert r[..4] == content[..4];
      assert r[4 + |Marker|..] == content[4..];
      assert content == content[..4] + content[4..];
    }
  }

  /** The shape of a stamped document: the same opening, no delimiter inside
      the inserted text, and past it the original document shifted by the
      marker's length. */
  lemma StampedLayout(content: string)
    requires StartsWith(content, "---\n")
    ensures var s := AddTranslatedFlag(content);
            && OpeningLength(s) == 4
            && (forall j | 4 <= j < 20 :: ClosingLength(s, j) == 0)
            && (forall j | 3 <= j <= |content| :: ClosingLength(s, j + 17) == ClosingLength(content, j))
            && s[4..20] == "translated: true"
            && s[20..] == content[3..]
  {
    var s := AddTranslatedFlag(content);
    assert |Marker| == 17;
    assert s[..4] == "---\n";
    assert s[4..21] == Marker;
    assert s[21..] == content[4..];
    assert s[0] == '-' && s[1] == '-' && s[2] == '-' && s[3] == '\n';
    forall j | 4 <= j < 20 ensures ClosingLength(s, j) == 0 {
      assert s[j] == Marker[j - 4];
    }
    assert s[20] == '\n' == content[3];
    assert s[20..] == content[3..];
    forall j | 3 <= j <= |content| ensures ClosingLength(s, j + 17) == ClosingLength(content, j) {
      assert s[j + 17..] == s[20..][j - 3..];
      assert content[j..] == content[3..][j - 3..];
      ClosingLengthOfSuffix(s, j + 17, content, j);
    }
  }

  /** Stamping moves the first closing delimiter by the marker's length when
      the header's first line is not itself a delimiter. */
  lemma StampShiftsFirstClosing(content: string, k: int)
    requires StartsWith(content, "---\n") && IsFirstClosing(content, 4, k)
    requires ClosingLength(content, 3) == 0
    ensures IsFirstClosing(AddTranslatedFlag(content), 4, k + 17)
  {
    var s := AddTranslatedFlag(content);
    StampedLayout(content);
    forall j | 4 <= j < k + 17 ensures ClosingLength(s, j) == 0 {
      if j >= 20 {
        assert ClosingLength(s, (j - 17) + 17) == ClosingLength(content, j - 17);
      }
    }
    assert k <= |content|;
    assert ClosingLength(s, k + 17) == ClosingLength(content, k);
  }

  /** Cutting a stamped document past the opening delimiter. */
  lemma StampedSlices(content: string, k: int, l: int)
    requires StartsWith(content, "---\n") && 4 <= k && 0 <= l && k + l <= |content|
    ensures AddTranslatedFlag(content)[4..k + 17] == Marker + content[4..k]
    ensures AddTranslatedFlag(content)[k + 17 + l..] == content[k + l..]
  {
    var s := AddTranslatedFlag(content);
    assert s == ("---\n" + Marker) + content[4..];
    assert s[4..21] == Marker && s[21..] == content[4..];
    SliceSplit(s, 4, 21, k + 17);
    SliceOfSuffix(s, 21, 0, k - 4);
    SliceOfSuffix(content, 4, 0, k - 4);
    SliceOfSuffix(s, 21, k - 4 + l, k - 4 + l);
    SliceOfSuffix(content, 4, k - 4 + l, k - 4 + l);
  }

  /** Stamping a document whose header's first line is not a delimiter:
      the marker line is prepended to `raw`, the body is untouched. */
  lemma StampedHeaderPlain(content: string)
    requires StartsWith(content, "---\n") && ParseFrontmatter(content).Some?
    requires ClosingLength(content, 3) == 0
    ensures var h := ParseFrontmatter(content).value;
            ParseFrontmatter(AddTranslatedFlag(content)) == Some(Header(Marker + h.raw, h.body))
  {
    var h := ParseFrontmatter(content).value;
    var s := AddTranslatedFlag(content);
    var k := 4 + |h.raw|;
    var l := ClosingLength(content, k);
    LfOpening(content);
    StampedClosing(content);
    ParseAt(s, 4, k + 17);
    StampedSlices(content, k, l);
  }

  /** Where the stamped document's first closing delimiter is, when the
      header's first line is not itself a delimiter. */
  lemma StampedClosing(content: string)
    requires StartsWith(content, "---\n") && ParseFrontmatter(content).Some?
    requires ClosingLength(content, 3) == 0
    ensures var k := 4 + |ParseFrontmatter(content).value.raw|;
            var s := AddTranslatedFlag(content);
            && OpeningLength(s) == 4 && IsFirstClosing(s, 4, k + 17)
            && ClosingLength(s, k + 17) == ClosingLength(content, k)
            && k + ClosingLength(content, k) <= |content|
  {
    var h := ParseFrontmatter(content).value;
    var s := AddTranslatedFlag(content);
    assert OpeningLength(content) == 4;
    var k := 4 + |h.raw|;
    StampShiftsFirstClosing(content, k);
    StampedLayout(content);
  }

  /** A document starting with `---\n` has a four-character opening. */
  lemma LfOpening(s: string)
    requires StartsWith(s, "---\n")
    ensures OpeningLength(s) == 4
  {
    assert s[..4][3] == s[3];
  }

  /** A document parses at its first closing delimiter. */
  lemma ParseAt(s: string, o: nat, k: nat)
    requires o > 0 && OpeningLength(s) == o && IsFirstClosing(s, o, k)
    ensures ParseFrontmatter(s) == Some(Header(s[o..k], s[k + ClosingLength(s, k)..]))
  {
    var r := FindClosing(s, o);
    FirstClosingUnique(s, o, r.value, k);
  }

  /** Stamping a document whose header starts with a delimiter line: the
      marker alone becomes the header. */
  lemma StampedHeaderDelimiter(content: string)
    requires StartsWith(content, "---\n") && ParseFrontmatter(content).Some?
    requires ClosingLength(content, 3) > 0
    ensures var l := ClosingLength(content, 3);
            ParseFrontmatter(AddTranslatedFlag(content)) == Some(Header("translated: true", content[3 + l..]))
  {
    var s := AddTranslatedFlag(content);
    StampedLayout(content);
    var l := ClosingLength(content, 3);
    assert ClosingLength(s, 3 + 17) == l;
    assert IsFirstClosing(s, 4, 20);
    var r := FindClosing(s, 4);
    FirstClosingUnique(s, 4, r.value, 20);
    assert s[20 + l..] == s[20..][l..];
  }

  /** What the header of a stamped document is. When the header's first line
      is not itself a delimiter, the marker line is prepended to `raw` and the
      body is untouched; otherwise the marker alone becomes the header. */
  lemma StampedHeader(content: string)
    requires StartsWith(content, "---\n") && ParseFrontmatter(content).Some?
    ensures var h := ParseFrontmatter(content).value;
            var l := ClosingLength(content, 3);
            ParseFrontmatter(AddTranslatedFlag(content)) ==
              if l == 0 then Some(Header(Marker + h.raw, h.body))
              else Some(Header("translated: true", content[3 + l..]))
  {
    if ClosingLength(content, 3) == 0 {
      StampedHeaderPlain(content);
    } else {
      StampedHeaderDelimiter(content);
    }
  }

  /** The closing delimiters of `---\n---\nA\n---\nB`: one right after the
      opening, and the first one after the header's first line. */
  lemma LeakExampleClosings(c: string)
    requires c == "---\n" + "---\nA" + "\n---\n" + "B"
    ensures StartsWith(c, "---\n") && OpeningLength(c) == 4
    ensures ClosingLength(c, 3) == 5 && IsFirstClosing(c, 4, 9)
    ensures c[4..9] == "---\nA" && c[8..] == "A\n---\nB" && c[14..] == "B"
  {
    assert c[..4] == "---\n";
    LfOpening(c);
    assert c[3] == '\n' && c[4] == '-' && c[5] == '-' && c[6] == '-' && c[7] == '\n';
    assert c[8] == 'A' && c[9] == '\n' && c[10] == '-' && c[11] == '-' && c[12] == '-' && c[13] == '\n';
    forall j | 4 <= j < 9 ensures ClosingLength(c, j) == 0 {
      assert LineBreakLength(c, j) > 0 ==> j == 7;
    }
    assert c[4..9] == "---\nA";
  }

  /** A header whose first line is itself `---`: stamping closes the header
      right after the marker, and the old header joins the body. */
  lemma DelimiterFirstLineLeaksIntoBody()
    ensures ParseFrontmatter("---\n" + "---\nA" + "\n---\n" + "B") == Some(Header("---\nA", "B"))
    ensures ParseFrontmatter(AddTranslatedFlag("---\n" + "---\nA" + "\n---\n" + "B"))
              == Some(Header("translated: true", "A\n---\nB"))
  {
    var c := "---\n" + "---\nA" + "\n---\n" + "B";
    LeakExampleClosings(c);
    ParseAt(c, 4, 9);
    StampedHeader(c);
  }

  /** A header whose first line is `translated: true` carries the marker. */
  lemma MarkerLineIsFlag(raw: string)
    requires |raw| >= 16 && raw[..16] == "translated: true"
    requires |raw| == 16 || raw[16] == '\n'
    ensures FlagMatchesAt(raw, 0)
  {
    assert raw[..11] == raw[..16][..11];
    assert OccursAt(raw, "translated:", 0);
    assert raw[11] == ' ';
    assert raw[12..16] == raw[..16][12..16];
    assert WhitespaceBetween(raw, 11, 12);
    assert OccursAt(raw, "true", 12);
    assert AtLineEnd(raw, 16);
  }

  /** The no-cycle guarantee of the watcher rests on this: every document that
      starts with `---\n` and parses carries the marker once stamped. */
  lemma StampSetsFlag(content: string)
    requires StartsWith(content, "---\n") && ParseFrontmatter(content).Some?
    ensures HasTranslatedFlag(AddTranslatedFlag(content))
  {
    StampedHeader(content);
    var raw := ParseFrontmatter(AddTranslatedFlag(content)).value.raw;
    if ClosingLength(content, 3) == 0 {
      assert raw == Marker + ParseFrontmatter(content).value.raw;
      assert raw[..16] == Marker[..16];
    }
    MarkerLineIsFlag(raw);
  }

  /** Stamping does not look for an existing marker: a stamped document
      stamped again carries the marker line twice. */
  lemma StampDoesNotDeduplicate(content: string)
    requires StartsWith(content, "---\n")
    ensures AddTranslatedFlag(AddTranslatedFlag(content)) == "---\n" + Marker + Marker + content[4..]
  {
    var once := AddTranslatedFlag(content);
    assert once[..4] == "---\n";
    assert once[4..] == Marker + content[4..];
  }

  /** The marker is looked for in the header only: whatever the body says,
      the verdict is the header's. */
  lemma BodyIsIgnored(raw: string, body: string)
    requires '\r' !in raw && NoDelimiterLine(raw)
    ensures HasTranslatedFlag("---\n" + raw + "\n---\n" + body) <==> exists p :: FlagMatchesAt(raw, p)
  {
    ParseComposes(raw, body);
  }

  /** A marker line in the body of an otherwise unmarked post does not count. */
  lemma MarkerInBodyDoesNotCount()
    ensures !HasTranslatedFlag("---\n" + "title: x" + "\n---\n" + "translated: true\n")
  {
    var raw := "title: x";
    forall j | 0 <= j < |raw| ensures raw[j] != '\n' && raw[j] != '\r' {
    }
    assert forall p :: !FlagMatchesAt(raw, p);
    BodyIsIgnored(raw, "translated: true\n");
  }

  /** The header `translated:` / `true` on two lines. */
  lemma SpannedMarkerHeader()
    ensures NoDelimiterLine("translated:\ntrue")
    ensures FlagMatchesAt("translated:\ntrue", 0)
  {
    var raw := "translated:\ntrue";
    forall j | 0 <= j < |raw| && raw[j] == '\n' ensures !DashesAt(raw, j + 1) {
      assert j == 11;
    }
    assert raw[..11] == "translated:";
    assert raw[12..16] == "true";
    assert WhitespaceBetween(raw, 11, 12);
    assert OccursAt(raw, "true", 12);
  }

  /** `\s*` spans a line break: `translated:` on one line and `true` on the
      next is a marker. */
  lemma MarkerMaySpanLines()
    ensures HasTranslatedFlag("---\n" + "translated:\ntrue" + "\n---\n")
  {
    SpannedMarkerHeader();
    ParseComposes("translated:\ntrue", "");
    assert "---\n" + "translated:\ntrue" + "\n---\n" + "" == "---\n" + "translated:\ntrue" + "\n---\n";
  }

  /** A CRLF document parses, yet stamping leaves it without the marker. */
  lemma CrlfDocumentStaysUnmarked()
    ensures ParseFrontmatter("---\r\na\r\n---\r\n").Some?
    ensures AddTranslatedFlag("---\r\na\r\n---\r\n") == "---\r\na\r\n---\r\n"
    ensures !HasTranslatedFlag(AddTranslatedFlag("---\r\na\r\n---\r\n"))
  {
    var s := "---\r\na\r\n---\r\n";
    assert !StartsWith(s, "---\n") by { assert s[3] == '\r'; }
    assert s[..5] == "---\r\n";
    assert OpeningLength(s) == 5;
    assert s[6..13] == "\r\n---\r\n";
    assert ClosingLength(s, 6) == 7;
    assert ClosingLength(s, 5) == 0 by { assert s[5] == 'a'; }
    assert IsFirstClosing(s, 5, 6);
    var k := FindClosing(s, 5).value;
    FirstClosingUnique(s, 5, k, 6);
    var raw := ParseFrontmatter(s).value.raw;
    assert raw == "a";
    assert forall p :: !OccursAt(raw, "translated:", p);
  }
}

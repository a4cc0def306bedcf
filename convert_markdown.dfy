/**
 * The markdown stage: each chapter's HTML is converted by pandoc, then
 * cleaned up by a fixed series of rewrites, written under
 * `{book}/markdown`, and the manifest entry records the markdown path and
 * the audio path narration will use.
 */
module ConvertMarkdown {
  import opened Wrappers
  import opened Strings
  import Paths
  import Manifest
  import RegexSub
  import ConvertHtml

  type Entry = Manifest.Entry

  // ---------------------------------------------------------------------
  // Page-number anchors: <span id="page_\d+"></span>

  const PageOpen: string := "<span id=\"page_"
  const PageClose: string := "\"></span>"

  /** A complete page anchor: the opening, one or more digits, the closing. */
  predicate IsPageSpan(x: string) {
    && |x| > |PageOpen| + |PageClose|
    && StartsWith(x, PageOpen) && EndsWith(x, PageClose)
    && AllDigits(x[|PageOpen|..|x| - |PageClose|])
  }

  /** The page-anchor pattern at the start of `t`; it is replaced by nothing. */
  function PageMatch(t: string): (r: Option<(nat, string)>)
    ensures r.Some? ==> 0 < r.value.0 <= |t| && r.value.1 == ""
  {
    if StartsWith(t, PageOpen) then
      var d := DigitRun(t[|PageOpen|..]);
      if d > 0 && StartsWith(t[|PageOpen| + d..], PageClose) then Some((|PageOpen| + d + |PageClose|, ""))
      else None
    else None
  }

  lemma PageMatchSound()
    ensures RegexSub.Sound(PageMatch)
  {
  }

  /** A page anchor at the start of the text is what the pattern matches there. */
  lemma PageMatchOfSpan(t: string, n: nat)
    requires n <= |t| && IsPageSpan(t[..n])
    ensures PageMatch(t) == Some((n, ""))
  {
    var u := t[|PageOpen|..];
    var d := n - |PageOpen| - |PageClose|;
    assert t[..n][..|PageOpen|] == t[..|PageOpen|];
    assert u[..d] == t[..n][|PageOpen|..n - |PageClose|];
    assert u[d] == t[..n][n - |PageClose|];
    DigitRunUnique(u, d);
    assert t[|PageOpen| + d..][..|PageClose|] == t[..n][n - |PageClose|..];
  }

  /** What the pattern matches is a page anchor. */
  lemma PageMatchIsSpan(t: string, n: nat)
    requires PageMatch(t) == Some((n, ""))
    ensures n <= |t| && IsPageSpan(t[..n])
  {
    var u := t[|PageOpen|..];
    var d := DigitRun(u);
    assert t[..n][..|PageOpen|] == t[..|PageOpen|];
    assert t[..n][|PageOpen|..n - |PageClose|] == u[..d];
    assert t[..n][n - |PageClose|..] == t[|PageOpen| + d..][..|PageClose|];
  }

  /** The pattern matches a prefix exactly when that prefix is a page anchor. */
  lemma PageMatchExact(t: string, n: nat)
    requires n <= |t|
    ensures PageMatch(t) == Some((n, "")) <==> IsPageSpan(t[..n])
  {
    if IsPageSpan(t[..n]) {
      PageMatchOfSpan(t, n);
    }
    if PageMatch(t) == Some((n, "")) {
      PageMatchIsSpan(t, n);
    }
  }

  /** Removing the page anchors: `re.sub(page_regex, "", markdown)`. */
  function RemovePageSpans(markdown: string): string {
    PageMatchSound();
    RegexSub.Sub(markdown, PageMatch)
  }

  /** Everything removed is a whole page anchor, and everything else is kept in order. */
  lemma PageSpansRemoved(markdown: string, i: nat)
    ensures RegexSub.Original(RegexSub.Scan(markdown, PageMatch)) == markdown
    ensures var ps := RegexSub.Scan(markdown, PageMatch);
      i < |ps| && ps[i].Hit? ==> IsPageSpan(ps[i].text) && ps[i].rep == ""
  {
    PageMatchSound();
    RegexSub.ScanLossless(markdown, PageMatch);
    var ps := RegexSub.Scan(markdown, PageMatch);
    if i < |ps| && ps[i].Hit? {
      RegexSub.ScanHits(markdown, PageMatch, i);
      var x := ps[i].text;
      var u :| PageMatch(x + u) == Some((|x|, ps[i].rep));
      PageMatchIsSpan(x + u, |x|);
      assert (x + u)[..|x|] == x;
    }
  }

  // ---------------------------------------------------------------------
  // The chapter heading block

  const DivOpen: string := "<div class=\"class_"

  /** The length of the first line of `t`. */
  function LineLen(t: string): (k: nat)
    ensures k <= |t| && (k < |t| ==> t[k] == '\n')
    ensures forall i :: 0 <= i < k ==> t[i] != '\n'
  {
    if t == [] || t[0] == '\n' then 0 else 1 + LineLen(t[1..])
  }

  /**
   * `<div class="class_.+>\n\n(\d+)\n\n# (.+)\n\n</div>` at the start of
   * `t`, as a match length.  `.` never crosses a line, so each `.+` is the
   * rest of its line and the match, when there is one, is unique.
   */
  function DivMatch(t: string): (r: Option<nat>)
    ensures r.Some? ==> 0 < r.value <= |t|
  {
    var l1 := LineLen(t);
    if !(StartsWith(t, DivOpen) && l1 > |DivOpen| + 1 && t[l1 - 1] == '>' && StartsWith(t[l1..], "\n\n")) then None
    else
      var t2 := t[l1 + 2..];
      var d := DigitRun(t2);
      if d == 0 || !StartsWith(t2[d..], "\n\n# ") then None
      else
        var t3 := t2[d + 4..];
        var l3 := LineLen(t3);
        if l3 == 0 || !StartsWith(t3[l3..], "\n\n</div>") then None
        else Some(l1 + 2 + d + 4 + l3 + 8)
  }

  /** The whole heading pattern: an optional `# .+\n\n` line, then the block. */
  function HeadMatch(t: string): (r: Option<nat>)
    ensures r.Some? ==> 0 < r.value <= |t|
  {
    var l := LineLen(t);
    var withTitleLine :=
      if StartsWith(t, "# ") && l > 2 && StartsWith(t[l..], "\n\n") then
        match DivMatch(t[l + 2..])
        case Some(n) => Some(l + 2 + n)
        case None => None
      else None;
    if withTitleLine.Some? then withTitleLine else DivMatch(t)
  }

  /** `f"# Chapter {chapter_number}: {chapter_title}"` */
  function HeadingText(number: Manifest.Value, title: string): string {
    "# Chapter " + Manifest.Format(number) + ": " + title
  }

  /** The heading pattern with its replacement. */
  function HeadRewrite(number: Manifest.Value, title: string, t: string): (r: Option<(nat, string)>)
    ensures r.Some? ==> 0 < r.value.0 <= |t|
  {
    match HeadMatch(t)
    case Some(n) => Some((n, HeadingText(number, title)))
    case None => None
  }

  function HeadMatcher(number: Manifest.Value, title: string): RegexSub.Matcher {
    t => HeadRewrite(number, title, t)
  }

  lemma HeadMatcherSound(number: Manifest.Value, title: string)
    ensures RegexSub.Sound(HeadMatcher(number, title))
  {
  }

  /** Replacing the heading block by a markdown heading: `re.sub(head_regex, ..., markdown)`. */
  function ReplaceHeading(markdown: string, number: Manifest.Value, title: string): string {
    HeadMatcherSound(number, title);
    RegexSub.Sub(markdown, HeadMatcher(number, title))
  }

  /** What the heading pattern matches is a complete heading block, closed by `</div>`. */
  lemma HeadHit(number: Manifest.Value, title: string, x: string, u: string, rep: string)
    requires HeadRewrite(number, title, x + u) == Some((|x|, rep))
    ensures rep == HeadingText(number, title)
    ensures EndsWith(x, "\n\n</div>") && (StartsWith(x, DivOpen) || StartsWith(x, "# "))
  {
    HeadMatchShape(x + u);
    assert (x + u)[..|x|] == x;
  }

  /** Every replaced stretch is a complete heading block, and becomes the heading. */
  lemma HeadingsReplaced(markdown: string, number: Manifest.Value, title: string, i: nat)
    ensures RegexSub.Original(RegexSub.Scan(markdown, HeadMatcher(number, title))) == markdown
    ensures var ps := RegexSub.Scan(markdown, HeadMatcher(number, title));
      i < |ps| && ps[i].Hit? ==>
        && ps[i].rep == HeadingText(number, title)
        && EndsWith(ps[i].text, "\n\n</div>")
        && (StartsWith(ps[i].text, DivOpen) || StartsWith(ps[i].text, "# "))
  {
    var m := HeadMatcher(number, title);
    RegexSub.ScanLossless(markdown, m);
    var ps := RegexSub.Scan(markdown, m);
    if i < |ps| && ps[i].Hit? {
      RegexSub.ScanHits(markdown, m, i);
      var x := ps[i].text;
      var u :| m(x + u) == Some((|x|, ps[i].rep));
      HeadHit(number, title, x, u, ps[i].rep);
    }
  }

  lemma HeadMatchShape(t: string)
    requires HeadMatch(t).Some?
    ensures var n := HeadMatch(t).value;
      && EndsWith(t[..n], "\n\n</div>")
      && (StartsWith(t[..n], DivOpen) || StartsWith(t[..n], "# "))
  {
    var n := HeadMatch(t).value;
    var l := LineLen(t);
    if StartsWith(t, "# ") && l > 2 && StartsWith(t[l..], "\n\n") && DivMatch(t[l + 2..]).Some? {
      var k := DivMatch(t[l + 2..]).value;
      DivMatchShape(t[l + 2..]);
      assert t[..n][n - 8..] == t[l + 2..][..k][k - 8..];
      assert t[..n][..2] == t[..2];
    } else {
      DivMatchShape(t);
    }
  }

  lemma DivMatchShape(t: string)
    requires DivMatch(t).Some?
    ensures var n := DivMatch(t).value;
      EndsWith(t[..n], "\n\n</div>") && StartsWith(t[..n], DivOpen)
  {
    var n := DivMatch(t).value;
    var l1 := LineLen(t);
    var t2 := t[l1 + 2..];
    var d := DigitRun(t2);
    var t3 := t2[d + 4..];
    var l3 := LineLen(t3);
    assert t[..n][n - 8..] == t3[l3..][..8];
    assert t[..n][..|DivOpen|] == t[..|DivOpen|];
  }

  // ---------------------------------------------------------------------
  // The section-break rule

  const RuleHtmlBlock: string :=
    "<div class=\"class_sfp\">\n\n<div class=\"class_sfj\">\n\n<img src=\"rule.svg\" class=\"class_sfg\" />\n\n</div>\n\n</div>"
  const RuleHtmlReplacement: string :=
    "<div style=\"width:75%;margin:auto;\">\n<img src=\"rule.svg\" alt=\"\" />\n</div>"

  /** `if rule_html_block in markdown: markdown = markdown.replace(...)` */
  function ReplaceRule(markdown: string): string {
    if Contains(markdown, RuleHtmlBlock) then Replace(markdown, RuleHtmlBlock, RuleHtmlReplacement) else markdown
  }

  /** The membership test changes nothing: it is a plain `replace`. */
  lemma ReplaceRuleIsReplace(markdown: string)
    ensures ReplaceRule(markdown) == Replace(markdown, RuleHtmlBlock, RuleHtmlReplacement)
  {
    if !Contains(markdown, RuleHtmlBlock) {
      ReplaceAbsent(markdown, RuleHtmlBlock, RuleHtmlReplacement);
    }
  }

  // ---------------------------------------------------------------------
  // Paragraph flattening

  /** One paragraph on one line: `part.replace("\n", " ")`. */
  function FlattenPart(part: string): string {
    Replace(part, "\n", " ")
  }

  function FlattenParts(parts: seq<string>): (fs: seq<string>)
    ensures |fs| == |parts|
  {
    seq(|parts|, i requires 0 <= i < |parts| => FlattenPart(parts[i]))
  }

  /**
   * Paragraphs are separated by blank lines; the newlines inside each are
   * turned into spaces.  With one paragraph, the whole text is flattened.
   */
  function Flatten(markdown: string): string {
    var parts := Split(markdown, "\n\n");
    if |parts| > 1 then Join("\n\n", FlattenParts(parts)) else Replace(markdown, "\n", " ")
  }

  /** A flattened paragraph has no newline left. */
  lemma FlattenPartOneLine(part: string)
    ensures Lacks(FlattenPart(part), '\n')
  {
    ReplaceRemovesChar(part, '\n', " ");
    var f := FlattenPart(part);
    forall i | 0 <= i < |f| ensures f[i] != '\n' {
      assert f[i] in f;
    }
  }

  /** A paragraph without newlines is left alone. */
  lemma FlattenPartKeeps(part: string)
    requires Lacks(part, '\n')
    ensures FlattenPart(part) == part
  {
    assert !Contains(part, "\n") by {
      forall i | 0 <= i <= |part| - 1 ensures !OccursAt(part, "\n", i) {
        assert part[i..i + 1][0] == part[i];
      }
    }
    ReplaceAbsent(part, "\n", " ");
  }

  /** Both branches of the flattening step agree: it always rejoins the flattened paragraphs. */
  lemma FlattenIsJoin(markdown: string)
    ensures Flatten(markdown) == Join("\n\n", FlattenParts(Split(markdown, "\n\n")))
  {
    var parts := Split(markdown, "\n\n");
    if |parts| == 1 {
      JoinOfSplit(markdown, "\n\n");
    }
  }

  /**
   * Flattening keeps the paragraphs: the result splits at blank lines into
   * exactly the flattened paragraphs of the input, each on one line.
   */
  lemma FlattenParagraphs(markdown: string)
    ensures Split(Flatten(markdown), "\n\n") == FlattenParts(Split(markdown, "\n\n"))
    ensures forall k :: 0 <= k < |Split(Flatten(markdown), "\n\n")| ==> Lacks(Split(Flatten(markdown), "\n\n")[k], '\n')
  {
    FlattenIsJoin(markdown);
    var fs := FlattenParts(Split(markdown, "\n\n"));
    forall k | 0 <= k < |fs| ensures Lacks(fs[k], '\n') {
      FlattenPartOneLine(Split(markdown, "\n\n")[k]);
    }
    SplitJoin(fs, "\n\n");
  }

  /** Flattening twice is flattening once. */
  lemma FlattenIdempotent(markdown: string)
    ensures Flatten(Flatten(markdown)) == Flatten(markdown)
  {
    var f := Flatten(markdown);
    FlattenParagraphs(markdown);
    FlattenIsJoin(f);
    var ps := Split(f, "\n\n");
    forall k | 0 <= k < |ps| ensures FlattenParts(ps)[k] == ps[k] {
      FlattenPartKeeps(ps[k]);
    }
    assert FlattenParts(ps) == ps;
    FlattenIsJoin(markdown);
    JoinOfSplit(f, "\n\n");
  }

  // ---------------------------------------------------------------------
  // Bold spans: <span class="class_s6b4">(.*?)\s*</span>

  const BoldOpen: string := "<span class=\"class_s6b4\">"
  const SpanClose: string := "</span>"

  /** `\s*</span>` matches at position `k` of `u`. */
  predicate ClosesAt(u: string, k: nat)
    requires k <= |u|
  {
    StartsWith(u[k + SpaceRun(u[k..])..], SpanClose)
  }

  /** The lazy group `(.*?)`: the shortest stretch from `k`, within one line, after which the span closes. */
  function LazyGroup(u: string, k: nat): (r: Option<nat>)
    requires k <= |u|
    ensures r.Some? ==> k <= r.value <= |u| && ClosesAt(u, r.value)
    decreases |u| - k
  {
    if ClosesAt(u, k) then Some(k)
    else if k < |u| && u[k] != '\n' then LazyGroup(u, k + 1)
    else None
  }

  /** The bold-span pattern at the start of `t`, replaced by `**\1** `. */
  function BoldMatch(t: string): (r: Option<(nat, string)>)
    ensures r.Some? ==> 0 < r.value.0 <= |t|
  {
    if StartsWith(t, BoldOpen) then
      var u := t[|BoldOpen|..];
      match LazyGroup(u, 0)
      case Some(k) =>
        var w := SpaceRun(u[k..]);
        Some((|BoldOpen| + k + w + |SpanClose|, "**" + u[..k] + "** "))
      case None => None
    else None
  }

  lemma BoldMatchSound()
    ensures RegexSub.Sound(BoldMatch)
  {
  }

  /** The lazy group is the first closing position: no earlier one closes, and none crosses a newline. */
  lemma {:induction false} LazyGroupFirst(u: string, j: nat)
    requires j <= |u| && LazyGroup(u, j).Some?
    ensures forall k :: j <= k < LazyGroup(u, j).value ==> !ClosesAt(u, k) && u[k] != '\n'
    decreases |u| - j
  {
    if !ClosesAt(u, j) {
      LazyGroupFirst(u, j + 1);
    }
  }

  /** A closing position whose predecessor does not close follows a non-space. */
  lemma GroupEndsClean(u: string, k: nat)
    requires 1 <= k <= |u| && ClosesAt(u, k) && !ClosesAt(u, k - 1)
    ensures !IsSpace(u[k - 1])
  {
    assert u[k - 1..][1..] == u[k..];
  }

  /**
   * A bold span's match: the opening, the group, whitespace, `</span>`.
   * The group stays on one line and never ends in whitespace, which all
   * goes to `\s*`; the replacement wraps the group in `**`.
   */
  lemma BoldMatchShape(t: string) returns (g: string, w: string)
    requires BoldMatch(t).Some?
    ensures var (n, rep) := BoldMatch(t).value;
      && t[..n] == BoldOpen + g + w + SpanClose
      && AllSpace(w) && Lacks(g, '\n')
      && (g == [] || !IsSpace(g[|g| - 1]))
      && rep == "**" + g + "** "
  {
    var u := t[|BoldOpen|..];
    var k := LazyGroup(u, 0).value;
    var ws := SpaceRun(u[k..]);
    g := u[..k];
    w := u[k..][..ws];
    LazyGroupFirst(u, 0);
    if k > 0 {
      GroupEndsClean(u, k);
    }
    BoldMatchText(t, u, k, ws);
  }

  lemma BoldMatchText(t: string, u: string, k: nat, ws: nat)
    requires StartsWith(t, BoldOpen) && u == t[|BoldOpen|..]
    requires k + ws <= |u| && StartsWith(u[k + ws..], SpanClose)
    ensures var n := |BoldOpen| + k + ws + |SpanClose|;
      n <= |t| && t[..n] == BoldOpen + u[..k] + u[k..][..ws] + SpanClose
  {
    var n := |BoldOpen| + k + ws + |SpanClose|;
    assert t[..n] == t[..|BoldOpen|] + u[..k] + u[k..][..ws] + u[k + ws..][..|SpanClose|];
  }

  /** Bold spans to markdown bold: `bold_span_regex.sub(r"**\1** ", markdown)`. */
  function BoldSpans(markdown: string): string {
    BoldMatchSound();
    RegexSub.Sub(markdown, BoldMatch)
  }

  /** Every replaced stretch is a whole bold span, and becomes its text in `**`. */
  lemma BoldSpanHit(markdown: string, i: nat) returns (g: string, w: string)
    requires i < |RegexSub.Scan(markdown, BoldMatch)| && RegexSub.Scan(markdown, BoldMatch)[i].Hit?
    ensures var p := RegexSub.Scan(markdown, BoldMatch)[i];
      && p.text == BoldOpen + g + w + SpanClose
      && AllSpace(w) && Lacks(g, '\n') && (g == [] || !IsSpace(g[|g| - 1]))
      && p.rep == "**" + g + "** "
  {
    var p := RegexSub.Scan(markdown, BoldMatch)[i];
    RegexSub.ScanHits(markdown, BoldMatch, i);
    var u :| BoldMatch(p.text + u) == Some((|p.text|, p.rep));
    g, w := BoldMatchShape(p.text + u);
    assert (p.text + u)[..|p.text|] == p.text;
  }

  // ---------------------------------------------------------------------
  // _postprocess_markdown

  /**
   * `_postprocess_markdown`: page anchors removed, the heading block
   * rewritten, the rule block replaced, paragraphs flattened, bold spans
   * converted.  Each `re.search` guard is left out, since substituting
   * where nothing matches changes nothing (`RegexSub.GuardedSub`).
   */
  function Postprocess(markdown: string, title: string, number: Manifest.Value): string {
    var a := RemovePageSpans(markdown);
    var b := ReplaceHeading(a, number, title);
    var c := ReplaceRule(b);
    var d := Flatten(c);
    BoldSpans(d)
  }

  // ---------------------------------------------------------------------
  // convert_chapters_to_markdown

  /** `_pandoc_html_to_markdown` around the converter's own output. */
  function PandocMarkdown(converted: string): string {
    Strip(converted) + "\n"
  }

  /** The markdown file for a chapter file: its place below the extracted directory, or its bare name, with `.md`. */
  function MarkdownPath(chapterPath: string, bookDir: string): string {
    var rel := match Paths.RelativeTo(chapterPath, Paths.Child(bookDir, "extracted"))
      case Some(r) => r
      case None => Paths.Name(chapterPath);
    Paths.WithSuffix(Paths.Child(Paths.Child(bookDir, "markdown"), rel), ".md")
  }

  /** The markdown text of a chapter: pandoc's output, the rule image renamed, then cleaned up. */
  function ChapterMarkdown(html: string, e: Entry, pandoc: string -> string): string {
    var md := Replace(PandocMarkdown(pandoc(html)), "image_rsrc6C6.jpg", "rule.svg");
    Postprocess(md, Manifest.ChapterTitle(e), Manifest.Label(e))
  }

  /** How a chapter's HTML and manifest entry become its markdown text. */
  type Renderer = (string, Entry) -> string

  function Render(pandoc: string -> string): Renderer {
    (html, e) => ChapterMarkdown(html, e, pandoc)
  }

  /** A file written: its path and its text. */
  datatype Written = Written(path: string, text: string)

  /** Where the stage looks for an entry's chapter file. */
  function ChapterFile(e: Entry, bookDir: string, cwd: string): string {
    ConvertHtml.ResolveChapterPath(e, Paths.Child(bookDir, "extracted"), cwd)
  }

  /** The entry once its chapter is converted: the markdown path, and the audio path when it has a label. */
  function UpdatedEntry(e: Entry, bookDir: string, cwd: string): Entry {
    var chapterLabel := Manifest.Label(e);
    var audio :=
      if chapterLabel.Null? then e.audio
      else Some(Paths.Child(Paths.Child(bookDir, "audio"), Manifest.AudioFileName(chapterLabel, Manifest.ChapterTitle(e))));
    e.(markdown := Some(MarkdownPath(ChapterFile(e, bookDir, cwd), bookDir)), audio := audio)
  }

  /**
   * One manifest entry: `None` when its chapter file does not exist;
   * otherwise the updated entry and the markdown file written.
   */
  function ConvertEntry(e: Entry, bookDir: string, cwd: string, chapterFiles: map<string, string>,
                        render: Renderer): Option<(Entry, Written)>
  {
    var chapterPath := ChapterFile(e, bookDir, cwd);
    if chapterPath !in chapterFiles then None
    else Some((UpdatedEntry(e, bookDir, cwd), Written(MarkdownPath(chapterPath, bookDir), render(chapterFiles[chapterPath], e))))
  }

  /** The manifest after the stage. */
  function UpdatedToc(entries: seq<Entry>, bookDir: string, cwd: string, chapterFiles: map<string, string>): (r: seq<Entry>)
    ensures |r| == |entries|
  {
    seq(|entries|, i requires 0 <= i < |entries| =>
      if ChapterFile(entries[i], bookDir, cwd) in chapterFiles then UpdatedEntry(entries[i], bookDir, cwd) else entries[i])
  }

  /** The markdown files written, in manifest order. */
  function WrittenFiles(entries: seq<Entry>, bookDir: string, cwd: string, chapterFiles: map<string, string>,
                        render: Renderer): seq<Written>
    decreases |entries|
  {
    if entries == [] then []
    else
      var rest := WrittenFiles(entries[..|entries| - 1], bookDir, cwd, chapterFiles, render);
      match ConvertEntry(entries[|entries| - 1], bookDir, cwd, chapterFiles, render)
      case Some(p) => rest + [p.1]
      case None => rest
  }

  /**
   * `convert_chapters_to_markdown` over the loaded manifest `toc`, updated
   * in place.  `chapterFiles` maps each existing chapter file to its
   * text, `pandoc` is the converter, `cwd` the working directory.
   * `tocUpdated` says whether the manifest is written back.
   */
  method ConvertChaptersToMarkdown(stem: string, baseDir: string, cwd: string,
                                   tocExists: bool, extractedExists: bool, toc: array<Entry>,
                                   chapterFiles: map<string, string>, pandoc: string -> string)
    returns (r: Result<seq<Written>>, tocUpdated: bool)
    modifies toc
    ensures !tocExists ==> r == Failure(FileNotFound("toc.json")) && toc[..] == old(toc[..]) && !tocUpdated
    ensures tocExists && !extractedExists ==>
      r == Failure(FileNotFound("extracted directory")) && toc[..] == old(toc[..]) && !tocUpdated
    ensures tocExists && extractedExists ==>
      var bookDir := Paths.Child(baseDir, stem);
      && r == Success(WrittenFiles(old(toc[..]), bookDir, cwd, chapterFiles, Render(pandoc)))
      && toc[..] == UpdatedToc(old(toc[..]), bookDir, cwd, chapterFiles)
      && (tocUpdated <==> r.value != [])
  {
    var bookDir := Paths.Child(baseDir, stem);
    if !tocExists {
      return Failure(FileNotFound("toc.json")), false;
    }
    if !extractedExists {
      return Failure(FileNotFound("extracted directory")), false;
    }
    var render := Render(pandoc);
    ghost var entries := toc[..];
    var written: seq<Written> := [];
    tocUpdated := false;
    for i := 0 to toc.Length
      invariant toc[..i] == UpdatedToc(entries[..i], bookDir, cwd, chapterFiles)
      invariant forall j :: i <= j < toc.Length ==> toc[j] == entries[j]
      invariant written == WrittenFiles(entries[..i], bookDir, cwd, chapterFiles, render)
      invariant tocUpdated <==> written != []
    {
      var converted := ConvertEntry(toc[i], bookDir, cwd, chapterFiles, render);
      ConvertStep(entries, i, bookDir, cwd, chapterFiles, render);
      if converted.Some? {
        toc[i] := converted.value.0;
        written := written + [converted.value.1];
        tocUpdated := true;
      }
      assert toc[..i + 1] == toc[..i] + [toc[i]];
    }
    assert entries[..toc.Length] == entries;
    return Success(written), tocUpdated;
  }

  /** One more entry: the manifest and the files written grow by that entry's outcome. */
  lemma ConvertStep(entries: seq<Entry>, i: nat, bookDir: string, cwd: string, chapterFiles: map<string, string>,
                    render: Renderer)
    requires i < |entries|
    ensures var c := ConvertEntry(entries[i], bookDir, cwd, chapterFiles, render);
      && UpdatedToc(entries[..i + 1], bookDir, cwd, chapterFiles)
         == UpdatedToc(entries[..i], bookDir, cwd, chapterFiles) + [if c.Some? then c.value.0 else entries[i]]
      && WrittenFiles(entries[..i + 1], bookDir, cwd, chapterFiles, render)
         == WrittenFiles(entries[..i], bookDir, cwd, chapterFiles, render) + (if c.Some? then [c.value.1] else [])
  {
    assert entries[..i + 1][..i] == entries[..i];
  }

  // ---------------------------------------------------------------------
  // Properties of the stage

  /**
   * A converted entry changes in its `markdown` and `audio` fields only;
   * the markdown file lies in the markdown directory and ends in `.md`;
   * the audio path is set exactly when the entry has a label.
   */
  lemma ConvertEntryFields(e: Entry, bookDir: string, cwd: string, chapterFiles: map<string, string>,
                           render: Renderer)
    requires ConvertEntry(e, bookDir, cwd, chapterFiles, render).Some?
    ensures var (e', w) := ConvertEntry(e, bookDir, cwd, chapterFiles, render).value;
      && e'.order == e.order && e'.chapterNumber == e.chapterNumber
      && e'.chapterTitle == e.chapterTitle && e'.chapterPath == e.chapterPath
      && e'.markdown == Some(w.path)
      && StartsWith(w.path, Paths.Child(bookDir, "markdown") + "/") && EndsWith(w.path, ".md")
      && (Manifest.Label(e).Null? ==> e'.audio == e.audio)
      && (!Manifest.Label(e).Null? ==> Manifest.Present(e'.audio))
  {
    var chapterPath := ChapterFile(e, bookDir, cwd);
    var rel := match Paths.RelativeTo(chapterPath, Paths.Child(bookDir, "extracted"))
      case Some(r) => r
      case None => Paths.Name(chapterPath);
    Paths.WithSuffixInDir(Paths.Child(bookDir, "markdown"), rel, ".md");
  }

  /** An entry whose chapter file is missing is left as it was and writes nothing. */
  lemma MissingChapterSkipped(e: Entry, bookDir: string, cwd: string, chapterFiles: map<string, string>,
                              render: Renderer)
    requires ChapterFile(e, bookDir, cwd) !in chapterFiles
    ensures UpdatedToc([e], bookDir, cwd, chapterFiles) == [e]
    ensures WrittenFiles([e], bookDir, cwd, chapterFiles, render) == []
  {
    assert [e][..0] == [];
  }

  /** The manifest is rewritten exactly when some chapter file exists. */
  lemma {:induction false} WrittenFilesEmpty(entries: seq<Entry>, bookDir: string, cwd: string,
                                             chapterFiles: map<string, string>, render: Renderer)
    ensures WrittenFiles(entries, bookDir, cwd, chapterFiles, render) == [] <==>
      forall i :: 0 <= i < |entries| ==> ChapterFile(entries[i], bookDir, cwd) !in chapterFiles
    decreases |entries|
  {
    if entries != [] {
      var init := entries[..|entries| - 1];
      WrittenFilesEmpty(init, bookDir, cwd, chapterFiles, render);
      assert forall i :: 0 <= i < |init| ==> init[i] == entries[i];
    }
  }

  /**
   * With a relative book directory and an absolute working directory, a
   * relative chapter path resolves to an absolute path, which is never
   * below the relative extracted directory: the markdown file is then
   * named after the chapter file alone, directly in the markdown directory.
   */
  lemma RelativeBookDirFlattens(e: Entry, bookDir: string, cwd: string)
    requires bookDir != [] && !Paths.IsAbsolute(bookDir) && Paths.IsAbsolute(cwd)
    ensures var p := ChapterFile(e, bookDir, cwd);
      MarkdownPath(p, bookDir) == Paths.WithSuffix(Paths.Child(Paths.Child(bookDir, "markdown"), Paths.Name(p)), ".md")
  {
    var root := Paths.Child(bookDir, "extracted");
    var p := ChapterFile(e, bookDir, cwd);
    assert (root + "/")[0] == bookDir[0];
  }
}

/**
 * The TOC builder: turns the navPoints of the NCX navigation map (OPF 2.0.1,
 * section 2.4.1) into the numbered, filtered chapter manifest.  The XML walk
 * itself is not modelled: the builder receives, in document order, each
 * navPoint's label text and its `content/@src`.
 */
module Extract {
  import opened Wrappers
  import opened Strings
  import Manifest

  const BackMatterKeywords: seq<string> := [
    "about the author", "acknowledgments", "acknowledgements", "afterword",
    "also in series", "appendix", "back matter", "bibliography", "colophon",
    "contents", "copyright", "epilogue", "glossary", "index", "notes",
    "other books", "permissions", "praise", "references", "resources",
    "thank you"
  ]

  const FontExtensions: seq<string> := [".ttf", ".otf", ".woff", ".woff2"]

  // ---------------------------------------------------------------------
  // The back-matter classifier

  /** Some keyword occurs in `text`: the `for keyword in ...` loop with its early return. */
  function AnyKeywordIn(keywords: seq<string>, text: string): bool {
    if keywords == [] then false
    else Contains(text, keywords[0]) || AnyKeywordIn(keywords[1..], text)
  }

  lemma {:induction false} AnyKeywordInMeaning(keywords: seq<string>, text: string)
    ensures AnyKeywordIn(keywords, text) <==> exists k :: 0 <= k < |keywords| && Contains(text, keywords[k])
    decreases |keywords|
  {
    if keywords != [] {
      AnyKeywordInMeaning(keywords[1..], text);
      if exists k :: 0 <= k < |keywords| && Contains(text, keywords[k]) {
        var k :| 0 <= k < |keywords| && Contains(text, keywords[k]);
        if k > 0 { assert keywords[1..][k - 1] == keywords[k]; }
      }
      if AnyKeywordIn(keywords[1..], text) {
        var k :| 0 <= k < |keywords[1..]| && Contains(text, keywords[1..][k]);
        assert keywords[k + 1] == keywords[1..][k];
      }
    }
  }

  /** `s.endswith(tuple)` */
  function EndsWithAny(s: string, suffixes: seq<string>): bool {
    if suffixes == [] then false
    else EndsWith(s, suffixes[0]) || EndsWithAny(s, suffixes[1..])
  }

  lemma {:induction false} EndsWithAnyMeaning(s: string, suffixes: seq<string>)
    ensures EndsWithAny(s, suffixes) <==> exists k :: 0 <= k < |suffixes| && EndsWith(s, suffixes[k])
    decreases |suffixes|
  {
    if suffixes != [] {
      EndsWithAnyMeaning(s, suffixes[1..]);
      if exists k :: 0 <= k < |suffixes| && EndsWith(s, suffixes[k]) {
        var k :| 0 <= k < |suffixes| && EndsWith(s, suffixes[k]);
        if k > 0 { assert suffixes[1..][k - 1] == suffixes[k]; }
      }
      if EndsWithAny(s, suffixes[1..]) {
        var k :| 0 <= k < |suffixes[1..]| && EndsWith(s, suffixes[1..][k]);
        assert suffixes[k + 1] == suffixes[1..][k];
      }
    }
  }

  /** The path as the classifier reads it: a missing `src` reads like "", both being falsy. */
  function PathText(chapterPath: Option<string>): string {
    match chapterPath
    case Some(p) => p
    case None => ""
  }

  /**
   * `_should_skip_entry`: "font" in the title or the path, a font file
   * extension on the path, or a back-matter keyword in the title (never in
   * the path).  Both texts are stripped and lower-cased first; the path
   * arrives as `PathText` of the optional `src`.
   */
  function ShouldSkipEntry(title: string, path: string): bool {
    var titleLower := ToLower(Strip(title));
    var pathLower := ToLower(Strip(path));
    || Contains(titleLower, "font") || Contains(pathLower, "font")
    || EndsWithAny(pathLower, FontExtensions)
    || AnyKeywordIn(BackMatterKeywords, titleLower)
  }

  /**
   * What the classifier decides, on the raw title and path: stripping does
   * not matter for the substring tests, since every needle begins and ends
   * with a letter or a dot; it matters for the extension test only.
   */
  lemma ShouldSkipEntryMeaning(title: string, path: string)
    ensures ShouldSkipEntry(title, path) <==>
      || Contains(ToLower(title), "font")
      || Contains(ToLower(path), "font")
      || (exists k :: 0 <= k < |FontExtensions| && EndsWith(ToLower(Strip(path)), FontExtensions[k]))
      || (exists k :: 0 <= k < |BackMatterKeywords| && Contains(ToLower(title), BackMatterKeywords[k]))
  {
    FontStrip(title);
    FontStrip(path);
    KeywordsStrip(title);
    EndsWithAnyMeaning(ToLower(Strip(path)), FontExtensions);
    AnyKeywordInMeaning(BackMatterKeywords, ToLower(title));
  }

  lemma FontStrip(s: string)
    ensures Contains(ToLower(Strip(s)), "font") <==> Contains(ToLower(s), "font")
  {
    StripLower(s);
    StripContains(ToLower(s), "font");
  }

  lemma KeywordsStrip(s: string)
    ensures AnyKeywordIn(BackMatterKeywords, ToLower(Strip(s))) == AnyKeywordIn(BackMatterKeywords, ToLower(s))
  {
    KeywordsAreNeedles();
    AnyKeywordStrip(BackMatterKeywords, s);
  }

  /** A substring test that `str.strip` cannot affect: the needle has no whitespace at its ends. */
  predicate Needle(w: string) {
    w != [] && !IsSpace(w[0]) && !IsSpace(w[|w| - 1])
  }

  lemma KeywordsAreNeedles()
    ensures forall k :: 0 <= k < |BackMatterKeywords| ==> Needle(BackMatterKeywords[k])
  {
  }

  lemma {:induction false} AnyKeywordStrip(keywords: seq<string>, s: string)
    requires forall k :: 0 <= k < |keywords| ==> Needle(keywords[k])
    ensures AnyKeywordIn(keywords, ToLower(Strip(s))) == AnyKeywordIn(keywords, ToLower(s))
    decreases |keywords|
  {
    if keywords != [] {
      StripLower(s);
      StripContains(ToLower(s), keywords[0]);
      AnyKeywordStrip(keywords[1..], s);
    }
  }

  // ---------------------------------------------------------------------
  // The chapter number parser

  /** `title` starts with the digit run `title[..k]` immediately followed by '.'. */
  predicate NumberedPrefix(title: string, k: int) {
    0 < k < |title| && AllDigits(title[..k]) && title[k] == '.'
  }

  /**
   * `_parse_chapter_number`: `re.search(r"^(\d+)\.", title)`.  A number is
   * found exactly when the title has a numbered prefix, and it is the value
   * of that prefix's digits.
   */
  function ParseChapterNumber(title: Option<string>): Option<nat> {
    if title.None? || title.value == [] then None
    else
      var t := title.value;
      var k := DigitRun(t);
      if 0 < k < |t| && t[k] == '.' then Some(DigitsValue(t[..k])) else None
  }

  lemma ParseChapterNumberMeaning(title: Option<string>)
    ensures ParseChapterNumber(title).Some? <==> title.Some? && exists k :: NumberedPrefix(title.value, k)
    ensures ParseChapterNumber(title).Some? ==>
      forall k :: NumberedPrefix(title.value, k) ==> ParseChapterNumber(title).value == DigitsValue(title.value[..k])
  {
    if title.Some? && title.value != [] {
      var t := title.value;
      var k := DigitRun(t);
      NumberedPrefixIsDigitRun(t);
      if 0 < k < |t| && t[k] == '.' {
        assert NumberedPrefix(t, k);
      }
    }
  }

  /** A numbered prefix can only end where the run of leading digits ends. */
  lemma NumberedPrefixIsDigitRun(t: string)
    ensures forall j :: NumberedPrefix(t, j) ==> j == DigitRun(t)
  {
    forall j | NumberedPrefix(t, j) ensures j == DigitRun(t) {
      DigitRunUnique(t, j);
    }
  }

  /** `_get_namespace`: the text between a leading '{' and the first '}', '{' stripped off both ends. */
  function GetNamespace(tag: string): (ns: string)
    ensures !(StartsWith(tag, "{") && '}' in tag) ==> ns == ""
  {
    if StartsWith(tag, "{") && '}' in tag then
      RStripChars(LStripChars(Split(tag, "}")[0], {'{'}), {'{'})
    else ""
  }

  /** For a tag written `{ns}local`, the namespace comes back. */
  lemma QualifiedTagNamespace(ns: string, local: string)
    requires '}' !in ns
    requires ns == [] || (ns[0] != '{' && ns[|ns| - 1] != '{')
    ensures GetNamespace("{" + ns + "}" + local) == ns
  {
    var tag := "{" + ns + "}" + local;
    assert StartsWith(tag, "{") && '}' in tag by {
      assert tag[|ns| + 1] == '}';
      assert tag[..1] == "{";
    }
    assert Split(tag, "}")[0] == "{" + ns by {
      SplitBeforeFirst("{" + ns, local, '}');
      assert tag == ("{" + ns) + "}" + local;
    }
    BracesStripped(ns);
  }

  lemma BracesStripped(ns: string)
    requires ns == [] || (ns[0] != '{' && ns[|ns| - 1] != '{')
    ensures RStripChars(LStripChars("{" + ns, {'{'}), {'{'}) == ns
  {
    NoLeadingBrace(ns);
    NoTrailingBrace(ns);
    OpenBraceDropped(ns);
  }

  lemma OpenBraceDropped(ns: string)
    ensures LStripChars("{" + ns, {'{'}) == LStripChars(ns, {'{'})
  {
    assert ("{" + ns)[1..] == ns;
  }

  lemma NoLeadingBrace(ns: string)
    requires ns == [] || (ns[0] != '{' && ns[|ns| - 1] != '{')
    ensures LStripChars(ns, {'{'}) == ns
  {
  }

  lemma NoTrailingBrace(ns: string)
    requires ns == [] || (ns[0] != '{' && ns[|ns| - 1] != '{')
    ensures RStripChars(ns, {'{'}) == ns
  {
  }

  lemma {:induction false} SplitBeforeFirst(x: string, y: string, c: char)
    requires c !in x
    ensures Split(x + [c] + y, [c])[0] == x
    decreases |x|
  {
    var s := x + [c] + y;
    if x == [] {
      assert s[..1] == [c];
    } else {
      assert !StartsWith(s, [c]) by { assert s[0] == x[0]; }
      assert s[1..] == x[1..] + [c] + y;
      SplitBeforeFirst(x[1..], y, c);
      assert [x[0]] + x[1..] == x;
    }
  }

  // ---------------------------------------------------------------------
  // The TOC builder

  /** One navPoint: its label text ("" when the label or its text is missing) and its `src`. */
  datatype NavPoint = NavPoint(text: string, src: Option<string>)

  /** What `toc.json` receives for a surviving navPoint. */
  datatype TocEntry = TocEntry(order: nat, chapterNumber: nat, title: string, path: Option<string>)

  /** What the navigation document supplies. */
  datatype Ncx =
    | NoDirectory      // the extracted directory does not exist
    | NoNcxFile        // no toc.ncx anywhere under it
    | Malformed        // toc.ncx is not well-formed XML
    | NoNavMap         // toc.ncx has no navMap element
    | NavMap(points: seq<NavPoint>)

  /** The characters `str.lstrip` removes for chapter number `n`: those of `f"{n}. "`. */
  function NumberChars(n: nat): set<char> {
    set c | c in NatToString(n) + ". "
  }

  /** What the loop body makes of the navPoint at 1-based position `order`. */
  function Classify(p: NavPoint, order: nat): (r: Option<TocEntry>)
    ensures r.Some? ==> r.value.order == order && r.value.path == p.src
  {
    var title := Strip(p.text);
    var number := ParseChapterNumber(Some(title));
    if number.None? || number.value == 0 then None
    else
      var stored := LStripChars(title, NumberChars(number.value));
      if ShouldSkipEntry(stored, PathText(p.src)) then None
      else Some(TocEntry(order, number.value, stored, p.src))
  }

  /** What one navPoint contributes to the manifest: its entry, or nothing. */
  function Emitted(o: Option<TocEntry>): seq<TocEntry> {
    if o.Some? then [o.value] else []
  }

  /** The entries among a sequence of outcomes, in order. */
  function Collect(os: seq<Option<TocEntry>>): seq<TocEntry> {
    if os == [] then [] else Collect(os[..|os| - 1]) + Emitted(os[|os| - 1])
  }

  /** What each navPoint classifies to, numbering them 1, 2, ... by position. */
  function Outcomes(points: seq<NavPoint>): (os: seq<Option<TocEntry>>)
    ensures |os| == |points|
  {
    Numbering(points, Classify)
  }

  /** `f` applied to each navPoint and its 1-based position. */
  function Numbering(points: seq<NavPoint>, f: (NavPoint, nat) -> Option<TocEntry>): (os: seq<Option<TocEntry>>)
    ensures |os| == |points|
  {
    seq(|points|, i requires 0 <= i < |points| => f(points[i], i + 1))
  }

  lemma NumberingAt(points: seq<NavPoint>, f: (NavPoint, nat) -> Option<TocEntry>, i: nat)
    requires i < |points|
    ensures Numbering(points, f)[i] == f(points[i], i + 1)
  {
  }

  lemma NumberingTake(points: seq<NavPoint>, f: (NavPoint, nat) -> Option<TocEntry>, i: nat)
    requires i <= |points|
    ensures Numbering(points, f)[..i] == Numbering(points[..i], f)
  {
  }

  /** The manifest built from `points`. */
  function TocSpec(points: seq<NavPoint>): seq<TocEntry> {
    Collect(Outcomes(points))
  }

  lemma TocSpecStep(points: seq<NavPoint>, i: nat)
    requires i < |points|
    ensures TocSpec(points[..i + 1]) == TocSpec(points[..i]) + Emitted(Classify(points[i], i + 1))
  {
    var q := points[..i + 1];
    assert q[..i] == points[..i] && q[i] == points[i];
    assert Outcomes(q)[..i] == Outcomes(points[..i]) by { NumberingTake(q, Classify, i); }
    assert Outcomes(q)[i] == Classify(points[i], i + 1) by { NumberingAt(q, Classify, i); }
  }

  /** The loop body's steps, one at a time, amount to `Classify`. */
  lemma ClassifySteps(p: NavPoint, order: nat, number: Option<nat>, title: string)
    requires number == ParseChapterNumber(Some(Strip(p.text)))
    requires title == if number.Some? && number.value != 0
      then LStripChars(Strip(p.text), NumberChars(number.value)) else Strip(p.text)
    ensures Classify(p, order) ==
      if number.Some? && number.value != 0 && !ShouldSkipEntry(title, PathText(p.src))
      then Some(TocEntry(order, number.value, title, p.src)) else None
  {
  }

  /** `generate_toc` over the navPoints, with its two file errors. */
  method GenerateToc(ncx: Ncx) returns (r: Result<seq<TocEntry>>)
    ensures ncx.NoDirectory? ==> r == Failure(FileNotFound("extracted directory"))
    ensures ncx.NoNcxFile? ==> r == Failure(FileNotFound("toc.ncx"))
    ensures ncx.Malformed? ==> r == Failure(ParseError("toc.ncx"))
    ensures ncx.NoNavMap? ==> r == Success([])
    ensures ncx.NavMap? ==> r == Success(TocSpec(ncx.points))
  {
    match ncx {
      case NoDirectory => return Failure(FileNotFound("extracted directory"));
      case NoNcxFile => return Failure(FileNotFound("toc.ncx"));
      case Malformed => return Failure(ParseError("toc.ncx"));
      case NoNavMap => return Success([]);
      case NavMap(points) =>
        var toc: seq<TocEntry> := [];
        var i := 0;
        while i < |points|
          invariant 0 <= i <= |points|
          invariant toc == TocSpec(points[..i])
        {
          var order := i + 1;
          var title := Strip(points[i].text);
          var chapterPath := points[i].src;
          var chapterNumber := ParseChapterNumber(Some(title));
          if chapterNumber.Some? && chapterNumber.value != 0 {
            title := LStripChars(title, NumberChars(chapterNumber.value));
          }
          TocSpecStep(points, i);
          ClassifySteps(points[i], order, chapterNumber, title);
          if chapterNumber.Some? && chapterNumber.value != 0 && !ShouldSkipEntry(title, PathText(chapterPath)) {
            toc := toc + [TocEntry(order, chapterNumber.value, title, chapterPath)];
          }
          i := i + 1;
        }
        assert points[..|points|] == points;
        return Success(toc);
    }
  }

  /** The row `toc.json` stores for an entry. */
  function ToManifestEntry(e: TocEntry): Manifest.Entry {
    Manifest.Entry(Some(e.order), Manifest.Int(e.chapterNumber), Some(e.title), e.path, None, None, None)
  }

  // ---------------------------------------------------------------------
  // What the manifest promises

  /** What a classified navPoint becomes. */
  lemma ClassifyFacts(p: NavPoint, order: nat)
    ensures Classify(p, order).Some? ==>
      var e := Classify(p, order).value;
      && e.order == order && e.path == p.src && e.chapterNumber >= 1
      && ParseChapterNumber(Some(Strip(p.text))) == Some(e.chapterNumber)
      && e.title == LStripChars(Strip(p.text), NumberChars(e.chapterNumber))
      && !ShouldSkipEntry(e.title, PathText(p.src))
  {
  }

  lemma ClassifyOrder(p: NavPoint, order: nat)
    ensures Classify(p, order).Some? ==> Classify(p, order).value.order == order
  {
  }

  /** Each outcome that is an entry carries its own 1-based position as its order. */
  predicate Numbered(os: seq<Option<TocEntry>>) {
    forall i :: 0 <= i < |os| && os[i].Some? ==> os[i].value.order == i + 1
  }

  lemma OutcomesNumbered(points: seq<NavPoint>)
    ensures Numbered(Outcomes(points))
  {
    var os := Outcomes(points);
    forall i | 0 <= i < |os| && os[i].Some? ensures os[i].value.order == i + 1 {
      OutcomeAt(points, i);
    }
  }

  lemma OutcomeAt(points: seq<NavPoint>, i: nat)
    requires i < |points|
    ensures Outcomes(points)[i] == Classify(points[i], i + 1)
  {
    NumberingAt(points, Classify, i);
  }

  lemma NumberedTake(os: seq<Option<TocEntry>>, n: nat)
    requires Numbered(os) && n <= |os|
    ensures Numbered(os[..n])
  {
    assert forall i :: 0 <= i < n ==> os[..n][i] == os[i];
  }

  /** Every collected entry is the outcome at the position its order names. */
  lemma {:induction false} CollectEntries(os: seq<Option<TocEntry>>)
    requires Numbered(os)
    ensures forall e :: e in Collect(os) ==> 1 <= e.order <= |os| && os[e.order - 1] == Some(e)
    decreases |os|
  {
    if os != [] {
      var n := |os| - 1;
      var init := os[..n];
      NumberedTake(os, n);
      CollectEntries(init);
      forall e | e in Collect(os) ensures 1 <= e.order <= |os| && os[e.order - 1] == Some(e) {
        if e in Collect(init) {
          assert os[e.order - 1] == init[e.order - 1];
        } else {
          assert e in Emitted(os[n]);
        }
      }
    }
  }

  /** Every outcome that is an entry is collected. */
  lemma {:induction false} CollectComplete(os: seq<Option<TocEntry>>, i: nat)
    requires i < |os| && os[i].Some?
    ensures os[i].value in Collect(os)
    decreases |os|
  {
    if i < |os| - 1 {
      var init := os[..|os| - 1];
      assert init[i] == os[i];
      CollectComplete(init, i);
    }
  }

  /** Collected orders are positions in range, and they strictly increase. */
  lemma {:induction false} CollectOrders(os: seq<Option<TocEntry>>)
    requires Numbered(os)
    ensures forall a :: 0 <= a < |Collect(os)| ==> 1 <= Collect(os)[a].order <= |os|
    ensures forall a, b :: 0 <= a < b < |Collect(os)| ==> Collect(os)[a].order < Collect(os)[b].order
    decreases |os|
  {
    if os != [] {
      var n := |os| - 1;
      NumberedTake(os, n);
      CollectOrders(os[..n]);
      var prev := Collect(os[..n]);
      var c := Collect(os);
      assert c == prev + Emitted(os[n]);
      forall a | 0 <= a < |c| ensures 1 <= c[a].order <= |os| {
        if a < |prev| { assert c[a] == prev[a]; } else { assert c[a] == os[n].value; }
      }
      forall a, b | 0 <= a < b < |c| ensures c[a].order < c[b].order {
        assert c[a] == prev[a];
        if b < |prev| { assert c[b] == prev[b]; } else { assert c[b] == os[n].value; }
      }
    }
  }

  /** Every manifest entry is exactly what its own navPoint classifies to. */
  lemma ManifestEntriesClassified(points: seq<NavPoint>)
    ensures forall e :: e in TocSpec(points) ==>
      1 <= e.order <= |points| && Classify(points[e.order - 1], e.order) == Some(e)
  {
    forall e | e in TocSpec(points)
      ensures 1 <= e.order <= |points| && Classify(points[e.order - 1], e.order) == Some(e)
    {
      EntryClassified(points, e);
    }
  }

  lemma EntryClassified(points: seq<NavPoint>, e: TocEntry)
    requires e in TocSpec(points)
    ensures 1 <= e.order <= |points| && Classify(points[e.order - 1], e.order) == Some(e)
  {
    var os := Outcomes(points);
    assert 1 <= e.order <= |os| && os[e.order - 1] == Some(e) by {
      OutcomesNumbered(points);
      CollectEntries(os);
    }
    OutcomeAt(points, e.order - 1);
  }

  /** Every navPoint that classifies to an entry is in the manifest. */
  lemma ManifestComplete(points: seq<NavPoint>, i: nat)
    requires i < |points| && Classify(points[i], i + 1).Some?
    ensures Classify(points[i], i + 1).value in TocSpec(points)
  {
    OutcomeAt(points, i);
    CollectComplete(Outcomes(points), i);
  }

  /** Orders are 1-based positions bounded by the navPoint count, strictly increasing along the manifest. */
  lemma ManifestOrders(points: seq<NavPoint>)
    ensures forall a :: 0 <= a < |TocSpec(points)| ==> 1 <= TocSpec(points)[a].order <= |points|
    ensures forall a, b :: 0 <= a < b < |TocSpec(points)| ==>
      TocSpec(points)[a].order < TocSpec(points)[b].order
  {
    OutcomesNumbered(points);
    CollectOrders(Outcomes(points));
  }

  /** The filtering invariant: every emitted entry has a chapter number of at least 1 and is not skipped. */
  lemma ManifestFiltered(points: seq<NavPoint>)
    ensures forall e :: e in TocSpec(points) ==> e.chapterNumber >= 1 && !ShouldSkipEntry(e.title, PathText(e.path))
  {
    ManifestEntriesClassified(points);
    forall e | e in TocSpec(points)
      ensures e.chapterNumber >= 1 && !ShouldSkipEntry(e.title, PathText(e.path))
    {
      ClassifyFacts(points[e.order - 1], e.order);
    }
  }

  /** The stored title is the label with characters of `f"{n}. "` stripped from its front. */
  lemma ManifestTitles(points: seq<NavPoint>)
    ensures forall e :: e in TocSpec(points) ==>
      1 <= e.order <= |points| &&
      e.title == LStripChars(Strip(points[e.order - 1].text), NumberChars(e.chapterNumber))
  {
    ManifestEntriesClassified(points);
    forall e | e in TocSpec(points)
      ensures 1 <= e.order <= |points| &&
        e.title == LStripChars(Strip(points[e.order - 1].text), NumberChars(e.chapterNumber))
    {
      ClassifyFacts(points[e.order - 1], e.order);
    }
  }

  /** `str.lstrip` takes a character set, not a prefix: "12. 21 Guns" is stored as "Guns". */
  lemma LstripIsSetSemantics()
    ensures LStripChars("12. 21 Guns", NumberChars(12)) == "Guns"
  {
    var cs := NumberChars(12);
    assert NatToString(12) == "12";
    var s := "12. 21 Guns";
    assert forall i :: 0 <= i < 7 ==> s[i] in cs;
    assert s[7] !in cs;
    var r := LStripChars(s, cs);
    assert |s| - |r| == 7;
    assert s[7..] == "Guns";
  }

  /** A numbered title parses; a title without the dot, or with a number not at the start, does not. */
  lemma ChapterNumberExamples()
    ensures ParseChapterNumber(Some("12. The Awakening")) == Some(12)
    ensures ParseChapterNumber(Some("Chapter 12")) == None
    ensures ParseChapterNumber(Some("12 The Awakening")) == None
    ensures ParseChapterNumber(Some("")) == None
    ensures ParseChapterNumber(None) == None
  {
    ChapterTwelve();
    WordBeforeNumber();
    NumberWithoutDot();
  }

  lemma WordBeforeNumber()
    ensures ParseChapterNumber(Some("Chapter 12")) == None
  {
    assert DigitRun("Chapter 12") == 0;
  }

  lemma NumberWithoutDot()
    ensures ParseChapterNumber(Some("12 The Awakening")) == None
  {
    var u := "12 The Awakening";
    assert DigitRun(u) == 2 by { DigitRunUnique(u, 2); }
    assert u[2] == ' ';
  }

  lemma ChapterTwelve()
    ensures ParseChapterNumber(Some("12. The Awakening")) == Some(12)
  {
    var t := "12. The Awakening";
    assert t[..2] == "12" && t[2] == '.';
    assert IsDigits("12");
    DigitsThenDot(t, "12");
    TwelveValue();
  }

  lemma TwelveValue()
    ensures DigitsValue("12") == 12
  {
    assert "12"[..1] == "1" && "1"[..0] == "";
  }

  /** A title that starts with digits and a dot parses to the digits' value. */
  lemma DigitsThenDot(t: string, d: string)
    requires IsDigits(d) && |d| < |t| && t[..|d|] == d && t[|d|] == '.'
    ensures ParseChapterNumber(Some(t)) == Some(DigitsValue(d))
  {
    DigitRunUnique(t, |d|);
  }

  /** A label with no leading digit, such as "Acknowledgments", is dropped whatever it names. */
  lemma UnnumberedDropped(p: NavPoint, order: nat)
    requires Strip(p.text) == [] || !IsDigit(Strip(p.text)[0])
    ensures Classify(p, order) == None
  {
    ClassifySteps(p, order, ParseChapterNumber(Some(Strip(p.text))), Strip(p.text));
  }

  /**
   * A label `f"{n}. {rest}"` (one digit, the rest starting with a letter)
   * keeps number `n` and is stored as `rest`, unless the classifier drops it.
   */
  lemma ClassifyNumbered(p: NavPoint, order: nat, n: nat, rest: string)
    requires 1 <= n <= 9 && p.text == [DigitChar(n)] + ". " + rest
    requires rest != [] && IsAlpha(rest[0]) && !IsSpace(rest[|rest| - 1])
    ensures Classify(p, order) ==
      if ShouldSkipEntry(rest, PathText(p.src)) then None else Some(TocEntry(order, n, rest, p.src))
  {
    var title := Strip(p.text);
    assert ParseChapterNumber(Some(title)) == Some(n) && LStripChars(title, NumberChars(n)) == rest by {
      NumberedLabel(p.text, n, rest);
    }
    ClassifySteps(p, order, Some(n), rest);
  }

  /** A numbered label whose title mentions a font, such as "2. font-embed.otf", is dropped. */
  lemma FontTitleDropped(p: NavPoint, order: nat, n: nat, rest: string)
    requires 1 <= n <= 9 && p.text == [DigitChar(n)] + ". " + rest
    requires rest != [] && IsAlpha(rest[0]) && !IsSpace(rest[|rest| - 1])
    requires Contains(ToLower(rest), "font")
    ensures Classify(p, order) == None
  {
    var title := Strip(p.text);
    assert ParseChapterNumber(Some(title)) == Some(n) && LStripChars(title, NumberChars(n)) == rest by {
      NumberedLabel(p.text, n, rest);
    }
    assert ShouldSkipEntry(rest, PathText(p.src)) by { FontStrip(rest); }
    ClassifySteps(p, order, Some(n), rest);
  }

  /** A label `f"{n}. {rest}"` with a one-digit `n` and a rest starting with a letter reads as number `n` and title `rest`. */
  lemma NumberedLabel(t: string, n: nat, rest: string)
    requires 1 <= n <= 9 && t == [DigitChar(n)] + ". " + rest
    requires rest != [] && IsAlpha(rest[0]) && !IsSpace(rest[|rest| - 1])
    ensures Strip(t) == t
    ensures ParseChapterNumber(Some(Strip(t))) == Some(n)
    ensures LStripChars(Strip(t), NumberChars(n)) == rest
  {
    assert t[|t| - 1] == rest[|rest| - 1];
    StripClean(t);
    DigitLabel(t, n);
    LStripNumber(t, n, rest);
  }

  lemma DigitLabel(t: string, n: nat)
    requires 1 <= n <= 9 && |t| >= 2 && t[0] == DigitChar(n) && t[1] == '.'
    ensures ParseChapterNumber(Some(t)) == Some(n)
  {
    assert DigitRun(t) == 1 by { DigitRunUnique(t, 1); }
    assert t[..1] == [DigitChar(n)];
    assert [DigitChar(n)][..0] == [];
    assert DigitsValue([DigitChar(n)]) == n;
  }

  lemma LStripNumber(t: string, n: nat, rest: string)
    requires 1 <= n <= 9 && t == [DigitChar(n)] + ". " + rest
    requires rest != [] && IsAlpha(rest[0])
    ensures LStripChars(t, NumberChars(n)) == rest
  {
    var cs := NumberChars(n);
    var w := NatToString(n) + ". ";
    assert NatToString(n) == [DigitChar(n)];
    assert w[0] == t[0] && w[1] == t[1] && w[2] == t[2];
    assert t[0] in cs && t[1] in cs && t[2] in cs;
    assert t[3] == rest[0];
    assert t[3] !in cs;
    var r := LStripChars(t, cs);
    assert |t| - |r| == 3;
    assert t[3..] == rest;
  }
}

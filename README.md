# epub2audio chapter pipeline, modelled in Dafny

epub2audio turns an EPUB into an audiobook in stages, each keyed by the
chapter manifest `json/toc.json`:

1. the TOC builder numbers and filters the NCX navigation points;
2. the HTML copy stage renames the book's CSS classes and retitles each chapter;
3. the markdown stage cleans up pandoc's output and names each chapter's audio file;
4. the narration stage picks which chapters to speak;
5. the audiobook builder matches the manifest to the audio files and writes ffmpeg's concat list and chapter metadata.

This project models the bookkeeping of those stages: the string, sequence
and dictionary work, lifted out of the file, XML and subprocess code
around it. It proves what each step promises.

The modules are:

- `Wrappers`: `Option`/`Result` and the exceptions the pipeline raises.
- `Strings`: Python `str` operations on ASCII text (`strip`, `split`,
  `replace`, `join`, `lower`, `in`, `str(int)`).
- `Paths`: `pathlib` joining, `name`, `stem`, `suffix`, `with_suffix` and
  `relative_to` on path strings.
- `Sorting`: `sorted`, `min` and `max` on chapter numbers, and `sorted` on
  class names in code-point order.
- `RegexSub`: `re.sub`, `re.sub(..., count=1)`, `re.finditer` and
  `re.search` for the patterns used here, each given as a matcher.
- `Manifest`: a manifest entry and the value semantics the stages rely on:
  `entry.get`, truthiness, `a or b`, f-string formatting and `int()`.
- `Extract` (`extract.py`): `_should_skip_entry`,
  `_parse_chapter_number`, `_get_namespace`, and `generate_toc`'s
  numbering and filtering loop over the navigation points.
- `CssClasses`, `CssValues`, `ClassNames` and `ConvertHtml` (`convert_html.py`):
  - CSS rule parsing (`CssClasses`) and `_parse_css_value` (`CssValues`);
  - generating a class name from declarations, and the numbered class
    mapping;
  - rewriting `class="..."` attributes and `.name` selectors;
  - title replacement with HTML escaping, and the image swap;
  - `copy_chapters_from_toc` over the loaded manifest.
- `ConvertMarkdown` (`convert_markdown.py`): `_postprocess_markdown`'s
  rewrites, and `convert_chapters_to_markdown` over the loaded manifest.
- `NarrateChapters` (`narrate_chapters.py`): `_audio_path_from_entry`,
  and `convert_from_toc`'s chapter map, default range and selection.
- `AudioNames`, `AudioIndex`, `Ffmetadata` and `Audiobook`
  (`create_audiobook.py`):
  - `_normalize_title` and `_humanize_stem`;
  - the two-index audio file indexer;
  - `_escape_ffmetadata`, `_build_concat_list` and `_build_ffmetadata`;
  - `_build_audiobook`'s four-tier match cascade and OPF override.

Loops that update state in the source are methods here, with the
manifest as an `array` where the source edits entries in place. Each
method is proved against a function stating its result, and lemmas
state the properties of those functions.

Two places where the model's shape follows the code:

- `_build_ffmetadata`'s `zip(..., strict=True)` raises before the file
  is written when the lists differ in length. The model checks the
  lengths first, with the same visible outcome: a ValueError and nothing
  written.
- `_get_namespace` appears twice, at `extract.py:82-86` and
  `convert_html.py:155-162`, with the same body. It is modelled once, as
  `Extract.GetNamespace`.

## Model

| member | source | states |
|---|---|---|
| Sorting.SortedInts | src/epub2audio/audio/narrate_chapters.py:112 | `sorted()` of the chapter labels is ascending and holds exactly the labels |
| Sorting.SortedIntsEnds | src/epub2audio/audio/narrate_chapters.py:112 | the first sorted label is the least and the last the greatest |
| Sorting.SeqMin | src/epub2audio/audio/narrate_chapters.py:73 | `min()` is one of the labels and no label is smaller |
| Sorting.SeqMax | src/epub2audio/audio/narrate_chapters.py:75 | `max()` is one of the labels and no label is larger |
| Sorting.SortedStrings | src/epub2audio/reformat/convert_html.py:122 | `sorted()` of the class names holds exactly the names, in strictly increasing code-point order |
| Sorting.SortedStringsDistinct | src/epub2audio/reformat/convert_html.py:122 | the sorted class names are pairwise distinct |
| Sorting.StrLessTotal | src/epub2audio/reformat/convert_html.py:122 | Python's string order compares any two different strings |
| Sorting.StrLessTransitive | src/epub2audio/reformat/convert_html.py:122 | Python's string order is transitive |
| Paths.Join | src/epub2audio/reformat/convert_html.py:57-59 | joining onto an absolute path gives an absolute path |
| Paths.ChildStemSuffix | src/epub2audio/reformat/create_audiobook.py:59-61 | a file named stem + extension has that stem and that suffix |
| Paths.WithSuffixInDir | src/epub2audio/reformat/convert_markdown.py:138 | `(root / rel).with_suffix(ext)` lies below root and ends in the extension |
| Paths.RelativeToChild | src/epub2audio/reformat/convert_markdown.py:133-136 | `relative_to` gives back the relative part of a path below the root |
| Extract.AnyKeywordInMeaning | src/epub2audio/reformat/extract.py:56-58 | the keyword loop returns True exactly when some back-matter keyword occurs in the text |
| Extract.EndsWithAnyMeaning | src/epub2audio/reformat/extract.py:53 | `str.endswith` with a tuple holds exactly when the string ends with one of the suffixes |
| Extract.ShouldSkipEntry | src/epub2audio/reformat/extract.py:45-60 | `_should_skip_entry`: whether the stripped, lower-cased title or path names a font, the path ends in a font extension, or the title holds a back-matter keyword; `Extract.ShouldSkipEntryMeaning` states the three conditions without the loops |
| Extract.ShouldSkipEntryMeaning | src/epub2audio/reformat/extract.py:45-60 | an entry is skipped iff "font" is in its lower-cased title or path, its stripped lower-cased path ends with a font extension, or a back-matter keyword is in its lower-cased title; stripping the title never changes the answer |
| Extract.FontStrip | src/epub2audio/reformat/extract.py:47-50 | stripping whitespace cannot add or remove an occurrence of "font" |
| Extract.KeywordsStrip | src/epub2audio/reformat/extract.py:47-58 | stripping the title does not change whether a back-matter keyword occurs in it |
| Extract.KeywordsAreNeedles | src/epub2audio/reformat/extract.py:18-40 | no back-matter keyword begins or ends with whitespace |
| Extract.AnyKeywordStrip | src/epub2audio/reformat/extract.py:56-58 | for keywords without surrounding whitespace, stripping the text does not change whether one occurs in it |
| Extract.ParseChapterNumber | src/epub2audio/reformat/extract.py:89-99 | `_parse_chapter_number`: the value of the leading digit run of a present, non-empty title when a `.` follows it, else nothing; `Extract.ParseChapterNumberMeaning` states both directions of the `^(\d+)\.` match |
| Extract.ParseChapterNumberMeaning | src/epub2audio/reformat/extract.py:89-99 | a number is parsed iff the title is present and starts with a digit run followed by '.', and the number is that run's value |
| Extract.NumberedPrefixIsDigitRun | src/epub2audio/reformat/extract.py:96 | the anchored `(\d+)\.` can only end where the leading digit run ends, so the match is unique |
| Extract.GetNamespace | src/epub2audio/reformat/extract.py:82-86 | a tag that does not start with '{' or has no '}' has the empty namespace |
| Extract.QualifiedTagNamespace | src/epub2audio/reformat/extract.py:82-86 | for a tag `{ns}local` the namespace `ns` comes back |
| Extract.SplitBeforeFirst | src/epub2audio/reformat/extract.py:85 | `split` on a character yields, first, the text before its first occurrence |
| Extract.Classify | src/epub2audio/reformat/extract.py:134-167 | a navPoint that survives is emitted with its own 1-based position as order and its `src` as path |
| Extract.ClassifySteps | src/epub2audio/reformat/extract.py:137-160 | the loop body's steps amount to: parse the number of the stripped label, strip the characters of `f"{n}. "` from its front, drop it when the number is missing or 0 or the entry is skipped |
| Extract.ClassifyFacts | src/epub2audio/reformat/extract.py:142-167 | an emitted entry carries its order, its path, a chapter number of at least 1 that the stripped label parses to, the label with the number's characters stripped as title, and is not skipped |
| Extract.ClassifyOrder | src/epub2audio/reformat/extract.py:134-163 | an emitted entry's order is its navPoint's 1-based position |
| Extract.Outcomes | src/epub2audio/reformat/extract.py:134 | one outcome per navPoint |
| Extract.NumberingAt | src/epub2audio/reformat/extract.py:134 | `enumerate(..., start=1)` hands the i-th navPoint position i + 1 |
| Extract.NumberingTake | src/epub2audio/reformat/extract.py:134 | numbering a prefix of the navPoints is the prefix of the numbering |
| Extract.TocSpecStep | src/epub2audio/reformat/extract.py:133-167 | one loop iteration appends exactly the current navPoint's contribution to the manifest |
| Extract.GenerateToc | src/epub2audio/reformat/extract.py:102-185 | a missing directory or toc.ncx is a FileNotFoundError, malformed XML a parse error, a missing navMap the empty manifest, and otherwise the manifest built entry by entry from the navPoints |
| Extract.OutcomesNumbered | src/epub2audio/reformat/extract.py:134-163 | every entry among the outcomes carries its own position as order |
| Extract.OutcomeAt | src/epub2audio/reformat/extract.py:134-167 | the i-th outcome is the i-th navPoint classified with order i + 1 |
| Extract.CollectEntries | src/epub2audio/reformat/extract.py:162-167 | every appended entry is the outcome at the position its order names |
| Extract.CollectComplete | src/epub2audio/reformat/extract.py:162-167 | every outcome that is an entry is appended |
| Extract.CollectOrders | src/epub2audio/reformat/extract.py:134-167 | appended orders are positions in range and strictly increase |
| Extract.ManifestEntriesClassified | src/epub2audio/reformat/extract.py:133-167 | every manifest entry is what its own navPoint classifies to |
| Extract.EntryClassified | src/epub2audio/reformat/extract.py:133-167 | a manifest entry's order names a navPoint, and that navPoint classifies to exactly this entry |
| Extract.ManifestComplete | src/epub2audio/reformat/extract.py:133-167 | every navPoint that survives the filters is in the manifest |
| Extract.ManifestOrders | src/epub2audio/reformat/extract.py:134-167 | orders are 1-based positions bounded by the navPoint count and strictly increase along the manifest |
| Extract.ManifestFiltered | src/epub2audio/reformat/extract.py:143-160 | every manifest entry has a chapter number of at least 1 and is not skipped by `_should_skip_entry` |
| Extract.ManifestTitles | src/epub2audio/reformat/extract.py:137-165 | every stored title is its navPoint's stripped label with the characters of `f"{n}. "` stripped from its front |
| Extract.LstripIsSetSemantics | src/epub2audio/reformat/extract.py:144 | `lstrip` takes a character set: "12. 21 Guns" with number 12 is stored as "Guns" |
| Extract.ChapterNumberExamples | src/epub2audio/reformat/extract.py:89-99 | "12. The Awakening" parses to 12; "Chapter 12", "12 The Awakening", "" and a missing title parse to nothing |
| Extract.WordBeforeNumber | src/epub2audio/reformat/extract.py:96 | a number not at the start of the title is not found |
| Extract.NumberWithoutDot | src/epub2audio/reformat/extract.py:96 | a number not followed by '.' is not found |
| Extract.ChapterTwelve | src/epub2audio/reformat/extract.py:96-98 | "12. The Awakening" parses to 12 |
| Extract.DigitsThenDot | src/epub2audio/reformat/extract.py:96-98 | a title starting with digits and a '.' parses to the digits' value |
| Extract.UnnumberedDropped | src/epub2audio/reformat/extract.py:142-152 | a label without a leading digit, such as "Acknowledgments", is dropped |
| Extract.ClassifyNumbered | src/epub2audio/reformat/extract.py:137-167 | a label `f"{n}. {rest}"` with a one-digit n and a rest starting with a letter becomes number n and title rest, unless the skip filter drops it |
| Extract.FontTitleDropped | src/epub2audio/reformat/extract.py:154-160 | a numbered label whose title mentions a font is dropped |
| Extract.NumberedLabel | src/epub2audio/reformat/extract.py:137-144 | such a label is already stripped, parses to n, and loses exactly `f"{n}. "` to `lstrip` |
| Extract.DigitLabel | src/epub2audio/reformat/extract.py:96-98 | a title whose first two characters are a digit and a '.' parses to that digit |
| Extract.LStripNumber | src/epub2audio/reformat/extract.py:144 | stripping the characters of `f"{n}. "` from `f"{n}. {rest}"` leaves rest when rest starts with a letter |
| Manifest.DropUnderscores | src/epub2audio/audio/narrate_chapters.py:91 | the digits of an integer literal, its underscores removed, are all digits |
| Manifest.ParseInt | src/epub2audio/audio/narrate_chapters.py:90-93 | `int(s)` of a digit string is the digits' value |
| Manifest.DigitStringIsLiteral | src/epub2audio/audio/narrate_chapters.py:66-70 | a string for which `isdigit()` holds is an integer literal that `int()` reads unchanged, so both conversions of a chapter number agree |
| Manifest.DigitsUnstripped | src/epub2audio/audio/narrate_chapters.py:91 | a digit string has no whitespace for `int()` to strip |
| Manifest.DigitsAreLiteral | src/epub2audio/audio/narrate_chapters.py:91 | a digit string is an integer literal |
| Manifest.DropUnderscoresOfDigits | src/epub2audio/audio/narrate_chapters.py:91 | a literal with no underscores reads as itself |
| Manifest.Label | src/epub2audio/audio/narrate_chapters.py:35 | `entry.get("chapter_number") or entry.get("order")`; `NarrateChapters.AudioPathFromEntry` states the path it yields and when there is none |
| Manifest.ChapterTitle | src/epub2audio/reformat/convert_markdown.py:120 | `entry.get("chapter_title") or f"Chapter {entry.get('order')}"`, the title the markdown and HTML stages give a chapter; `ConvertMarkdown.ConvertEntryFields` states the audio name built from it |
| Manifest.AudioFileName | src/epub2audio/audio/narrate_chapters.py:40-41 | "{label}. {title.strip()}.m4a"; `NarrateChapters.NarratedFileIndexed` states that the audiobook stage indexes such a file under the label and the normalised title |
| NarrateChapters.AudioName | src/epub2audio/audio/narrate_chapters.py:39-41 | the file name narration derives: "{label}. {title}.m4a" with the stripped title, or "Chapter {label}" when the title is falsy; `NarrateChapters.AudioPathFromEntry` and `NarrateChapters.NarratedFileIndexed` state where it lands and how it is indexed |
| NarrateChapters.AudioPathFromEntry | src/epub2audio/audio/narrate_chapters.py:26-42 | a truthy recorded `audio` is returned as is; otherwise there is no path exactly when both the chapter number is falsy and the order is absent |
| NarrateChapters.NarrationUsesRecordedAudio | src/epub2audio/audio/narrate_chapters.py:31-33 | after the markdown stage has recorded an audio path, narration writes exactly there, and with a title present it is the path narration would have derived itself |
| NarrateChapters.NarratedFileIndexed | src/epub2audio/audio/narrate_chapters.py:35-42 | a derived audio file name "{n}. {title}.m4a" is indexed by the audiobook stage under chapter n and the title's normalised form |
| NarrateChapters.ChapterMap | src/epub2audio/audio/narrate_chapters.py:82-94 | the map from each int chapter number, or string one `int()` accepts, to the last entry carrying it; `NarrateChapters.ChapterMapHas`, `NarrateChapters.ChapterMapFrom` and `NarrateChapters.ChapterMapLastWins` state its keys and values |
| NarrateChapters.BuildChapterMap | src/epub2audio/audio/narrate_chapters.py:82-94 | the loop builds the map from each integer or integer-string chapter number to its entry |
| NarrateChapters.ChapterMapHas | src/epub2audio/audio/narrate_chapters.py:82-94 | every entry with a usable chapter number has its key in the map |
| NarrateChapters.ChapterMapFrom | src/epub2audio/audio/narrate_chapters.py:82-94 | every key in the map comes from some entry's chapter number |
| NarrateChapters.KeyListKeys | src/epub2audio/audio/narrate_chapters.py:112 | the key list, repetitions included, names exactly the map's keys; `Sorting.SortedInts` then orders them without repetition |
| NarrateChapters.ChapterMapLastWins | src/epub2audio/audio/narrate_chapters.py:94 | for a repeated chapter number the last entry with it is kept |
| NarrateChapters.MarkdownChaptersAreKeys | src/epub2audio/audio/narrate_chapters.py:61-94 | every chapter number from a markdown-bearing entry is also a key of the chapter map |
| NarrateChapters.MarkdownChaptersMembers | src/epub2audio/audio/narrate_chapters.py:61-70 | every entry with markdown and an integer or digit-string chapter number contributes that number to the default range |
| NarrateChapters.Plan | src/epub2audio/audio/narrate_chapters.py:112-143 | the chapters narrated are among the keys and in the map |
| NarrateChapters.Outputs | src/epub2audio/audio/narrate_chapters.py:130-142 | one output path per narrated chapter |
| NarrateChapters.PlanAscending | src/epub2audio/audio/narrate_chapters.py:112 | chapters are narrated in ascending order |
| NarrateChapters.PlanSound | src/epub2audio/audio/narrate_chapters.py:114-133 | every narrated chapter lies within [start, end], has a markdown path and has an output path |
| NarrateChapters.PlanSkipsExisting | src/epub2audio/audio/narrate_chapters.py:136-139 | with skip_existing and not overwrite, no chapter whose audio already exists is narrated |
| NarrateChapters.PlanComplete | src/epub2audio/audio/narrate_chapters.py:112-143 | with overwrite set or skip_existing unset, every eligible chapter is narrated |
| NarrateChapters.NarrateStep | src/epub2audio/audio/narrate_chapters.py:112-143 | one loop iteration either narrates the chapter and appends its output or skips it, keeping the plan invariant |
| NarrateChapters.PlanStep | src/epub2audio/audio/narrate_chapters.py:112-143 | the plan from position i narrates key i exactly when it is eligible and not skipped as existing |
| NarrateChapters.KeysFiled | src/epub2audio/audio/narrate_chapters.py:112-113 | every key of `sorted(chapters)` has its entry in the map |
| NarrateChapters.Narration | src/epub2audio/audio/narrate_chapters.py:60-146 | what `convert_from_toc` returns for a loaded manifest: [] without usable chapter numbers, an AssertionError for a start or end that is not a chapter, else the output of each planned chapter; `NarrateChapters.ConvertFromToc` and the `Plan` lemmas state its properties |
| NarrateChapters.ConvertFromToc | src/epub2audio/audio/narrate_chapters.py:45-146 | a missing toc.json is a FileNotFoundError; otherwise the result is the narration of the manifest |
| NarrateChapters.NarrateKeys | src/epub2audio/audio/narrate_chapters.py:107-143 | the loop writes, in order, the outputs of exactly the planned chapters |
| NarrateChapters.NoChaptersNoNarration | src/epub2audio/audio/narrate_chapters.py:95-97 | a manifest without usable chapter numbers narrates nothing and succeeds |
| NarrateChapters.NoKeys | src/epub2audio/audio/narrate_chapters.py:82-94 | without usable chapter numbers the chapter map is empty |
| NarrateChapters.DefaultBoundsValid | src/epub2audio/audio/narrate_chapters.py:60-104 | with no bounds given, the range assertions never fail |
| NarrateChapters.MarkdownBounds | src/epub2audio/audio/narrate_chapters.py:60-80 | a missing start or end replaced by the least or greatest int or digit-string chapter number among the entries with markdown, when there are any; `NarrateChapters.DefaultRangeCoversMarkdown` and `NarrateChapters.DefaultBoundsValid` state what the defaults give |
| NarrateChapters.DefaultRangeCoversMarkdown | src/epub2audio/audio/narrate_chapters.py:60-75 | the default range covers every markdown-bearing chapter |
| NarrateChapters.UnknownStartRejected | src/epub2audio/audio/narrate_chapters.py:103 | a start that is not a chapter key fails the assertion |
| ConvertMarkdown.PageMatch | src/epub2audio/reformat/convert_markdown.py:45-47 | a page-anchor match is non-empty, within the text, and replaced by nothing |
| ConvertMarkdown.PageMatchOfSpan | src/epub2audio/reformat/convert_markdown.py:45 | a complete `<span id="page_N"></span>` at the start of the text is matched whole |
| ConvertMarkdown.PageMatchIsSpan | src/epub2audio/reformat/convert_markdown.py:45 | whatever is matched is a complete page anchor |
| ConvertMarkdown.PageMatchExact | src/epub2audio/reformat/convert_markdown.py:45 | the pattern matches a prefix exactly when that prefix is a page anchor |
| ConvertMarkdown.Postprocess | src/epub2audio/reformat/convert_markdown.py:42-77 | `_postprocess_markdown`: the five rewrites in the source's order (page anchors removed, heading blocks rewritten, the rule block replaced, paragraphs flattened, bold spans rendered); each step's meaning is the lemma on the rows below |
| ConvertMarkdown.RemovePageSpans | src/epub2audio/reformat/convert_markdown.py:44-47 | `re.sub` of the page-anchor pattern by "" (the preceding `search` changes nothing, `RegexSub.GuardedSub`); `ConvertMarkdown.PageSpansRemoved` states that only whole anchors go and all other text stays in order |
| ConvertMarkdown.PageSpansRemoved | src/epub2audio/reformat/convert_markdown.py:44-47 | the substitution keeps all other text in order and removes only whole page anchors |
| ConvertMarkdown.LineLen | src/epub2audio/reformat/convert_markdown.py:49 | `.+` stops at the first newline, which it never crosses |
| ConvertMarkdown.DivMatch | src/epub2audio/reformat/convert_markdown.py:49 | a match of the heading block is non-empty and within the text |
| ConvertMarkdown.HeadMatch | src/epub2audio/reformat/convert_markdown.py:49 | a match of the heading block with its optional leading `# ...` heading is non-empty and within the text |
| ConvertMarkdown.HeadRewrite | src/epub2audio/reformat/convert_markdown.py:49-51 | a heading-block match is non-empty and within the text |
| ConvertMarkdown.HeadHit | src/epub2audio/reformat/convert_markdown.py:49-51 | a replaced block starts with the chapter `<div class="class_` or a `# ` heading, ends with `</div>`, and becomes "# Chapter {number}: {title}" |
| ConvertMarkdown.ReplaceHeading | src/epub2audio/reformat/convert_markdown.py:49-51 | `re.sub` of the heading-block pattern by "# Chapter {n}: {title}"; `ConvertMarkdown.HeadingsReplaced` and `ConvertMarkdown.HeadHit` state what is replaced and by what |
| ConvertMarkdown.HeadingsReplaced | src/epub2audio/reformat/convert_markdown.py:49-51 | the substitution keeps all other text in order, and every block it replaces is a heading block rewritten to "# Chapter {number}: {title}" |
| ConvertMarkdown.HeadMatchShape | src/epub2audio/reformat/convert_markdown.py:49 | a heading-block match starts with the div or a `# ` heading and ends with `\n\n</div>` |
| ConvertMarkdown.DivMatchShape | src/epub2audio/reformat/convert_markdown.py:49 | the div part of the block starts with `<div class="class_` and ends with `\n\n</div>` |
| ConvertMarkdown.ReplaceRule | src/epub2audio/reformat/convert_markdown.py:53-66 | the rule block replaced by the centred `rule.svg` image when the text contains it; `ConvertMarkdown.ReplaceRuleIsReplace` states that the guard makes no difference |
| ConvertMarkdown.ReplaceRuleIsReplace | src/epub2audio/reformat/convert_markdown.py:53-66 | replacing the rule block only when it is present is the same as always replacing it |
| ConvertMarkdown.FlattenParts | src/epub2audio/reformat/convert_markdown.py:68-70 | one flattened part per paragraph |
| ConvertMarkdown.FlattenPartOneLine | src/epub2audio/reformat/convert_markdown.py:70 | a flattened paragraph has no newline |
| ConvertMarkdown.FlattenPartKeeps | src/epub2audio/reformat/convert_markdown.py:70 | a paragraph without newlines is unchanged |
| ConvertMarkdown.FlattenIsJoin | src/epub2audio/reformat/convert_markdown.py:68-72 | the single-paragraph branch agrees with the join over the split |
| ConvertMarkdown.Flatten | src/epub2audio/reformat/convert_markdown.py:68-72 | the text split at blank lines and each paragraph's newlines turned into spaces, or the whole text flattened when there is one paragraph; `ConvertMarkdown.FlattenParagraphs`, `ConvertMarkdown.FlattenIsJoin` and `ConvertMarkdown.FlattenIdempotent` state its meaning |
| ConvertMarkdown.FlattenParagraphs | src/epub2audio/reformat/convert_markdown.py:68-72 | after flattening, the paragraphs are the original paragraphs with their newlines turned into spaces, and none contains a newline |
| ConvertMarkdown.FlattenIdempotent | src/epub2audio/reformat/convert_markdown.py:68-72 | flattening twice is the same as flattening once |
| ConvertMarkdown.LazyGroup | src/epub2audio/reformat/convert_markdown.py:74 | the lazy `(.*?)` ends at the first place where optional whitespace and `</span>` follow |
| ConvertMarkdown.BoldMatch | src/epub2audio/reformat/convert_markdown.py:74-76 | a bold-span match is non-empty and within the text |
| ConvertMarkdown.LazyGroupFirst | src/epub2audio/reformat/convert_markdown.py:74 | the lazy group never skips an earlier closing place and never crosses a newline |
| ConvertMarkdown.GroupEndsClean | src/epub2audio/reformat/convert_markdown.py:74 | the lazy group leaves trailing whitespace to `\s*`, so the captured text does not end in whitespace |
| ConvertMarkdown.BoldMatchShape | src/epub2audio/reformat/convert_markdown.py:74-76 | a match is `<span class="class_s6b4">`, the text, whitespace and `</span>`, and is replaced by "**text** " |
| ConvertMarkdown.BoldMatchText | src/epub2audio/reformat/convert_markdown.py:74 | the matched stretch is the opening tag, the group, the whitespace and the closing tag |
| ConvertMarkdown.BoldSpans | src/epub2audio/reformat/convert_markdown.py:74-76 | `re.sub` of the bold-span pattern by "**\1** "; `ConvertMarkdown.BoldSpanHit` states that each replaced stretch is a whole bold span and what it becomes |
| ConvertMarkdown.BoldSpanHit | src/epub2audio/reformat/convert_markdown.py:74-76 | every replaced span is a bold span whose captured text, without a newline or trailing whitespace, is written as "**text** " |
| ConvertMarkdown.UpdatedToc | src/epub2audio/reformat/convert_markdown.py:119-148 | the loop updates entries in place, so the manifest keeps its length |
| ConvertMarkdown.ConvertChaptersToMarkdown | src/epub2audio/reformat/convert_markdown.py:79-162 | missing toc.json or extracted directory are FileNotFoundErrors and change nothing; otherwise each entry is updated, the written files are returned in order, and toc.json is rewritten exactly when something was written |
| ConvertMarkdown.ConvertStep | src/epub2audio/reformat/convert_markdown.py:119-149 | one iteration updates the current entry when its chapter file exists and appends its written file; otherwise it leaves it as it was |
| ConvertMarkdown.UpdatedEntry | src/epub2audio/reformat/convert_markdown.py:142-147 | the entry after its chapter is converted: `markdown` set to the written file, `audio` set to "{label}. {title}.m4a" under audio when `chapter_number or order` is not None; `ConvertMarkdown.ConvertEntryFields` states that nothing else changes |
| ConvertMarkdown.ConvertEntry | src/epub2audio/reformat/convert_markdown.py:119-148 | one pass of the markdown loop: nothing when the chapter file is missing, else the updated entry and the markdown file written under markdown; `ConvertMarkdown.ConvertEntryFields` and `ConvertMarkdown.MissingChapterSkipped` state both cases |
| ConvertMarkdown.ConvertEntryFields | src/epub2audio/reformat/convert_markdown.py:138-148 | a converted entry keeps its other keys, gains `markdown` pointing to a `.md` file under the markdown directory, and gains a non-empty `audio` exactly when it has a label |
| ConvertMarkdown.MissingChapterSkipped | src/epub2audio/reformat/convert_markdown.py:123-126 | an entry whose chapter file is missing is neither changed nor written |
| ConvertMarkdown.WrittenFilesEmpty | src/epub2audio/reformat/convert_markdown.py:119-156 | nothing is written exactly when every chapter file is missing |
| ConvertMarkdown.RelativeBookDirFlattens | src/epub2audio/reformat/convert_markdown.py:133-138 | with a relative base directory, `relative_to` fails and every markdown file lands directly under `markdown` by its bare name |
| AudioNames.TakeAlnum | src/epub2audio/reformat/create_audiobook.py:37 | the longest leading run of ASCII letters and digits |
| AudioNames.DropNonAlnum | src/epub2audio/reformat/create_audiobook.py:37 | what remains after the leading run of characters outside `[a-zA-Z0-9]`, starting with a letter or digit |
| AudioNames.Tokens | src/epub2audio/reformat/create_audiobook.py:31-32 | the maximal letter-and-digit runs of a text, none empty |
| AudioNames.SplitNonAlnum | src/epub2audio/reformat/create_audiobook.py:37 | `re.split(r"[^a-zA-Z0-9]+", s)` returns at least one part |
| AudioNames.NormalizeTitle | src/epub2audio/reformat/create_audiobook.py:28-32 | `_normalize_title`: strip, lower-case, turn each run of other characters into a space, then join the words by single spaces; `AudioNames.NormalizeTitleIsJoinedTokens` equates it with the join of the alphanumeric runs |
| AudioNames.NormalizeTitleIsJoinedTokens | src/epub2audio/reformat/create_audiobook.py:28-32 | the normalised title is the letter-and-digit runs of the stripped, lower-cased value, joined by single spaces |
| AudioNames.NormalizeTitleWellSpaced | src/epub2audio/reformat/create_audiobook.py:28-32 | a normalised title is lower-case letters and digits separated by single spaces, with no space at either end |
| AudioNames.NormalizeTitleIdempotent | src/epub2audio/reformat/create_audiobook.py:28-32 | normalising a normalised title changes nothing |
| AudioNames.WellSpacedFixed | src/epub2audio/reformat/create_audiobook.py:28-32 | every well-spaced lower-case title is its own normal form |
| AudioNames.WordsOfCollapse | src/epub2audio/reformat/create_audiobook.py:31-32 | splitting the text after `re.sub(r"[^a-z0-9]+", " ", ...)` yields exactly its letter-and-digit runs |
| AudioNames.TokensSkip | src/epub2audio/reformat/create_audiobook.py:31 | leading separators contribute no token |
| AudioNames.TokensOfLower | src/epub2audio/reformat/create_audiobook.py:30-31 | the tokens of a lower-cased text are lower-case letters and digits |
| AudioNames.TokensKeepNoUpper | src/epub2audio/reformat/create_audiobook.py:30-31 | tokens of a text without upper-case letters have none either |
| AudioNames.TokensStep | src/epub2audio/reformat/create_audiobook.py:31 | the tokens are the first run followed by the tokens of what comes after it |
| AudioNames.JoinTokensWellSpaced | src/epub2audio/reformat/create_audiobook.py:32 | non-empty lower-case tokens joined by single spaces are well spaced |
| AudioNames.WellSpacedTokens | src/epub2audio/reformat/create_audiobook.py:32 | a well-spaced title is the join of its own tokens |
| AudioNames.DepadAll | src/epub2audio/reformat/create_audiobook.py:39-45 | one word per part |
| AudioNames.HumanizeStem | src/epub2audio/reformat/create_audiobook.py:35-46 | the method's loop computes the humanised stem |
| AudioNames.KeepWords | src/epub2audio/reformat/create_audiobook.py:38-45 | the loop drops empty parts and de-pads digit parts, keeping the others |
| AudioNames.HumanWordsStep | src/epub2audio/reformat/create_audiobook.py:39-45 | one iteration appends the part, de-padded, unless it is empty |
| AudioNames.HumanWordsAreDepadded | src/epub2audio/reformat/create_audiobook.py:39-45 | the kept words are the non-empty parts, each de-padded |
| AudioNames.NonEmptySplitIsTokens | src/epub2audio/reformat/create_audiobook.py:37-41 | the non-empty parts of the split are exactly the letter-and-digit runs |
| AudioNames.HumanizeIsTokens | src/epub2audio/reformat/create_audiobook.py:35-46 | the humanised stem is the title-cased join of the stripped stem's runs, with numbers de-padded |
| AudioNames.DepadDigits | src/epub2audio/reformat/create_audiobook.py:42-43 | `str(int(part))` keeps a digit run's value and drops its leading zeros |
| AudioNames.DepadOther | src/epub2audio/reformat/create_audiobook.py:44-45 | a part that is not all digits is kept as is |
| AudioNames.TitleKeepsLetters | src/epub2audio/reformat/create_audiobook.py:46 | `str.title()` keeps the length and changes only letter case |
| AudioNames.TitleIdempotent | src/epub2audio/reformat/create_audiobook.py:46 | title-casing twice is title-casing once |
| AudioNames.TitleSpaceJoin | src/epub2audio/reformat/create_audiobook.py:46 | title-casing words joined by a space title-cases each word |
| AudioNames.TokensOfRun | src/epub2audio/reformat/create_audiobook.py:31 | a single letter-and-digit run is its own only token |
| AudioNames.TokensCons | src/epub2audio/reformat/create_audiobook.py:31 | a run followed by a separator and more text yields the run, then the rest's tokens |
| AudioNames.RunIsTaken | src/epub2audio/reformat/create_audiobook.py:31 | the leading run of a run followed by a separator is that run |
| AudioIndex.MatchStem | src/epub2audio/reformat/create_audiobook.py:62-66 | the match of `^\s*(\d+)\s*[sep]\s*(.*)$` against a stem: the number and the stripped title part, or no match; `AudioIndex.MatchStemComplete` and `AudioIndex.MatchStemSound` state both directions against the pattern's shape |
| AudioIndex.MatchStemComplete | src/epub2audio/reformat/create_audiobook.py:62-68 | a stem of the form spaces, digits, spaces, separator, tail matches with that number and the stripped rest of the line as title |
| AudioIndex.LeadStripped | src/epub2audio/reformat/create_audiobook.py:62 | the leading `\s*` consumes exactly the leading whitespace |
| AudioIndex.DigitsThenGap | src/epub2audio/reformat/create_audiobook.py:62 | `(\d+)` is greedy and stops at the first non-digit |
| AudioIndex.GapStripped | src/epub2audio/reformat/create_audiobook.py:62 | the `\s*` before the separator consumes exactly the whitespace |
| AudioIndex.MatchStemSound | src/epub2audio/reformat/create_audiobook.py:62-66 | whenever a number is found, the stem has the pattern's shape |
| AudioIndex.SeparatorFacts | src/epub2audio/reformat/create_audiobook.py:62 | a match has one of the separator characters `. - â € “ : _ )`, followed by a one-line tail |
| AudioIndex.BareNumberIsTitle | src/epub2audio/reformat/create_audiobook.py:62-68 | a stem of digits alone does not match, since a separator is required, and is taken as a title |
| AudioIndex.NamedStemMatches | src/epub2audio/reformat/create_audiobook.py:62-66 | a stem "{n}. {title}" is indexed under n with the stripped title |
| AudioIndex.NumberClaims | src/epub2audio/reformat/create_audiobook.py:56-65 | one number claim per listed file |
| AudioIndex.TitleClaims | src/epub2audio/reformat/create_audiobook.py:56-70 | one title claim per listed file |
| AudioIndex.IndexAudioFiles | src/epub2audio/reformat/create_audiobook.py:49-71 | without an audio directory both indexes are empty; otherwise each maps every key to the first file, in sorted order, that claims it |
| AudioIndex.ClaimsStep | src/epub2audio/reformat/create_audiobook.py:56-70 | one iteration is a `setdefault` of the current file's keys |
| AudioIndex.FirstWinsKeys | src/epub2audio/reformat/create_audiobook.py:65-70 | a key is indexed exactly when some file claims it |
| AudioIndex.FirstWinsValue | src/epub2audio/reformat/create_audiobook.py:65-70 | a key is indexed to the first file that claims it |
| AudioIndex.ByNumberFirstWins | src/epub2audio/reformat/create_audiobook.py:65 | a number is indexed to the first file whose stem starts with it |
| AudioIndex.ByNumberKeys | src/epub2audio/reformat/create_audiobook.py:65 | the numbers indexed are exactly those some file claims |
| AudioIndex.ByTitleFirstWins | src/epub2audio/reformat/create_audiobook.py:70 | a normalised title is indexed to the first file that claims it |
| AudioIndex.ByTitleKeys | src/epub2audio/reformat/create_audiobook.py:70 | the titles indexed are exactly those some file claims |
| AudioIndex.NonAudioIgnored | src/epub2audio/reformat/create_audiobook.py:57-60 | directories and files without an audio suffix claim nothing |
| AudioIndex.NamedFileKeys | src/epub2audio/reformat/create_audiobook.py:56-70 | a file "{n}. {title}.m4a" is indexed under n and, when the title is not blank, under the normalised title |
| Ffmetadata.Escape | src/epub2audio/reformat/create_audiobook.py:74-82 | `_escape_ffmetadata`: the five `replace` calls in the source's order; `Ffmetadata.EscapeIsEachChar` equates the chain with escaping each character on its own, and `Ffmetadata.UnescapeEscape` reads it back |
| Ffmetadata.EscapeIsEachChar | src/epub2audio/reformat/create_audiobook.py:74-82 | the chain of five replacements escapes each character on its own: a backslash doubled, a newline made a space, and '=', ';' and '#' preceded by a backslash |
| Ffmetadata.EscapeEmpty | src/epub2audio/reformat/create_audiobook.py:74-82 | the empty value escapes to itself |
| Ffmetadata.EscapeAppend | src/epub2audio/reformat/create_audiobook.py:74-82 | escaping distributes over concatenation |
| Ffmetadata.SubLacking | src/epub2audio/reformat/create_audiobook.py:77-81 | a replacement of a character the value lacks changes nothing |
| Ffmetadata.EscapeOne | src/epub2audio/reformat/create_audiobook.py:74-82 | one character escapes to its own escape |
| Ffmetadata.EscapeNoNewline | src/epub2audio/reformat/create_audiobook.py:78 | an escaped value has no newline, so it stays on its line |
| Ffmetadata.EachNoNewline | src/epub2audio/reformat/create_audiobook.py:78 | no per-character escape contains a newline |
| Ffmetadata.UnescapeEscape | src/epub2audio/reformat/create_audiobook.py:74-82 | reading an escaped value back gives the original with its newlines turned into spaces |
| Ffmetadata.UnescapeEach | src/epub2audio/reformat/create_audiobook.py:74-82 | the character-wise escape reads back to the value with newlines as spaces |
| Ffmetadata.UnescapeChar | src/epub2audio/reformat/create_audiobook.py:74-82 | each escaped character reads back to itself, or a space for a newline |
| Ffmetadata.ConcatLines | src/epub2audio/reformat/create_audiobook.py:147-151 | one `file '...'` line per audio path |
| Ffmetadata.BuildConcatList | src/epub2audio/reformat/create_audiobook.py:142-153 | the concat list is one `file '...'` line per path, each path resolved against the working directory and quoted, joined by newlines with a final newline |
| Ffmetadata.ConcatListAbsolute | src/epub2audio/reformat/create_audiobook.py:147-151 | from an absolute working directory, every path the concat list names reads back absolute: an absolute path as given, a relative one under the working directory |
| Ffmetadata.QuotePath | src/epub2audio/reformat/create_audiobook.py:149 | every `'` written as `'\''`; `Ffmetadata.UnquoteQuote` reads it back and `Ffmetadata.QuoteLacks` bounds what it adds |
| Ffmetadata.UnquoteQuote | src/epub2audio/reformat/create_audiobook.py:149 | closing and reopening the quote around each `'` lets the shell-style reader recover the path |
| Ffmetadata.ConcatLineRoundTrip | src/epub2audio/reformat/create_audiobook.py:149-151 | each `file '...'` line reads back to its path |
| Ffmetadata.ConcatLineAt | src/epub2audio/reformat/create_audiobook.py:147-151 | line i is the line for path i |
| Ffmetadata.ConcatListLines | src/epub2audio/reformat/create_audiobook.py:153 | for paths without newlines, splitting the file at newlines gives back the lines, then an empty remainder |
| Ffmetadata.QuoteNoNewline | src/epub2audio/reformat/create_audiobook.py:149-151 | a path without a newline gives a line without one |
| Ffmetadata.QuoteLacks | src/epub2audio/reformat/create_audiobook.py:149 | quoting adds no character other than `'` and `\` |
| Ffmetadata.Chapters | src/epub2audio/reformat/create_audiobook.py:169-191 | one chapter per entry and audio file |
| Ffmetadata.BuildFfmetadata | src/epub2audio/reformat/create_audiobook.py:156-192 | unequal numbers of entries and audio files raise the `zip(strict=True)` ValueError; otherwise the file is the header lines and the chapter blocks joined by newlines, with a final newline |
| Ffmetadata.ChapterBlocks | src/epub2audio/reformat/create_audiobook.py:169-191 | the loop emits, per chapter, the blank line, `[CHAPTER]`, the time base, START, END and the escaped title, with running start times |
| Ffmetadata.BlockStep | src/epub2audio/reformat/create_audiobook.py:170-191 | one iteration appends the current chapter's block and advances the running start by its duration |
| Ffmetadata.ChaptersStep | src/epub2audio/reformat/create_audiobook.py:169-191 | the chapters of a prefix grow by the next chapter, which starts at the sum of the earlier durations |
| Ffmetadata.RenderStep | src/epub2audio/reformat/create_audiobook.py:181-190 | rendering one more chapter appends its lines |
| Ffmetadata.ChaptersWhole | src/epub2audio/reformat/create_audiobook.py:170 | the whole prefix is the whole list |
| Ffmetadata.ChapterAt | src/epub2audio/reformat/create_audiobook.py:169-191 | chapter i starts at the sum of the earlier durations and ends its own duration later |
| Ffmetadata.ChapterLast | src/epub2audio/reformat/create_audiobook.py:169-191 | the last chapter starts at the sum of the earlier durations |
| Ffmetadata.ChapterInit | src/epub2audio/reformat/create_audiobook.py:169-191 | adding a chapter does not change the earlier ones |
| Ffmetadata.ChaptersContiguous | src/epub2audio/reformat/create_audiobook.py:169-191 | chapters start at 0, each lasts its file's duration, each ends where the next starts, and the last ends at the total duration |
| Ffmetadata.SumStep | src/epub2audio/reformat/create_audiobook.py:191 | the running total grows by each duration |
| Ffmetadata.ChapterTitle | src/epub2audio/reformat/create_audiobook.py:172-180 | the chapter's display title: the entry's title or the file's stem, with "Chapter {n}" in front for a truthy chapter number; `Ffmetadata.ChapterTitleRule` states each case |
| Ffmetadata.ChapterTitleRule | src/epub2audio/reformat/create_audiobook.py:172-180 | with a falsy chapter number the title is the entry's title or the file stem; otherwise it is "Chapter {n}: {raw}", or "Chapter {n}" when raw is empty |
| Ffmetadata.HeaderArtist | src/epub2audio/reformat/create_audiobook.py:165-168 | the header is the magic line and the escaped title, and artist and album_artist lines follow exactly when there is a non-empty author |
| Ffmetadata.FfmetadataLines | src/epub2audio/reformat/create_audiobook.py:192 | splitting the written file at newlines gives back its lines, so every value stays on its own line |
| Ffmetadata.KeyValueNoNewline | src/epub2audio/reformat/create_audiobook.py:165-188 | a key followed by an escaped value has no newline |
| Ffmetadata.HeaderNoNewline | src/epub2audio/reformat/create_audiobook.py:165-168 | no header line has a newline |
| Ffmetadata.DigitsNoNewline | src/epub2audio/reformat/create_audiobook.py:186-187 | START and END lines have no newline |
| Ffmetadata.ChapterNoNewline | src/epub2audio/reformat/create_audiobook.py:181-190 | no line of a chapter block has a newline |
| Ffmetadata.RenderNoNewline | src/epub2audio/reformat/create_audiobook.py:169-191 | no line of the chapter blocks has a newline |
| Audiobook.InsertMultiset | src/epub2audio/reformat/create_audiobook.py:205 | inserting an entry adds exactly that entry |
| Audiobook.InsertSorted | src/epub2audio/reformat/create_audiobook.py:205 | inserting into entries sorted by order keeps them sorted |
| Audiobook.InsertWithKey | src/epub2audio/reformat/create_audiobook.py:205 | an entry is inserted after every entry with the same order key, so ties keep their manifest order |
| Audiobook.SortSorted | src/epub2audio/reformat/create_audiobook.py:205 | `sorted(..., key=lambda item: item.get("order", 0))` yields entries in non-decreasing order key |
| Audiobook.SortPermutes | src/epub2audio/reformat/create_audiobook.py:205 | sorting keeps exactly the same entries |
| Audiobook.SortStable | src/epub2audio/reformat/create_audiobook.py:205 | entries with equal order keys keep their relative order |
| Audiobook.Reconcile | src/epub2audio/reformat/create_audiobook.py:210-247 | the loop collects, in manifest order, the matched entries and their audio files |
| Audiobook.Resolve | src/epub2audio/reformat/create_audiobook.py:213-236 | the file an entry is matched to: the existing stored `audio` path, else the int or digit-string chapter number, else the order among the numbered files, else the normalised non-blank title; `Audiobook.MatchEntry` and the tier lemmas below state each tier |
| Audiobook.MatchEntry | src/epub2audio/reformat/create_audiobook.py:213-237 | one entry's audio is found by the stored path, then the chapter number, then the order, then the normalised title |
| Audiobook.ReconcileStep | src/epub2audio/reformat/create_audiobook.py:212-247 | one iteration appends the entry and its file exactly when a file is found |
| Audiobook.MatchesAligned | src/epub2audio/reformat/create_audiobook.py:246-247 | the two lists have equal length, and each entry is paired with the file it resolves to |
| Audiobook.UsedMembership | src/epub2audio/reformat/create_audiobook.py:223-247 | an entry is used exactly when it is in the manifest and a file is found for it |
| Audiobook.UsedIsSubsequence | src/epub2audio/reformat/create_audiobook.py:212-247 | the used entries are a subsequence of the sorted manifest |
| Audiobook.UsedStaysSorted | src/epub2audio/reformat/create_audiobook.py:205-247 | the used entries stay sorted by order |
| Audiobook.SharedFile | src/epub2audio/reformat/create_audiobook.py:225-226 | two entries with the same integer chapter number and no stored audio both get the same file; nothing removes a file once it is used |
| Audiobook.ResolveFindsKnownFile | src/epub2audio/reformat/create_audiobook.py:213-237 | every file found either exists or comes from the audio index |
| Audiobook.StoredAudio | src/epub2audio/reformat/create_audiobook.py:213-221 | tier 1: a truthy `audio` value, tried under the audio directory when relative and missing, kept only if that file exists; `Audiobook.StoredPathWins` states that it wins |
| Audiobook.ByChapterNumber | src/epub2audio/reformat/create_audiobook.py:224-228 | tier 2: an int chapter number, or a digit-string one read as an int, looked up in the number index; `Audiobook.ChapterNumberWins` states when it decides |
| Audiobook.ByOrder | src/epub2audio/reformat/create_audiobook.py:229-232 | tier 3: the int order looked up in the number index; `Audiobook.OrderFallback` states when it decides |
| Audiobook.ByTitle | src/epub2audio/reformat/create_audiobook.py:234-237 | tier 4: a title with a non-space character, normalised and looked up in the title index; `Audiobook.TitleFallback` states when it decides |
| Audiobook.StoredPathWins | src/epub2audio/reformat/create_audiobook.py:213-221 | a stored audio path that exists is used as is |
| Audiobook.ChapterNumberWins | src/epub2audio/reformat/create_audiobook.py:224-226 | without a usable stored path, an integer chapter number in the index selects its file |
| Audiobook.OrderFallback | src/epub2audio/reformat/create_audiobook.py:229-232 | when the chapter number finds nothing, the order is looked up |
| Audiobook.TitleFallback | src/epub2audio/reformat/create_audiobook.py:234-237 | when neither number finds a file, a non-blank title is looked up by its normalised form |
| Audiobook.FirstNumberedFileMatched | src/epub2audio/reformat/create_audiobook.py:224-226 | an entry numbered n gets the first file, in sorted order, whose stem starts with n |
| Audiobook.Creators | src/epub2audio/reformat/create_audiobook.py:134-137 | the creators kept are the non-blank texts, stripped |
| Audiobook.Matched | src/epub2audio/reformat/create_audiobook.py:210-247 | the used entries and the audio files are aligned |
| Audiobook.Durations | src/epub2audio/reformat/create_audiobook.py:171 | one duration per audio file |
| Audiobook.BuildAudiobook | src/epub2audio/reformat/create_audiobook.py:195-318 | a missing toc.json, no matched audio file, and no cover are FileNotFoundErrors, in that order; otherwise the plan has the cover, the output path (given, or "{title}.m4b" under audio), the concat list of the matched files resolved against the working directory, and the chapters file for the matched files |
| CssClasses.BlockMatch | src/epub2audio/reformat/convert_html.py:66 | a match of `([^{}]+)\{([^}]*)\}` is non-empty and lies within the text |
| CssClasses.ClassToken | src/epub2audio/reformat/convert_html.py:70 | a match of `\.([A-Za-z0-9_-]+)` is a dot followed by a non-empty class name at the start of the text |
| CssClasses.ClassMatcherSound | src/epub2audio/reformat/convert_html.py:70 | the class-selector pattern never matches the empty string, so the scan over a selector terminates |
| CssClasses.Assign | src/epub2audio/reformat/convert_html.py:70-72 | assigning a block's declarations to its classes adds exactly those classes, gives them the new declarations and keeps every other class's entry |
| CssClasses.ParseCssRules | src/epub2audio/reformat/convert_html.py:63-73 | the loop over blocks builds exactly the rules of the stylesheet, block by block |
| CssClasses.AddBlock | src/epub2audio/reformat/convert_html.py:67-72 | one block: its declarations, whitespace collapsed, are set for every class its selectors name, later assignments overriding earlier ones |
| CssClasses.AssignSelectors | src/epub2audio/reformat/convert_html.py:69-72 | the loop over one block's comma-separated selectors assigns the declarations to every class those selectors name |
| CssClasses.AssignNames | src/epub2audio/reformat/convert_html.py:70-72 | the loop over one selector's class matches assigns the declarations to each class it names |
| CssClasses.AssignTwice | src/epub2audio/reformat/convert_html.py:69-72 | assigning the same declarations to two lists of classes in turn is assigning them to both lists at once |
| CssClasses.RulesOfKeys | src/epub2audio/reformat/convert_html.py:65-72 | a class is in the parsed rules exactly when some block names it |
| CssClasses.RulesOfLastWins | src/epub2audio/reformat/convert_html.py:72 | a class named by several blocks keeps the declarations of the last block naming it |
| CssClasses.CssBlockShape | src/epub2audio/reformat/convert_html.py:66-68 | every block found is its selector group, `{`, its declarations and `}`, with a non-empty brace-free selector group and no `}` in the declarations |
| CssClasses.CssRules | src/epub2audio/reformat/convert_html.py:63-73 | `_parse_css_rules`: the rules of the stylesheet's blocks, later blocks overwriting earlier ones; `CssClasses.CssRulesKeys` and `CssClasses.CssRulesLastWins` state which classes it maps and to what |
| CssClasses.CssRulesKeys | src/epub2audio/reformat/convert_html.py:63-73 | a class is in `_parse_css_rules`'s result exactly when some block of the stylesheet names it |
| CssClasses.CssRulesLastWins | src/epub2audio/reformat/convert_html.py:68-72 | a class's declarations are those of the last block naming it, with whitespace runs collapsed to single spaces |
| CssValues.ParseCssValue | src/epub2audio/reformat/convert_html.py:76-79 | `_parse_css_value`: the stripped value read at the first position where `prop\s*:\s*([^;]+)` matches; `CssValues.ParseCssValueFirst` and `CssValues.CssValueAtDeclared` state what it finds |
| CssValues.AfterProperty | src/epub2audio/reformat/convert_html.py:77 | what follows the property name and colon is strictly shorter than the text |
| CssValues.CssValueAtDeclared | src/epub2audio/reformat/convert_html.py:77-79 | at one position, the pattern `prop\s*:\s*([^;]+)`, backtracking included, yields the text after the colon up to the next `;`, stripped, and nothing when that is empty |
| CssValues.ParseCssValueOfDeclaration | src/epub2audio/reformat/convert_html.py:76-79 | a declaration `prop: value;` at the start yields the stripped value |
| CssValues.ParseCssValueFirst | src/epub2audio/reformat/convert_html.py:78 | `search` reports the match at the first position where the pattern matches, and no earlier position matches |
| ClassNames.NumeralRun | src/epub2audio/reformat/convert_html.py:104 | the leading run of digits and dots is maximal: it holds only digits and dots, and the next character is neither |
| ClassNames.FirstNumeral | src/epub2audio/reformat/convert_html.py:104-105 | `re.findall(r"[\d.]+", size)[0]`, when there is one, is a non-empty run of digits and dots |
| ClassNames.ParseDecimalAccepts | src/epub2audio/reformat/convert_html.py:106 | `float()` of such a run succeeds exactly when it has a digit and at most one dot |
| ClassNames.ParseDecimalOfNat | src/epub2audio/reformat/convert_html.py:106 | a whole number written out reads back as that number |
| ClassNames.SizeToken | src/epub2audio/reformat/convert_html.py:91-92 | the size token has no spaces and no `%` left (spaces removed, `%` spelled `pct`) |
| ClassNames.Base | src/epub2audio/reformat/convert_html.py:103-109 | "heading" for a truthy font size whose first numeral is at least 18 with "px" or 1.2 with "em", else "text"; ValueError when `float()` refuses that numeral; `ClassNames.PixelSize`, `ClassNames.EmSize` and `ClassNames.ClassNameFails` state it |
| ClassNames.ClassName | src/epub2audio/reformat/convert_html.py:82-110 | `_class_name_from_declarations`: the base joined by `-` with the size, weight, style, alignment and transform parts, or the base alone; `ClassNames.ClassNameShape` and `ClassNames.ClassNameFails` state its shape and its failure |
| ClassNames.ClassNameFromDeclarations | src/epub2audio/reformat/convert_html.py:82-110 | appending the parts one property at a time and then choosing the base gives the generated class name, or the ValueError `float()` raises |
| ClassNames.ClassNameShape | src/epub2audio/reformat/convert_html.py:110 | a generated name is the base and the parts joined by `-`; with no parts it is the base alone, otherwise it starts with the base and `-` |
| ClassNames.ClassNameFails | src/epub2audio/reformat/convert_html.py:103-106 | generating a name fails exactly when the font size is set and its first numeral is not a number `float()` accepts |
| ClassNames.PixelSize | src/epub2audio/reformat/convert_html.py:107-109 | a whole number of pixels makes a heading exactly from 18px on |
| ClassNames.EmSize | src/epub2audio/reformat/convert_html.py:107-109 | a whole number of ems makes a heading exactly from 2em on (the first whole number reaching 1.2) |
| ClassNames.NumberBeforeUnit | src/epub2audio/reformat/convert_html.py:104 | the numeral found in a whole number followed by a unit is the number itself |
| ClassNames.NoLetterE | src/epub2audio/reformat/convert_html.py:108 | a pixel size never contains `em`, so only the pixel threshold applies to it |
| ClassNames.NoLetterP | src/epub2audio/reformat/convert_html.py:108 | an em size never contains `px`, so only the em threshold applies to it |
| ClassNames.Count | src/epub2audio/reformat/convert_html.py:120-123 | the use count of a generated name is at most the number of names generated |
| ClassNames.GeneratedAll | src/epub2audio/reformat/convert_html.py:120-121 | when every class's name is generated, there is one name per sorted class |
| ClassNames.MergedRulesKeys | src/epub2audio/reformat/convert_html.py:115-118 | a class is in the merged dictionary exactly when some stylesheet defines it |
| ClassNames.MergedRulesSource | src/epub2audio/reformat/convert_html.py:115-118 | every class of the merged dictionary comes from some stylesheet |
| ClassNames.MergedRulesHas | src/epub2audio/reformat/convert_html.py:115-118 | every class of every stylesheet is in the merged dictionary |
| ClassNames.MergedRulesLastWins | src/epub2audio/reformat/convert_html.py:118 | a class defined in several stylesheets keeps the declarations of the last one read |
| ClassNames.CollectRules | src/epub2audio/reformat/convert_html.py:115-118 | the loop over the stylesheets builds the merged dictionary, each sheet's rules updating it |
| ClassNames.BuildClassMapping | src/epub2audio/reformat/convert_html.py:113-127 | the mapping covers exactly the classes of all stylesheets, giving the i-th sorted class its generated name numbered by how often that name was generated up to it; a ValueError from generating a name is the result |
| ClassNames.NumberClasses | src/epub2audio/reformat/convert_html.py:120-127 | the walk over the sorted classes, counting uses per generated name, builds that mapping or stops at the first class whose name cannot be generated |
| ClassNames.NumberKeys | src/epub2audio/reformat/convert_html.py:120-126 | the loop over distinct keys: the names generated for all keys, or the first failure; on success every key maps to its generated name numbered by the uses up to it, and no other key is mapped |
| ClassNames.NumberNext | src/epub2audio/reformat/convert_html.py:121-125 | one class: its generated name's use count grows by one, and the class gets the name numbered by that count |
| ClassNames.MappingStep | src/epub2audio/reformat/convert_html.py:123-125 | generating one more name raises only that name's count, and every earlier class keeps its name |
| ClassNames.FailureStays | src/epub2audio/reformat/convert_html.py:121 | once a class's name cannot be generated, the whole mapping fails with that error |
| ClassNames.FirstGetsBareName | src/epub2audio/reformat/convert_html.py:125 | the first class generating a name gets it bare, with no number |
| ClassNames.CountGrows | src/epub2audio/reformat/convert_html.py:123-125 | a later class generating the same name gets a strictly higher count |
| ClassNames.CountMonotone | src/epub2audio/reformat/convert_html.py:123 | counts never decrease as more classes are walked |
| ClassNames.LastDash | src/epub2audio/reformat/convert_html.py:125 | finds the last `-` in a name, or reports that there is none |
| ClassNames.NumberedShape | src/epub2audio/reformat/convert_html.py:125 | a numbered name is the generated name, `-` and the count, and its last `-` is the one before the count |
| ClassNames.NumberedInjective | src/epub2audio/reformat/convert_html.py:125 | different (name, count) pairs give different numbered names, as long as no generated name already ends in `-` and digits |
| ClassNames.MappingInjective | src/epub2audio/reformat/convert_html.py:120-127 | distinct classes get distinct names, as long as no generated name already ends in `-` and digits |
| ClassNames.NumberedCollision | src/epub2audio/reformat/convert_html.py:125 | without that condition two classes can end up with one name: `text` counted twice and `text-2` counted once are both `text-2` |
| ConvertHtml.ResolveChapterPath | src/epub2audio/reformat/convert_html.py:52-60 | with an absolute working directory the resolved chapter path is absolute: an absolute `chapter_path` is kept, a relative one is placed under the working directory and the extracted directory |
| ConvertHtml.ResolveChapterPathPlaces | src/epub2audio/reformat/convert_html.py:52-60 | an absolute `chapter_path` is kept, an absent or empty one names the extracted directory itself, and any other is recovered by `relative_to` from the extracted directory under the working directory |
| ConvertHtml.MapClasses | src/epub2audio/reformat/convert_html.py:133-134 | each class of the attribute is replaced by its mapped name, unmapped classes kept, one for one and in order |
| ConvertHtml.QuotedValue | src/epub2audio/reformat/convert_html.py:137 | a match of `class="([^"]+)"` is `class="`, a non-empty value without `"`, and the closing quote |
| ConvertHtml.ClassAttrRewrite | src/epub2audio/reformat/convert_html.py:137 | a class attribute match is non-empty and lies within the text |
| ConvertHtml.ClassAttrMatcherSound | src/epub2audio/reformat/convert_html.py:137 | the class attribute pattern never matches the empty string |
| ConvertHtml.ClassAttrShape | src/epub2audio/reformat/convert_html.py:132-135 | each class attribute matched is `class="value"` and becomes `class="` + the mapped classes joined by spaces + `"` |
| ConvertHtml.ReplaceClassesInHtml | src/epub2audio/reformat/convert_html.py:130-137 | `_replace_classes_in_html`: every `class="..."` attribute's classes mapped through the mapping; `ConvertHtml.ClassAttrsRewritten` states that nothing else changes |
| ConvertHtml.ClassAttrsRewritten | src/epub2audio/reformat/convert_html.py:130-137 | the substitution keeps every character outside class attributes, and rewrites each class attribute it finds to its mapped classes |
| ConvertHtml.ClassAttrValueWords | src/epub2audio/reformat/convert_html.py:133-135 | when no mapped name is empty or has a space, splitting the rewritten attribute value gives back exactly the mapped classes |
| ConvertHtml.ReplaceClassesInCss | src/epub2audio/reformat/convert_html.py:140-152 | `_replace_classes_in_css`: the stylesheet unchanged for an empty mapping, else every `.name` selector renamed; `ConvertHtml.CssTokensRewritten` and `ConvertHtml.CssIdentityMapping` state it |
| ConvertHtml.CssIdentityMapping | src/epub2audio/reformat/convert_html.py:140-152 | a mapping that maps every class to itself leaves the stylesheet unchanged, and so does the empty mapping |
| ConvertHtml.CssTokenShape | src/epub2audio/reformat/convert_html.py:148-150 | each class selector matched is `.name` and becomes `.` + the mapped name |
| ConvertHtml.CssTokensRewritten | src/epub2audio/reformat/convert_html.py:140-152 | the substitution keeps every character outside class selectors and renames each class selector it finds |
| ConvertHtml.Escape | src/epub2audio/reformat/convert_html.py:210-214 | the escaped title contains no `<` and no `>` |
| ConvertHtml.EscapeKeepsOut | src/epub2audio/reformat/convert_html.py:210-214 | escaping introduces no character other than those of `&amp;`, `&lt;` and `&gt;` |
| ConvertHtml.EscapeAppend | src/epub2audio/reformat/convert_html.py:210-214 | escaping works character by character: escaping a concatenation is concatenating the escapes |
| ConvertHtml.EscapePlain | src/epub2audio/reformat/convert_html.py:210-214 | a character other than `&`, `<` and `>` is its own escape |
| ConvertHtml.EscapePlainText | src/epub2audio/reformat/convert_html.py:210-214 | a title without `&`, `<` and `>` is its own escape |
| ConvertHtml.EscapeSpecial | src/epub2audio/reformat/convert_html.py:210-214 | `&`, `<` and `>` are each written as an entity starting with `&` |
| ConvertHtml.CloseAt | src/epub2audio/reformat/convert_html.py:215 | the lazy `(.*?)` stops where `</title>` starts, matched without regard to case |
| ConvertHtml.TitleRewrite | src/epub2audio/reformat/convert_html.py:215 | a title element match is non-empty and lies within the text |
| ConvertHtml.TitleMatcherSound | src/epub2audio/reformat/convert_html.py:215 | the title pattern never matches the empty string |
| ConvertHtml.ReplaceTitle | src/epub2audio/reformat/convert_html.py:199-218 | `_replace_title` as evidently intended: the contents of the first `<title>` element, in any case, replaced by the escaped title inserted literally; `ConvertHtml.TitleReplaced` and `ConvertHtml.NoTitleUnchanged` state it |
| ConvertHtml.TitleReplaced | src/epub2audio/reformat/convert_html.py:199-218 | in any page with a title element, in any case and wherever it stands: the contents between the first title tag and the first closing tag after it become the escaped title, and the tags as written and everything else are kept |
| ConvertHtml.FirstTitleReplaced | src/epub2audio/reformat/convert_html.py:217 | `sub(..., count=1)` replaces only the first title element, in any case, and keeps the text before and after it |
| ConvertHtml.TitleFoundAt | src/epub2audio/reformat/convert_html.py:216 | when no title tag starts before it, the search finds the title element, in any case, and the pattern matches nowhere before it |
| ConvertHtml.NoTitleUnchanged | src/epub2audio/reformat/convert_html.py:216-218 | a page without a `<title>` tag, in any case, is returned unchanged |
| ConvertHtml.TitleAt | src/epub2audio/reformat/convert_html.py:215 | at a title tag, in any case, the match runs to the first closing tag after it, in any case, and its expansion is the template's text between the tags as written |
| ConvertHtml.CloseAfterContents | src/epub2audio/reformat/convert_html.py:215 | the lazy `(.*?)` stops at the first closing tag, in any case: after contents in which none starts, it is the one right after them |
| ConvertHtml.NoTitleBefore | src/epub2audio/reformat/convert_html.py:215 | where no title tag, in any case, starts inside a page's leading text, the pattern matches nowhere in it |
| ConvertHtml.ReplaceTitleAsWritten | src/epub2audio/reformat/convert_html.py:199-218 | `_replace_title` as written: the escaped title spliced into the template `\1{safe_title}\3`, so a digit after `\1` is read as part of the escape; `ConvertHtml.DigitTitleFails` and `ConvertHtml.OctalTitleLosesTag` show what that does |
| ConvertHtml.DigitTitleFails | src/epub2audio/reformat/convert_html.py:216-217 | as written: for any page with a title element, a title starting with a digit, and not with two octal digits, makes the template name group 10 to 19, which does not exist, so `re.sub` raises `re.error` |
| ConvertHtml.OctalTitleLosesTag | src/epub2audio/reformat/convert_html.py:217 | as written: in the pages `ConvertHtml.TitleReplaced` covers, a title starting with two octal digits makes `\1dd` an octal character escape, so the opening tag and those two digits are replaced by one character |
| ConvertHtml.EscapeHead | src/epub2audio/reformat/convert_html.py:210-214 | escaping keeps a leading digit, and a second octal digit of the escape is the title's own second character |
| ConvertHtml.EscapeTwo | src/epub2audio/reformat/convert_html.py:210-214 | two leading digits pass through escaping unchanged |
| ConvertHtml.ReplaceImageSrc | src/epub2audio/reformat/convert_html.py:221-224 | `_replace_image_src`: every `src="original"` replaced by `src="replacement"`; `ConvertHtml.ImageSrcAbsent` and `ConvertHtml.ImageSrcSame` state when nothing changes |
| ConvertHtml.ImageSrcAbsent | src/epub2audio/reformat/convert_html.py:221-224 | a page that does not use the image is unchanged |
| ConvertHtml.ImageSrcSame | src/epub2audio/reformat/convert_html.py:221-224 | replacing an image by itself changes nothing |
| ConvertHtml.ChapterHtml | src/epub2audio/reformat/convert_html.py:291-297 | the text of a chapter's copy: the title replaced, then the rule image swapped, then the classes renamed when there is a mapping; the rows of `ReplaceTitle`, `ReplaceImageSrc` and `ReplaceClassesInHtml` state each step |
| ConvertHtml.CopyEntry | src/epub2audio/reformat/convert_html.py:274-304 | one pass of the copy loop: nothing when the chapter file is missing, else the entry with `html` set to its copy's path and the copy written there; `ConvertHtml.CopyEntryFields` states it |
| ConvertHtml.CopiedToc | src/epub2audio/reformat/convert_html.py:274-302 | the manifest after the stage has one entry per entry before it |
| ConvertHtml.CopyChaptersFromToc | src/epub2audio/reformat/convert_html.py:227-328 | a missing manifest or extracted directory raises FileNotFoundError and changes nothing; a class name that cannot be generated raises before any chapter is copied; otherwise the class mapping is the one built from all stylesheets, each entry whose chapter file exists gets its `html` path and its copy written (title replaced, rule image swapped, classes renamed), the others are skipped, and the manifest is written back |
| ConvertHtml.CopyEntries | src/epub2audio/reformat/convert_html.py:274-304 | the loop over the manifest: the copies written and the updated entries are exactly those of each entry's outcome in turn, entries without a chapter file left as they were |
| ConvertHtml.CopyStep | src/epub2audio/reformat/convert_html.py:274-304 | each entry adds its own outcome to the manifest and to the copies written, and nothing else |
| ConvertHtml.CopiedFilesEmpty | src/epub2audio/reformat/convert_html.py:277-304 | nothing is copied exactly when no entry's chapter file exists |
| ConvertHtml.CopiedFilesRecorded | src/epub2audio/reformat/convert_html.py:281-304 | every copy lies below the book's `html` directory and its path is recorded as some entry's `html` |
| ConvertHtml.CopyEntryFields | src/epub2audio/reformat/convert_html.py:281-302 | a copied entry changes only in its `html` key, which is the path its copy is written to, below the book's `html` directory |
| ConvertHtml.RelativeBookDirFlattensHtml | src/epub2audio/reformat/convert_html.py:281-286 | with a relative book directory and an absolute working directory, `relative_to` fails and every copy goes directly into `html` under the chapter file's bare name |

## Left out

- External programs are not modelled: pandoc, ffprobe, ffmpeg and the
  text-to-speech call. Pandoc is a function parameter of the markdown
  stage. Audio durations are given as natural numbers, matching the
  `max(0, ...)` the source applies to ffprobe's result. Narration's only
  visible effect, the output file appearing, is added to the set of
  existing files.
- XML parsing is not modelled. The NCX walk, the OPF metadata lookup and
  `_extract_stylesheet_hrefs` (`convert_html.py:165-196`) are given as
  their results: the navigation points' labels and sources, the optional
  OPF title and creators.
- The stylesheet copy in `copy_chapters_from_toc`
  (`convert_html.py:306-324`) depends on those hrefs and on path
  resolution, so it is not modelled. The renaming it applies is modelled
  as `ConvertHtml.ReplaceClassesInCss`.
- File system and JSON I/O are not modelled: directory creation,
  `rule.svg`, reading and writing `toc.json`. Existence is a boolean or a
  set of paths. The chapter files are a map from path to text. The
  stylesheets are their texts, in the order `rglob` finds them. The audio
  directory is its sorted listing. A write is a returned (path, text)
  pair.
- `Path.cwd()` is a parameter. `Path.resolve()` is modelled as joining a
  relative path to the working directory (`Ffmetadata.Resolved`); `..`,
  `//` and symbolic links are not normalised: paths are taken as already
  normal.
- Only ASCII is modelled. `lower()`, `title()`, `isdigit()`,
  `isalnum()` and `isspace()` are not modelled for Unicode: characters
  outside ASCII are never letters, digits or whitespace.
- The following are not part of this model:
  - logging, progress bars and the command-line interfaces;
  - `reformat.py`, `reformat/__init__.py`, `main.py` and
    `reformat_main.py`, which are orchestration and zip work;
  - `markdown_to_audio.py`.
- `ConvertHtml.ReplaceTitleAsWritten`: requires a title without
  backslashes. Python's template parser would read a backslash in the
  title as an escape or group reference, and that parser is not modelled.
- `ConvertMarkdown.ReplaceHeading`: the heading replacement is inserted
  literally. A backslash in the chapter title would be a template escape
  in the source.
- `ClassNames.Base`: `float()` and the comparisons with 18 and 1.2 are
  exact decimal arithmetic, not binary floating point. The two differ
  only for numerals that round onto a threshold, such as
  `1.19999999999999999em`.
- `ClassNames.MappingInjective`: distinct classes get distinct names
  only when no generated name already ends in `-` and digits.
  `ClassNames.NumberedCollision` shows two classes sharing a name without
  that condition. The source does not prevent this.
- `ConvertHtml.CopyChaptersFromToc`: a missing manifest or extracted
  directory is checked before `rule.svg` is written, as in the source.
  The `rule.svg` write itself is not modelled.
- `ConvertHtml.CopyChaptersFromToc`: retitles each copy with the
  corrected `ConvertHtml.ReplaceTitle` (the Findings row below), not with
  the replacement as written. For a chapter title that starts with a digit
  and not with two octal digits ("1984", "9 Lives", "81 Days") the source's
  `re.sub` raises `re.error` partway through the loop: the copies written
  before it stay on disk and toc.json is not rewritten. For a title that
  starts with two octal digits ("12 Rules") the source's copy loses its
  opening `<title>` tag and starts the title with the octal escape's
  character. The model instead writes every copy with the title inserted
  literally and always rewrites toc.json.
- `ConvertHtml.ReplaceTitle`: `ConvertHtml.TitleReplaced` and
  `ConvertHtml.NoTitleUnchanged` leave out one kind of page: one with a
  title tag but no closing tag after it. The pattern does not match, so
  the source returns the page unchanged. The model computes the same
  result, but no lemma states it.
- `Audiobook.SortSorted`: `Manifest.Entry` keeps `order` as an absent
  or integer value, so a manifest whose `order` is JSON null or not a
  number cannot be written down. In the source, `item.get("order", 0)`
  then yields None or a string, and `sorted` at create_audiobook.py:205
  raises TypeError when it compares that key with an integer. `extract.py`
  always writes an integer order (extract.py:163), so no stage produces
  such a manifest.
- `ConvertHtml.CopyEntries`: the loop's outcome per entry uses
  `ConvertHtml.ChapterHtml`, so the abort described on the line above
  does not occur in the model.
- `ConvertHtml.CopyEntry`: a chapter file exists when its resolved path
  is a key of the map of chapter files, which holds files only. The
  source tests `Path.exists()`, which is also true of a directory. An
  entry whose `chapter_path` is empty (`extract.py` stores "" for a
  navigation point without `<content>`) resolves to the extracted
  directory itself; the source then fails in `read_text` with
  IsADirectoryError, where the model skips the entry.
- `ConvertHtml.ResolveChapterPath`: reads a `chapter_path` that is JSON
  null as if the key were absent, so it resolves to the extracted
  directory. The manifest builder writes that null itself: `extract.py`
  stores `content_node.get("src")`, which is None for a `<content>`
  without `src`. In the source, `Path(None)` then raises TypeError, and
  neither stage catches it. The HTML copy stage and the markdown stage
  (`ConvertHtml.CopyChaptersFromToc`, `ConvertMarkdown.ConvertChaptersToMarkdown`)
  both abort at that entry, partway through their loops. In the model the
  entry is skipped and the loop goes on. `Manifest.Entry` keeps one
  `Option` per text field and does not tell null from absent.
- `ConvertMarkdown.ConvertEntry`: the same holds for the markdown stage.
  An empty `chapter_path` resolves to the extracted directory, which
  exists, and the source's `read_text` fails; the model skips the entry.

## Findings

| source | as written | input that shows it | evidently intended | confidence | as-written member | corrected member |
|---|---|---|---|---|---|---|
| src/epub2audio/reformat/convert_html.py:215-217 | the escaped title is spliced into the replacement template `\1{safe_title}\3`, so a title starting with a digit continues the `\1` escape | page `<title>x</title>` with title `"1984"`: the template reads `\11` then `9`, naming group 11 of a three-group pattern, so `re.sub` raises `re.error`; title `"12 Rules"` makes `\112` an octal escape, so the page gets `J Rules</title>` and loses its `<title>` tag | the title inserted literally between the tags | not executed | ConvertHtml.DigitTitleFails | ConvertHtml.TitleReplaced |

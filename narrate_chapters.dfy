/**
 * The narration stage: which chapters of `json/toc.json` are turned into
 * audio, in what order, and under which file names.  The text-to-speech
 * call itself is outside the model; its only visible effect, the output
 * file appearing, is tracked in the set of existing files.
 */
module NarrateChapters {
  import opened Wrappers
  import opened Strings
  import Paths
  import Manifest
  import Sorting
  import AudioIndex
  import AudioNames
  import ConvertMarkdown

  type Entry = Manifest.Entry

  // ---------------------------------------------------------------------
  // Output names

  /** "{chapterLabel}. {title}.m4a", the title defaulting to "Chapter {chapterLabel}". */
  function AudioName(chapterLabel: Manifest.Value, title: Option<string>): string {
    Manifest.AudioFileName(chapterLabel, if Manifest.Present(title) then title.value else "Chapter " + Manifest.Format(chapterLabel))
  }

  /**
   * `_audio_path_from_entry`: a stored `audio` value wins; otherwise the
   * chapterLabel (`chapter_number or order`) names a file in `{bookDir}/audio`,
   * and an entry with neither gets no output at all.
   */
  function AudioPathFromEntry(e: Entry, bookDir: string): (r: Option<string>)
    ensures Manifest.Present(e.audio) ==> r == e.audio
    ensures !Manifest.Present(e.audio) ==> (r.None? <==> e.order.None? && !Manifest.Truthy(e.chapterNumber))
  {
    if Manifest.Present(e.audio) then e.audio
    else
      var chapterLabel := Manifest.Label(e);
      if chapterLabel.Null? then None
      else
        Some(Paths.Child(Paths.Child(bookDir, "audio"), AudioName(chapterLabel, e.chapterTitle)))
  }

  /**
   * After the markdown stage, a chapter with a label is narrated to exactly
   * the audio path that stage recorded; when the chapter has a title, that
   * is also the path narration derives on its own.
   */
  lemma NarrationUsesRecordedAudio(e: Entry, bookDir: string, cwd: string)
    requires !Manifest.Label(e).Null?
    ensures var e' := ConvertMarkdown.UpdatedEntry(e, bookDir, cwd);
      && AudioPathFromEntry(e', bookDir) == e'.audio
      && (Manifest.Present(e.chapterTitle) ==> e'.audio == AudioPathFromEntry(e.(audio := None), bookDir))
  {
  }

  /** The output path, or "" for an entry that has none. */
  function OutputOf(e: Entry, bookDir: string): string {
    AudioPathFromEntry(e, bookDir).GetOr("")
  }

  /**
   * A chapter narrated without a stored audio path is found again by the
   * audiobook builder's file index under its chapter number, and under
   * its normalised title.
   */
  lemma NarratedFileIndexed(e: Entry, bookDir: string, n: nat, title: string)
    requires !Manifest.Present(e.audio) && e.chapterNumber == Manifest.Int(n) && n != 0
    requires e.chapterTitle == Some(title) && title != []
    requires AudioIndex.NoNewline(title) && '/' !in title
    ensures var p := AudioPathFromEntry(e, bookDir);
      && p.Some?
      && AudioIndex.NumberKey(AudioIndex.DirEntry(p.value, true)) == Some(n)
      && AudioIndex.TitleKey(AudioIndex.DirEntry(p.value, true)) ==
         (if Strip(title) == [] then None else Some(AudioNames.NormalizeTitle(Strip(title))))
  {
    var t := Strip(title);
    StripKeepsOut(title, '\n');
    StripKeepsOut(title, '/');
    StripIdempotent(title);
    assert Manifest.Format(Manifest.Int(n)) == NatToString(n);
    assert AudioName(Manifest.Int(n), e.chapterTitle) == NatToString(n) + ". " + t + ".m4a";
    AudioIndex.NamedFileKeys(Paths.Child(bookDir, "audio"), n, t);
  }

  // ---------------------------------------------------------------------
  // The chapter map

  /** The integer an entry is filed under: `chapter_number` itself, or `int()` of it. */
  function ChapterKey(e: Entry): Option<int> {
    match e.chapterNumber
    case Null => None
    case Int(i) => Some(i)
    case Str(s) => Manifest.ParseInt(s)
  }

  /** `chapters[chapter_key] = entry` over the manifest: a later entry replaces an earlier one. */
  function ChapterMap(entries: seq<Entry>): map<int, Entry>
    decreases |entries|
  {
    if entries == [] then map[]
    else
      var m := ChapterMap(entries[..|entries| - 1]);
      var e := entries[|entries| - 1];
      match ChapterKey(e)
      case Some(k) => m[k := e]
      case None => m
  }

  /** The keys in the order the entries give them, repetitions included. */
  function KeyList(entries: seq<Entry>): seq<int>
    decreases |entries|
  {
    if entries == [] then []
    else
      var rest := KeyList(entries[..|entries| - 1]);
      match ChapterKey(entries[|entries| - 1])
      case Some(k) => rest + [k]
      case None => rest
  }

  method BuildChapterMap(entries: seq<Entry>) returns (chapters: map<int, Entry>)
    ensures chapters == ChapterMap(entries)
  {
    chapters := map[];
    for i := 0 to |entries|
      invariant chapters == ChapterMap(entries[..i])
    {
      assert entries[..i + 1][..i] == entries[..i];
      var key := ChapterKey(entries[i]);
      if key.Some? {
        chapters := chapters[key.value := entries[i]];
      }
    }
    assert entries[..|entries|] == entries;
  }

  /** An entry's key is a key of the map. */
  lemma {:induction false} ChapterMapHas(entries: seq<Entry>, i: nat, k: int)
    requires i < |entries| && ChapterKey(entries[i]) == Some(k)
    ensures k in ChapterMap(entries)
    decreases |entries|
  {
    if i < |entries| - 1 {
      var init := entries[..|entries| - 1];
      assert init[i] == entries[i];
      ChapterMapHas(init, i, k);
    }
  }

  /** Every key of the map is some entry's key. */
  lemma {:induction false} ChapterMapFrom(entries: seq<Entry>, k: int) returns (i: nat)
    requires k in ChapterMap(entries)
    ensures i < |entries| && ChapterKey(entries[i]) == Some(k)
    decreases |entries|
  {
    if ChapterKey(entries[|entries| - 1]) == Some(k) {
      i := |entries| - 1;
    } else {
      var init := entries[..|entries| - 1];
      i := ChapterMapFrom(init, k);
      assert init[i] == entries[i];
    }
  }

  /** The keys of the chapter map are the keys the entries list. */
  lemma {:induction false} KeyListKeys(entries: seq<Entry>, k: int)
    ensures k in ChapterMap(entries) <==> k in KeyList(entries)
    decreases |entries|
  {
    if entries != [] {
      KeyListKeys(entries[..|entries| - 1], k);
    }
  }

  /** Each key holds the last entry filed under it. */
  lemma {:induction false} ChapterMapLastWins(entries: seq<Entry>, i: nat, k: int)
    requires i < |entries| && ChapterKey(entries[i]) == Some(k)
    requires forall j :: i < j < |entries| ==> ChapterKey(entries[j]) != Some(k)
    ensures k in ChapterMap(entries) && ChapterMap(entries)[k] == entries[i]
    decreases |entries|
  {
    if i < |entries| - 1 {
      var init := entries[..|entries| - 1];
      forall j | i < j < |init| ensures ChapterKey(init[j]) != Some(k) {
        assert init[j] == entries[j];
      }
      ChapterMapLastWins(init, i, k);
    }
  }

  // ---------------------------------------------------------------------
  // The narration range

  /** Chapter numbers of entries that have markdown, as ints, where they are ints or digit strings. */
  function MarkdownChapters(entries: seq<Entry>): seq<int>
    decreases |entries|
  {
    if entries == [] then []
    else
      var rest := MarkdownChapters(entries[..|entries| - 1]);
      var e := entries[|entries| - 1];
      var n := Manifest.IntOrDigits(e.chapterNumber);
      if Manifest.Present(e.markdown) && n.Some? then rest + [n.value] else rest
  }

  /** A chapter counted for the range is also a key of the chapter map. */
  lemma {:induction false} MarkdownChaptersAreKeys(entries: seq<Entry>, k: int)
    requires k in MarkdownChapters(entries)
    ensures k in KeyList(entries)
    decreases |entries|
  {
    var init := entries[..|entries| - 1];
    var e := entries[|entries| - 1];
    if k in MarkdownChapters(init) {
      MarkdownChaptersAreKeys(init, k);
    } else {
      match e.chapterNumber
      case Str(s) => {
        assert IsDigits(s);
      }
      case Int(_) => {}
    }
  }

  /** Every markdown chapter with its markdown present, as `(entry, number)`. */
  lemma {:induction false} MarkdownChaptersMembers(entries: seq<Entry>, i: nat)
    requires i < |entries| && Manifest.Present(entries[i].markdown)
    requires Manifest.IntOrDigits(entries[i].chapterNumber).Some?
    ensures Manifest.IntOrDigits(entries[i].chapterNumber).value in MarkdownChapters(entries)
    decreases |entries|
  {
    if i < |entries| - 1 {
      var init := entries[..|entries| - 1];
      assert init[i] == entries[i];
      MarkdownChaptersMembers(init, i);
    }
  }

  /** `start`/`end` after the markdown defaults: taken from the markdown chapters when one is missing. */
  function MarkdownBounds(entries: seq<Entry>, start: Option<int>, end: Option<int>): (Option<int>, Option<int>) {
    var mc := MarkdownChapters(entries);
    if (start.None? || end.None?) && mc != [] then
      (if start.None? then Some(Sorting.SeqMin(mc)) else start,
       if end.None? then Some(Sorting.SeqMax(mc)) else end)
    else (start, end)
  }

  /** The final bound: the markdown default, else the least (or greatest) key. */
  function Bound(given: Option<int>, keys: seq<int>, last: bool): int
    requires keys != []
  {
    if given.Some? then given.value else if last then keys[|keys| - 1] else keys[0]
  }

  // ---------------------------------------------------------------------
  // The narration loop

  /** The conditions on a chapter that do not depend on earlier narrations. */
  predicate Eligible(e: Entry, k: int, lo: int, hi: int, bookDir: string, files: set<string>) {
    && lo <= k <= hi
    && Manifest.Present(e.markdown)
    && e.markdown.value in files
    && AudioPathFromEntry(e, bookDir).Some?
  }

  /** Every key in `keys` has an entry in `chapters`. */
  predicate Filed(keys: seq<int>, chapters: map<int, Entry>) {
    forall i :: 0 <= i < |keys| ==> keys[i] in chapters
  }

  /**
   * The keys narrated by the loop over `keys`, starting from the files in
   * `files`: each chapter in range whose markdown exists and that has an
   * output path, unless that output exists and existing output is skipped
   * rather than overwritten.  Each narration adds its output to the files.
   */
  function Plan(keys: seq<int>, chapters: map<int, Entry>, lo: int, hi: int, bookDir: string,
                overwrite: bool, skipExisting: bool, files: set<string>): (ks: seq<int>)
    requires Filed(keys, chapters)
    ensures forall k :: k in ks ==> k in keys
    ensures Filed(ks, chapters)
    decreases |keys|
  {
    if keys == [] then []
    else
      var e := chapters[keys[0]];
      var out := OutputOf(e, bookDir);
      var rest := keys[1..];
      assert Filed(rest, chapters);
      if Eligible(e, keys[0], lo, hi, bookDir, files) && !(out in files && skipExisting && !overwrite) then
        [keys[0]] + Plan(rest, chapters, lo, hi, bookDir, overwrite, skipExisting, files + {out})
      else Plan(rest, chapters, lo, hi, bookDir, overwrite, skipExisting, files)
  }

  /** The output paths of narrated keys. */
  function Outputs(ks: seq<int>, chapters: map<int, Entry>, bookDir: string): (outs: seq<string>)
    requires Filed(ks, chapters)
    ensures |outs| == |ks|
  {
    seq(|ks|, i requires 0 <= i < |ks| => OutputOf(chapters[ks[i]], bookDir))
  }

  /** Chapters are narrated in ascending key order, each at most once. */
  lemma {:induction false} PlanAscending(keys: seq<int>, chapters: map<int, Entry>, lo: int, hi: int, bookDir: string,
                                         overwrite: bool, skipExisting: bool, files: set<string>)
    requires Filed(keys, chapters)
    requires Sorting.Ascending(keys)
    ensures Sorting.Ascending(Plan(keys, chapters, lo, hi, bookDir, overwrite, skipExisting, files))
    decreases |keys|
  {
    if keys != [] {
        var e := chapters[keys[0]];
      var out := OutputOf(e, bookDir);
      var rest := keys[1..];
      assert Filed(rest, chapters);
      assert forall k :: k in rest ==> keys[0] < k;
      var files' := if Eligible(e, keys[0], lo, hi, bookDir, files) && !(out in files && skipExisting && !overwrite)
        then files + {out} else files;
      PlanAscending(rest, chapters, lo, hi, bookDir, overwrite, skipExisting, files');
      var tail := Plan(rest, chapters, lo, hi, bookDir, overwrite, skipExisting, files');
      assert forall j :: 0 <= j < |tail| ==> keys[0] < tail[j] by {
        forall j | 0 <= j < |tail| ensures keys[0] < tail[j] {
          assert tail[j] in tail;
        }
      }
    }
  }

  /** A narrated chapter is in range, has markdown and has an output path. */
  lemma {:induction false} PlanSound(keys: seq<int>, chapters: map<int, Entry>, lo: int, hi: int, bookDir: string,
                                     overwrite: bool, skipExisting: bool, files: set<string>, k: int)
    requires Filed(keys, chapters)
    requires k in Plan(keys, chapters, lo, hi, bookDir, overwrite, skipExisting, files)
    ensures lo <= k <= hi && Manifest.Present(chapters[k].markdown)
    ensures AudioPathFromEntry(chapters[k], bookDir).Some?
    decreases |keys|
  {
    var e := chapters[keys[0]];
    var out := OutputOf(e, bookDir);
    var rest := keys[1..];
    assert Filed(rest, chapters);
    if Eligible(e, keys[0], lo, hi, bookDir, files) && !(out in files && skipExisting && !overwrite) {
      if k != keys[0] {
        PlanSound(rest, chapters, lo, hi, bookDir, overwrite, skipExisting, files + {out}, k);
      }
    } else {
      PlanSound(rest, chapters, lo, hi, bookDir, overwrite, skipExisting, files, k);
    }
  }

  /** With skipping on and overwriting off, no chapter whose output already existed is narrated. */
  lemma {:induction false} PlanSkipsExisting(keys: seq<int>, chapters: map<int, Entry>, lo: int, hi: int, bookDir: string,
                                             files: set<string>, k: int)
    requires Filed(keys, chapters)
    requires k in Plan(keys, chapters, lo, hi, bookDir, false, true, files)
    ensures OutputOf(chapters[k], bookDir) !in files
    decreases |keys|
  {
    var e := chapters[keys[0]];
    var out := OutputOf(e, bookDir);
    var rest := keys[1..];
    assert Filed(rest, chapters);
    if Eligible(e, keys[0], lo, hi, bookDir, files) && out !in files {
      if k != keys[0] {
        PlanSkipsExisting(rest, chapters, lo, hi, bookDir, files + {out}, k);
      }
    } else {
      PlanSkipsExisting(rest, chapters, lo, hi, bookDir, files, k);
    }
  }

  /**
   * When existing output is overwritten (or not skipped), every chapter in
   * range whose markdown exists and that has an output path is narrated.
   */
  lemma {:induction false} PlanComplete(keys: seq<int>, chapters: map<int, Entry>, lo: int, hi: int, bookDir: string,
                                        overwrite: bool, skipExisting: bool, files0: set<string>, files: set<string>, k: int)
    requires Filed(keys, chapters)
    requires overwrite || !skipExisting
    requires files0 <= files
    requires k in keys && Eligible(chapters[k], k, lo, hi, bookDir, files0)
    ensures k in Plan(keys, chapters, lo, hi, bookDir, overwrite, skipExisting, files)
    decreases |keys|
  {
    var e := chapters[keys[0]];
    var out := OutputOf(e, bookDir);
    var rest := keys[1..];
    assert Filed(rest, chapters);
    if k != keys[0] {
      assert k in rest;
      if Eligible(e, keys[0], lo, hi, bookDir, files) {
        PlanComplete(rest, chapters, lo, hi, bookDir, overwrite, skipExisting, files0, files + {out}, k);
      } else {
        PlanComplete(rest, chapters, lo, hi, bookDir, overwrite, skipExisting, files0, files, k);
      }
    }
  }

  /** One turn of the narration loop, in terms of `Plan`. */
  lemma NarrateStep(keys: seq<int>, i: nat, chapters: map<int, Entry>, lo: int, hi: int, bookDir: string,
                    overwrite: bool, skipExisting: bool, files: set<string>,
                    narrated: seq<int>, written: seq<string>, total: seq<int>)
    requires i < |keys| && Filed(keys, chapters) && Filed(narrated, chapters)
    requires narrated + Plan(keys[i..], chapters, lo, hi, bookDir, overwrite, skipExisting, files) == total
    requires written == Outputs(narrated, chapters, bookDir)
    ensures var e := chapters[keys[i]];
      var out := OutputOf(e, bookDir);
      if Eligible(e, keys[i], lo, hi, bookDir, files) && !(out in files && skipExisting && !overwrite) then
        && (narrated + [keys[i]]) + Plan(keys[i + 1..], chapters, lo, hi, bookDir, overwrite, skipExisting, files + {out}) == total
        && Filed(narrated + [keys[i]], chapters)
        && written + [out] == Outputs(narrated + [keys[i]], chapters, bookDir)
      else
        narrated + Plan(keys[i + 1..], chapters, lo, hi, bookDir, overwrite, skipExisting, files) == total
  {
    PlanStep(keys, i, chapters, lo, hi, bookDir, overwrite, skipExisting, files);
    var e := chapters[keys[i]];
    var out := OutputOf(e, bookDir);
    if Eligible(e, keys[i], lo, hi, bookDir, files) && !(out in files && skipExisting && !overwrite) {
      var rest := Plan(keys[i + 1..], chapters, lo, hi, bookDir, overwrite, skipExisting, files + {out});
      assert narrated + ([keys[i]] + rest) == (narrated + [keys[i]]) + rest;
      OutputsAppend(narrated, keys[i], chapters, bookDir);
    }
  }

  lemma OutputsAppend(narrated: seq<int>, k: int, chapters: map<int, Entry>, bookDir: string)
    requires Filed(narrated, chapters) && k in chapters
    ensures Filed(narrated + [k], chapters)
    ensures Outputs(narrated, chapters, bookDir) + [OutputOf(chapters[k], bookDir)] == Outputs(narrated + [k], chapters, bookDir)
  {
  }

  lemma PlanStep(keys: seq<int>, i: nat, chapters: map<int, Entry>, lo: int, hi: int, bookDir: string,
                 overwrite: bool, skipExisting: bool, files: set<string>)
    requires i < |keys| && Filed(keys, chapters)
    ensures var e := chapters[keys[i]];
      var out := OutputOf(e, bookDir);
      Plan(keys[i..], chapters, lo, hi, bookDir, overwrite, skipExisting, files) ==
        if Eligible(e, keys[i], lo, hi, bookDir, files) && !(out in files && skipExisting && !overwrite) then
          [keys[i]] + Plan(keys[i + 1..], chapters, lo, hi, bookDir, overwrite, skipExisting, files + {out})
        else Plan(keys[i + 1..], chapters, lo, hi, bookDir, overwrite, skipExisting, files)
  {
    assert keys[i..][1..] == keys[i + 1..];
    assert Filed(keys[i..], chapters) && Filed(keys[i + 1..], chapters);
  }

  // ---------------------------------------------------------------------
  // convert_from_toc

  /** The sorted keys all have entries in the chapter map. */
  lemma KeysFiled(entries: seq<Entry>)
    ensures Filed(Sorting.SortedInts(KeyList(entries)), ChapterMap(entries))
  {
    var keys := Sorting.SortedInts(KeyList(entries));
    forall i | 0 <= i < |keys| ensures keys[i] in ChapterMap(entries) {
      KeyListKeys(entries, keys[i]);
    }
  }

  /** What `convert_from_toc` returns for a loaded manifest, given the files that exist. */
  function Narration(entries: seq<Entry>, bookDir: string, overwrite: bool, skipExisting: bool,
                     start: Option<int>, end: Option<int>, files: set<string>): Result<seq<string>>
  {
    var (s, e) := MarkdownBounds(entries, start, end);
    var chapters := ChapterMap(entries);
    var keys := Sorting.SortedInts(KeyList(entries));
    if keys == [] then Success([])
    else
      var lo := Bound(s, keys, false);
      var hi := Bound(e, keys, true);
      if lo !in chapters then Failure(AssertionFailed("Start chapter not valid"))
      else if hi !in chapters then Failure(AssertionFailed("End chapter not valid"))
      else
        KeysFiled(entries);
        Success(Outputs(Plan(keys, chapters, lo, hi, bookDir, overwrite, skipExisting, files), chapters, bookDir))
  }

  /**
   * `convert_from_toc`: `toc` is the parsed `json/toc.json` of
   * `{baseDir}/{stem}` (`None` when the file is missing); `existing` are
   * the files present before narration starts.
   */
  method ConvertFromToc(stem: string, baseDir: string, overwrite: bool, skipExisting: bool,
                        start: Option<int>, end: Option<int>,
                        toc: Option<seq<Entry>>, existing: set<string>)
    returns (r: Result<seq<string>>)
    ensures toc.None? ==> r == Failure(FileNotFound("toc.json"))
    ensures toc.Some? ==> r == Narration(toc.value, Paths.Child(baseDir, stem), overwrite, skipExisting, start, end, existing)
  {
    var bookDir := Paths.Child(baseDir, stem);
    if toc.None? {
      return Failure(FileNotFound("toc.json"));
    }
    var entries := toc.value;
    var s, e := start, end;
    if s.None? || e.None? {
      var markdownChapters := MarkdownChapters(entries);
      if markdownChapters != [] {
        if s.None? { s := Some(Sorting.SeqMin(markdownChapters)); }
        if e.None? { e := Some(Sorting.SeqMax(markdownChapters)); }
      }
    }
    assert (s, e) == MarkdownBounds(entries, start, end);
    var chapters := BuildChapterMap(entries);
    var keys := Sorting.SortedInts(KeyList(entries));
    KeysFiled(entries);
    if keys == [] {
      return Success([]);
    }
    var lo := if s.Some? then s.value else keys[0];
    var hi := if e.Some? then e.value else keys[|keys| - 1];
    if lo !in chapters {
      return Failure(AssertionFailed("Start chapter not valid"));
    }
    if hi !in chapters {
      return Failure(AssertionFailed("End chapter not valid"));
    }
    var written := NarrateKeys(keys, chapters, lo, hi, bookDir, overwrite, skipExisting, existing);
    return Success(written);
  }

  /** The loop of `convert_from_toc` over `sorted(chapters)`. */
  method NarrateKeys(keys: seq<int>, chapters: map<int, Entry>, lo: int, hi: int, bookDir: string,
                     overwrite: bool, skipExisting: bool, existing: set<string>)
    returns (written: seq<string>)
    requires Filed(keys, chapters)
    ensures written == Outputs(Plan(keys, chapters, lo, hi, bookDir, overwrite, skipExisting, existing), chapters, bookDir)
  {
    written := [];
    ghost var narrated: seq<int> := [];
    var files := existing;
    for i := 0 to |keys|
      invariant narrated + Plan(keys[i..], chapters, lo, hi, bookDir, overwrite, skipExisting, files)
             == Plan(keys, chapters, lo, hi, bookDir, overwrite, skipExisting, existing)
      invariant Filed(narrated, chapters)
      invariant written == Outputs(narrated, chapters, bookDir)
    {
      NarrateStep(keys, i, chapters, lo, hi, bookDir, overwrite, skipExisting, files, narrated, written,
                  Plan(keys, chapters, lo, hi, bookDir, overwrite, skipExisting, existing));
      var chapterLabel := keys[i];
      var entry := chapters[chapterLabel];
      // Out of range, no markdown, markdown missing, no output path, or output kept: skip.
      var outputPath := AudioPathFromEntry(entry, bookDir);
      if && lo <= chapterLabel <= hi
         && Manifest.Present(entry.markdown) && entry.markdown.value in files
         && outputPath.Some?
         && !(outputPath.value in files && skipExisting && !overwrite)
      {
        files := files + {outputPath.value};
        written := written + [outputPath.value];
        narrated := narrated + [chapterLabel];
      }
    }
    assert keys[|keys|..] == [];
  }

  // ---------------------------------------------------------------------
  // Properties of the whole stage

  /** A manifest with no usable chapter number narrates nothing and succeeds. */
  lemma NoChaptersNoNarration(entries: seq<Entry>, bookDir: string, overwrite: bool, skipExisting: bool,
                              start: Option<int>, end: Option<int>, files: set<string>)
    requires forall i :: 0 <= i < |entries| ==> ChapterKey(entries[i]).None?
    ensures Narration(entries, bookDir, overwrite, skipExisting, start, end, files) == Success([])
  {
    NoKeys(entries);
  }

  lemma {:induction false} NoKeys(entries: seq<Entry>)
    requires forall i :: 0 <= i < |entries| ==> ChapterKey(entries[i]).None?
    ensures KeyList(entries) == []
    decreases |entries|
  {
    if entries != [] {
      NoKeys(entries[..|entries| - 1]);
    }
  }

  /**
   * Left to its defaults, the range is valid: a bound taken from the
   * markdown chapters, or from the keys, is always a key, so the stage's
   * assertions only ever reject a bound the caller gave.
   */
  lemma DefaultBoundsValid(entries: seq<Entry>, bookDir: string, overwrite: bool, skipExisting: bool,
                           files: set<string>)
    ensures Narration(entries, bookDir, overwrite, skipExisting, None, None, files).Success?
  {
    var (s, e) := MarkdownBounds(entries, None, None);
    var keys := Sorting.SortedInts(KeyList(entries));
    var mc := MarkdownChapters(entries);
    if keys != [] && mc != [] {
      MarkdownChaptersAreKeys(entries, Sorting.SeqMin(mc));
      MarkdownChaptersAreKeys(entries, Sorting.SeqMax(mc));
      KeyListKeys(entries, Sorting.SeqMin(mc));
      KeyListKeys(entries, Sorting.SeqMax(mc));
    } else if keys != [] {
      KeyListKeys(entries, keys[0]);
      KeyListKeys(entries, keys[|keys| - 1]);
    }
  }

  /**
   * Left to its defaults, the range covers every chapter that has
   * markdown: each such chapter number lies between the two bounds.
   */
  lemma DefaultRangeCoversMarkdown(entries: seq<Entry>, i: nat)
    requires i < |entries| && Manifest.Present(entries[i].markdown)
    requires Manifest.IntOrDigits(entries[i].chapterNumber).Some?
    ensures var (s, e) := MarkdownBounds(entries, None, None);
      s.Some? && e.Some? && s.value <= Manifest.IntOrDigits(entries[i].chapterNumber).value <= e.value
  {
    MarkdownChaptersMembers(entries, i);
  }

  /** A bound the caller gives is the bound used. */
  lemma GivenBoundsKept(entries: seq<Entry>, lo: int, hi: int)
    ensures MarkdownBounds(entries, Some(lo), Some(hi)) == (Some(lo), Some(hi))
  {
  }

  /** With a caller's start that is not a chapter key, the stage fails its assertion. */
  lemma UnknownStartRejected(entries: seq<Entry>, bookDir: string, overwrite: bool, skipExisting: bool,
                             lo: int, end: Option<int>, files: set<string>)
    requires KeyList(entries) != [] && lo !in KeyList(entries)
    ensures Narration(entries, bookDir, overwrite, skipExisting, Some(lo), end, files).Failure?
  {
    KeyListKeys(entries, lo);
    var keys := Sorting.SortedInts(KeyList(entries));
    assert KeyList(entries)[0] in keys;
  }
}

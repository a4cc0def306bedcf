/**
 * The two text files the audiobook builder hands to ffmpeg: the concat
 * demuxer list (`_build_concat_list`) and the ffmetadata chapters file
 * (`_build_ffmetadata`), with the value escaping both rely on.  Durations,
 * which the source reads with ffprobe, are inputs here.
 */
module Ffmetadata {
  import opened Wrappers
  import opened Strings
  import Paths
  import Manifest

  // ---------------------------------------------------------------------
  // `_escape_ffmetadata`

  /** `s.replace(c, rep)` for a one-character pattern. */
  function Sub(s: string, c: char, rep: string): string {
    Replace(s, [c], rep)
  }

  /** The chain of replacements, in the source's order: backslashes first, then newlines, then `=`, `;` and `#`. */
  function Escape(v: string): string {
    Sub(Sub(Sub(Sub(Sub(v, '\\', "\\\\"), '\n', " "), '=', "\\="), ';', "\\;"), '#', "\\#")
  }

  /** What the chain does to one character. */
  function EscapeChar(c: char): string {
    if c == '\\' then "\\\\"
    else if c == '\n' then " "
    else if c == '=' then "\\="
    else if c == ';' then "\\;"
    else if c == '#' then "\\#"
    else [c]
  }

  /** Escaping character by character: the reference the chain is measured against. */
  function EscapeEach(v: string): string {
    if v == [] then [] else EscapeChar(v[0]) + EscapeEach(v[1..])
  }

  /** How ffmpeg reads an escaped value: a backslash stands for the character after it. */
  function Unescape(s: string): string
    decreases |s|
  {
    if s == [] then []
    else if s[0] == '\\' && |s| >= 2 then [s[1]] + Unescape(s[2..])
    else [s[0]] + Unescape(s[1..])
  }

  /** The five replacements amount to escaping each character on its own: no step touches what an earlier one wrote. */
  lemma {:induction false} EscapeIsEachChar(v: string)
    ensures Escape(v) == EscapeEach(v)
    decreases |v|
  {
    if v == [] {
      EscapeEmpty();
    } else {
      assert v == [v[0]] + v[1..];
      EscapeAppend([v[0]], v[1..]);
      EscapeOne(v[0]);
      EscapeIsEachChar(v[1..]);
    }
  }

  lemma EscapeEmpty()
    ensures Escape([]) == []
  {
  }

  lemma EscapeAppend(a: string, b: string)
    ensures Escape(a + b) == Escape(a) + Escape(b)
  {
    var a1, b1 := Sub(a, '\\', "\\\\"), Sub(b, '\\', "\\\\");
    ReplaceCharAppend(a, b, '\\', "\\\\");
    var a2, b2 := Sub(a1, '\n', " "), Sub(b1, '\n', " ");
    ReplaceCharAppend(a1, b1, '\n', " ");
    var a3, b3 := Sub(a2, '=', "\\="), Sub(b2, '=', "\\=");
    ReplaceCharAppend(a2, b2, '=', "\\=");
    var a4, b4 := Sub(a3, ';', "\\;"), Sub(b3, ';', "\\;");
    ReplaceCharAppend(a3, b3, ';', "\\;");
    ReplaceCharAppend(a4, b4, '#', "\\#");
  }

  lemma SubOne(x: char, c: char, rep: string)
    ensures Sub([x], c, rep) == if x == c then rep else [x]
  {
    ReplaceCharStep([x], c, rep);
    assert [x][1..] == [];
  }

  lemma {:induction false} SubLacking(s: string, c: char, rep: string)
    requires Lacks(s, c)
    ensures Sub(s, c, rep) == s
    decreases |s|
  {
    if s != [] {
      ReplaceCharStep(s, c, rep);
      SubLacking(s[1..], c, rep);
      assert [s[0]] + s[1..] == s;
    }
  }

  /** None of the later steps' characters occurs in `s`. */
  predicate Settled(s: string, later: string) {
    forall i, j :: 0 <= i < |s| && 0 <= j < |later| ==> s[i] != later[j]
  }

  lemma EscapeOne(x: char)
    ensures Escape([x]) == EscapeChar(x)
  {
    var s1 := Sub([x], '\\', "\\\\");
    SubOne(x, '\\', "\\\\");
    var s2 := Sub(s1, '\n', " ");
    assert s2 == if x == '\n' then " " else s1 by {
      if x == '\n' { SubOne(x, '\n', " "); } else { SubLacking(s1, '\n', " "); }
    }
    var s3 := Sub(s2, '=', "\\=");
    assert s3 == if x == '=' then "\\=" else s2 by {
      if x == '=' { SubOne(x, '=', "\\="); } else { SubLacking(s2, '=', "\\="); }
    }
    var s4 := Sub(s3, ';', "\\;");
    assert s4 == if x == ';' then "\\;" else s3 by {
      if x == ';' { SubOne(x, ';', "\\;"); } else { SubLacking(s3, ';', "\\;"); }
    }
    assert Sub(s4, '#', "\\#") == if x == '#' then "\\#" else s4 by {
      if x == '#' { SubOne(x, '#', "\\#"); } else { SubLacking(s4, '#', "\\#"); }
    }
  }

  /** An escaped value has no newline, so it stays on its `key=value` line. */
  lemma EscapeNoNewline(v: string)
    ensures Lacks(Escape(v), '\n')
  {
    EscapeIsEachChar(v);
    EachNoNewline(v);
  }

  lemma {:induction false} EachNoNewline(v: string)
    ensures Lacks(EscapeEach(v), '\n')
    decreases |v|
  {
    if v != [] {
      EachNoNewline(v[1..]);
      var e := EscapeChar(v[0]);
      var r := EscapeEach(v[1..]);
      forall i | 0 <= i < |e + r| ensures (e + r)[i] != '\n' {
        if i >= |e| { assert (e + r)[i] == r[i - |e|]; }
      }
    }
  }

  /** Reading an escaped value back gives the value with each newline turned into a space. */
  lemma UnescapeEscape(v: string)
    ensures Unescape(Escape(v)) == Sub(v, '\n', " ")
  {
    EscapeIsEachChar(v);
    UnescapeEach(v);
  }

  lemma {:induction false} UnescapeEach(v: string)
    ensures Unescape(EscapeEach(v)) == Sub(v, '\n', " ")
    decreases |v|
  {
    if v != [] {
      UnescapeEach(v[1..]);
      UnescapeChar(v[0], EscapeEach(v[1..]));
      ReplaceCharStep(v, '\n', " ");
    }
  }

  lemma UnescapeChar(x: char, t: string)
    ensures Unescape(EscapeChar(x) + t) == (if x == '\n' then " " else [x]) + Unescape(t)
  {
    var e := EscapeChar(x);
    var s := e + t;
    if |e| == 2 {
      assert s[0] == '\\' && s[1] == x && s[2..] == t;
    } else {
      assert s[0] != '\\' && s[1..] == t;
    }
  }

  // ---------------------------------------------------------------------
  // `_build_concat_list`

  /** Inside single quotes the concat demuxer reads `'\''` as one quote. */
  function QuotePath(p: string): string {
    Sub(p, '\'', "'\\''")
  }

  function ConcatLine(p: string): string {
    "file '" + QuotePath(p) + "'"
  }

  function ConcatLines(paths: seq<string>): (lines: seq<string>)
    ensures |lines| == |paths|
  {
    if paths == [] then [] else ConcatLines(paths[..|paths| - 1]) + [ConcatLine(paths[|paths| - 1])]
  }

  /** `str(path.resolve())` for each path, against the working directory `cwd`. */
  function Resolved(paths: seq<string>, cwd: string): (rs: seq<string>)
    ensures |rs| == |paths|
    ensures forall i :: 0 <= i < |paths| ==> rs[i] == Paths.Join(cwd, paths[i])
  {
    seq(|paths|, i requires 0 <= i < |paths| => Paths.Join(cwd, paths[i]))
  }

  /** The loop of `_build_concat_list` and the text it writes: each path resolved, then quoted. */
  method BuildConcatList(paths: seq<string>, cwd: string) returns (text: string)
    ensures text == Join("\n", ConcatLines(Resolved(paths, cwd))) + "\n"
  {
    var lines: seq<string> := [];
    ghost var resolved := Resolved(paths, cwd);
    for i := 0 to |paths|
      invariant lines == ConcatLines(resolved[..i])
    {
      var safePath := Replace(Paths.Join(cwd, paths[i]), "'", "'\\''");
      assert resolved[..i + 1][..i] == resolved[..i];
      lines := lines + ["file '" + safePath + "'"];
    }
    assert resolved[..|paths|] == resolved;
    text := Join("\n", lines) + "\n";
  }

  /**
   * Run from an absolute working directory, as a process always is, every
   * path the concat list names is absolute, whether it was given relative
   * (under the default base directory "static") or not.
   */
  lemma ConcatListAbsolute(paths: seq<string>, cwd: string, i: nat)
    requires Paths.IsAbsolute(cwd) && i < |paths|
    ensures ReadConcatLine(ConcatLines(Resolved(paths, cwd))[i]).Some?
    ensures Paths.IsAbsolute(ReadConcatLine(ConcatLines(Resolved(paths, cwd))[i]).value)
    ensures ReadConcatLine(ConcatLines(Resolved(paths, cwd))[i]).value
      == (if Paths.IsAbsolute(paths[i]) then paths[i] else if paths[i] == [] then cwd else cwd + "/" + paths[i])
  {
    var rs := Resolved(paths, cwd);
    ConcatLineAt(rs, i);
    ConcatLineRoundTrip(rs[i]);
  }

  /** The demuxer's reading of a quoted path. */
  function Unquote(s: string): string
    decreases |s|
  {
    if s == [] then []
    else if |s| >= 4 && s[..4] == "'\\''" then "'" + Unquote(s[4..])
    else [s[0]] + Unquote(s[1..])
  }

  /** A concat line's path, when the line has the `file '...'` shape. */
  function ReadConcatLine(line: string): Option<string> {
    if |line| >= 7 && line[..6] == "file '" && line[|line| - 1] == '\'' then Some(Unquote(line[6..|line| - 1]))
    else None
  }

  lemma {:induction false} UnquoteQuote(p: string)
    ensures Unquote(QuotePath(p)) == p
    decreases |p|
  {
    if p != [] {
      ReplaceCharStep(p, '\'', "'\\''");
      UnquoteQuote(p[1..]);
      var t := QuotePath(p[1..]);
      if p[0] == '\'' {
        var s := "'\\''" + t;
        assert s[..4] == "'\\''" && s[4..] == t;
      } else {
        var s := [p[0]] + t;
        assert s[1..] == t;
        assert s[0] != '\'' && (|s| >= 4 ==> s[..4][0] == s[0]);
      }
      assert [p[0]] + p[1..] == p;
    }
  }

  /** Each line names its path, quotes included, and the demuxer reads that path back. */
  lemma ConcatLineRoundTrip(p: string)
    ensures ReadConcatLine(ConcatLine(p)) == Some(p)
  {
    var q := QuotePath(p);
    var line := ConcatLine(p);
    assert line == "file '" + q + "'";
    assert line[..6] == "file '" && line[|line| - 1] == '\'';
    assert line[6..|line| - 1] == q;
    UnquoteQuote(p);
  }

  /** Line `i` of the list is the line for path `i`. */
  lemma {:induction false} ConcatLineAt(paths: seq<string>, i: nat)
    requires i < |paths|
    ensures ConcatLines(paths)[i] == ConcatLine(paths[i])
    decreases |paths|
  {
    if i < |paths| - 1 {
      var init := paths[..|paths| - 1];
      assert init[i] == paths[i];
      ConcatLineAt(init, i);
    }
  }

  /** Paths without a newline give one line each, in input order, and the text splits back into them. */
  lemma ConcatListLines(paths: seq<string>)
    requires |paths| >= 1 && forall k :: 0 <= k < |paths| ==> Lacks(paths[k], '\n')
    ensures Split(Join("\n", ConcatLines(paths)) + "\n", "\n") == ConcatLines(paths) + [""]
  {
    var lines := ConcatLines(paths);
    forall k | 0 <= k < |lines| ensures Lacks(lines[k], '\n') {
      ConcatLineAt(paths, k);
      QuoteNoNewline(paths[k]);
    }
    LinesRoundTrip(lines);
  }

  lemma QuoteNoNewline(p: string)
    requires Lacks(p, '\n')
    ensures Lacks(ConcatLine(p), '\n')
  {
    var q := QuotePath(p);
    assert Lacks(q, '\n') by { QuoteLacks(p, '\n'); }
    var line := "file '" + q + "'";
    forall i | 0 <= i < |line| ensures line[i] != '\n' {
      if 6 <= i < 6 + |q| { assert line[i] == q[i - 6]; }
    }
  }

  lemma {:induction false} QuoteLacks(p: string, c: char)
    requires Lacks(p, c) && c != '\'' && c != '\\'
    ensures Lacks(QuotePath(p), c)
    decreases |p|
  {
    if p != [] {
      ReplaceCharStep(p, '\'', "'\\''");
      QuoteLacks(p[1..], c);
      var h := if p[0] == '\'' then "'\\''" else [p[0]];
      var t := QuotePath(p[1..]);
      forall i | 0 <= i < |h + t| ensures (h + t)[i] != c {
        if i >= |h| { assert (h + t)[i] == t[i - |h|]; }
      }
    }
  }

  // ---------------------------------------------------------------------
  // `_build_ffmetadata`

  /** One `[CHAPTER]` block: its bounds in milliseconds and its title. */
  datatype Chapter = Chapter(start: nat, end: nat, title: string)

  function Sum(ds: seq<nat>): nat {
    if ds == [] then 0 else Sum(ds[..|ds| - 1]) + ds[|ds| - 1]
  }

  /**
   * The block title: `raw` is the chapter title when it is a non-empty
   * string, the audio file's stem otherwise; a truthy chapter number is
   * put in front.
   */
  function ChapterTitle(e: Manifest.Entry, audioPath: string): string {
    var raw := if Manifest.Present(e.chapterTitle) then e.chapterTitle.value else Paths.Stem(audioPath);
    if Manifest.Truthy(e.chapterNumber) then
      if raw != [] then "Chapter " + Manifest.Format(e.chapterNumber) + ": " + raw
      else "Chapter " + Manifest.Format(e.chapterNumber)
    else raw
  }

  /** The blocks for aligned entries, paths and durations, in order, the clock running from 0. */
  function Chapters(entries: seq<Manifest.Entry>, paths: seq<string>, durations: seq<nat>): (cs: seq<Chapter>)
    requires |entries| == |paths| == |durations|
    ensures |cs| == |entries|
  {
    if entries == [] then []
    else
      var n := |entries| - 1;
      var start := Sum(durations[..n]);
      Chapters(entries[..n], paths[..n], durations[..n])
        + [Chapter(start, start + durations[n], ChapterTitle(entries[n], paths[n]))]
  }

  function ChapterLines(c: Chapter): seq<string> {
    ["", "[CHAPTER]", "TIMEBASE=1/1000",
     "START=" + NatToString(c.start), "END=" + NatToString(c.end), "title=" + Escape(c.title)]
  }

  function RenderChapters(cs: seq<Chapter>): seq<string> {
    if cs == [] then [] else RenderChapters(cs[..|cs| - 1]) + ChapterLines(cs[|cs| - 1])
  }

  /** The file header; the artist lines only for a truthy author. */
  function HeaderLines(bookTitle: string, author: Option<string>): seq<string> {
    [";FFMETADATA1", "title=" + Escape(bookTitle)]
      + (if Manifest.Present(author) then
           ["artist=" + Escape(author.value), "album_artist=" + Escape(author.value)]
         else [])
  }

  /**
   * `_build_ffmetadata`.  `durations[i]` is what ffprobe reports for
   * `paths[i]`.  `zip(..., strict=True)` raises ValueError when the lists
   * differ in length, and nothing is written then.
   */
  method BuildFfmetadata(entries: seq<Manifest.Entry>, paths: seq<string>, durations: seq<nat>,
                         bookTitle: string, author: Option<string>)
    returns (r: Result<string>)
    requires |durations| == |paths|
    ensures |entries| != |paths| ==> r.Failure? && r.error.ValueError?
    ensures |entries| == |paths| ==>
      r == Success(Join("\n", HeaderLines(bookTitle, author) + RenderChapters(Chapters(entries, paths, durations))) + "\n")
  {
    var lines := [";FFMETADATA1", "title=" + Escape(bookTitle)];
    if author.Some? && author.value != [] {
      var escapedAuthor := Escape(author.value);
      lines := lines + ["artist=" + escapedAuthor, "album_artist=" + escapedAuthor];
    }
    if |entries| != |paths| {
      return Failure(ValueError("zip() arguments have different lengths"));
    }
    assert lines == HeaderLines(bookTitle, author);
    var blocks := ChapterBlocks(entries, paths, durations);
    r := Success(Join("\n", lines + blocks) + "\n");
  }

  /** The chapter loop of `_build_ffmetadata`: one block per entry, the clock advancing by each duration. */
  method ChapterBlocks(entries: seq<Manifest.Entry>, paths: seq<string>, durations: seq<nat>)
    returns (lines: seq<string>)
    requires |entries| == |paths| == |durations|
    ensures lines == RenderChapters(Chapters(entries, paths, durations))
  {
    lines := [];
    var currentMs: nat := 0;
    for i := 0 to |entries|
      invariant currentMs == Sum(durations[..i])
      invariant lines == RenderChapters(Chapters(entries[..i], paths[..i], durations[..i]))
    {
      var durationMs := durations[i];
      var rawTitle := if entries[i].chapterTitle.Some? && entries[i].chapterTitle.value != []
        then entries[i].chapterTitle.value else Paths.Stem(paths[i]);
      var chapterNumber := entries[i].chapterNumber;
      var title: string;
      if Manifest.Truthy(chapterNumber) {
        if rawTitle != [] {
          title := "Chapter " + Manifest.Format(chapterNumber) + ": " + rawTitle;
        } else {
          title := "Chapter " + Manifest.Format(chapterNumber);
        }
      } else {
        title := rawTitle;
      }
      assert title == ChapterTitle(entries[i], paths[i]);
      BlockStep(entries, paths, durations, i, lines, currentMs, durationMs, title);
      lines := lines + ["", "[CHAPTER]", "TIMEBASE=1/1000",
                        "START=" + NatToString(currentMs), "END=" + NatToString(currentMs + durationMs),
                        "title=" + Escape(title)];
      currentMs := currentMs + durationMs;
    }
    ChaptersWhole(entries, paths, durations);
  }

  /** One turn of the loop appends the block of entry `i`, starting where the clock stands. */
  lemma BlockStep(entries: seq<Manifest.Entry>, paths: seq<string>, durations: seq<nat>, i: nat,
                  lines: seq<string>, start: nat, d: nat, title: string)
    requires |entries| == |paths| == |durations| && i < |entries|
    requires lines == RenderChapters(Chapters(entries[..i], paths[..i], durations[..i]))
    requires start == Sum(durations[..i]) && d == durations[i]
    requires title == ChapterTitle(entries[i], paths[i])
    ensures start + d == Sum(durations[..i + 1])
    ensures lines + ["", "[CHAPTER]", "TIMEBASE=1/1000",
                     "START=" + NatToString(start), "END=" + NatToString(start + d), "title=" + Escape(title)]
      == RenderChapters(Chapters(entries[..i + 1], paths[..i + 1], durations[..i + 1]))
  {
    var done := Chapters(entries[..i], paths[..i], durations[..i]);
    var c := Chapter(start, start + d, title);
    ChaptersStep(entries, paths, durations, i);
    RenderStep(done, c);
  }

  lemma ChaptersStep(entries: seq<Manifest.Entry>, paths: seq<string>, durations: seq<nat>, i: nat)
    requires |entries| == |paths| == |durations| && i < |entries|
    ensures Sum(durations[..i + 1]) == Sum(durations[..i]) + durations[i]
    ensures Chapters(entries[..i + 1], paths[..i + 1], durations[..i + 1]) ==
      Chapters(entries[..i], paths[..i], durations[..i])
        + [Chapter(Sum(durations[..i]), Sum(durations[..i]) + durations[i], ChapterTitle(entries[i], paths[i]))]
  {
    assert entries[..i + 1][..i] == entries[..i];
    assert paths[..i + 1][..i] == paths[..i];
    assert durations[..i + 1][..i] == durations[..i];
  }

  lemma RenderStep(cs: seq<Chapter>, c: Chapter)
    ensures RenderChapters(cs + [c]) == RenderChapters(cs) + ChapterLines(c)
  {
    assert (cs + [c])[..|cs|] == cs;
  }

  lemma ChaptersWhole(entries: seq<Manifest.Entry>, paths: seq<string>, durations: seq<nat>)
    requires |entries| == |paths| == |durations|
    ensures Chapters(entries[..|entries|], paths[..|paths|], durations[..|durations|]) == Chapters(entries, paths, durations)
  {
    assert entries[..|entries|] == entries && paths[..|paths|] == paths && durations[..|durations|] == durations;
  }

  // ---------------------------------------------------------------------
  // What the chapters file promises

  /** Block `i` starts at the sum of the durations before it and lasts `durations[i]`. */
  lemma {:induction false} ChapterAt(entries: seq<Manifest.Entry>, paths: seq<string>, durations: seq<nat>, i: nat)
    requires |entries| == |paths| == |durations| && i < |entries|
    ensures Chapters(entries, paths, durations)[i] ==
      Chapter(Sum(durations[..i]), Sum(durations[..i]) + durations[i], ChapterTitle(entries[i], paths[i]))
    decreases |entries|
  {
    var n := |entries| - 1;
    if i < n {
      ChapterInit(entries, paths, durations, n, i);
      ChapterAt(entries[..n], paths[..n], durations[..n], i);
      SlicesAt(entries, paths, durations, n, i);
    } else {
      ChapterLast(entries, paths, durations, n);
    }
  }

  lemma ChapterLast(entries: seq<Manifest.Entry>, paths: seq<string>, durations: seq<nat>, n: nat)
    requires |entries| == |paths| == |durations| == n + 1
    ensures Chapters(entries, paths, durations)[n] ==
      Chapter(Sum(durations[..n]), Sum(durations[..n]) + durations[n], ChapterTitle(entries[n], paths[n]))
  {
  }

  lemma ChapterInit(entries: seq<Manifest.Entry>, paths: seq<string>, durations: seq<nat>, n: nat, i: nat)
    requires |entries| == |paths| == |durations| == n + 1 && i < n
    ensures Chapters(entries, paths, durations)[i] == Chapters(entries[..n], paths[..n], durations[..n])[i]
  {
  }

  lemma SlicesAt(entries: seq<Manifest.Entry>, paths: seq<string>, durations: seq<nat>, n: nat, i: nat)
    requires i < n <= |entries| && n <= |paths| && n <= |durations|
    ensures entries[..n][i] == entries[i] && paths[..n][i] == paths[i] && durations[..n][i] == durations[i]
    ensures durations[..n][..i] == durations[..i]
  {
  }

  /** The blocks tile the timeline: the first starts at 0, each ends where the next starts, the last ends at the total. */
  lemma ChaptersContiguous(entries: seq<Manifest.Entry>, paths: seq<string>, durations: seq<nat>)
    requires |entries| == |paths| == |durations|
    ensures var cs := Chapters(entries, paths, durations);
      && (|cs| > 0 ==> cs[0].start == 0)
      && (forall i :: 0 <= i < |cs| ==> cs[i].end == cs[i].start + durations[i])
      && (forall i :: 0 <= i < |cs| - 1 ==> cs[i].end == cs[i + 1].start)
      && (|cs| > 0 ==> cs[|cs| - 1].end == Sum(durations))
  {
    var cs := Chapters(entries, paths, durations);
    forall i | 0 <= i < |cs| ensures cs[i].start == Sum(durations[..i]) && cs[i].end == cs[i].start + durations[i] {
      ChapterAt(entries, paths, durations, i);
    }
    forall i | 0 <= i < |cs| - 1 ensures cs[i].end == cs[i + 1].start {
      SumStep(durations, i);
    }
    if |cs| > 0 {
      assert durations[..0] == [];
      SumStep(durations, |cs| - 1);
      assert durations[..|cs|] == durations;
    }
  }

  lemma SumStep(ds: seq<nat>, i: nat)
    requires i < |ds|
    ensures Sum(ds[..i + 1]) == Sum(ds[..i]) + ds[i]
  {
    assert ds[..i + 1][..i] == ds[..i];
  }

  /** The title rule: a truthy number leads as "Chapter {n}", followed by ": {raw}" when there is a raw title; otherwise the raw title alone. */
  lemma ChapterTitleRule(e: Manifest.Entry, audioPath: string)
    ensures var raw := if Manifest.Present(e.chapterTitle) then e.chapterTitle.value else Paths.Stem(audioPath);
      var t := ChapterTitle(e, audioPath);
      && (!Manifest.Truthy(e.chapterNumber) ==> t == raw)
      && (Manifest.Truthy(e.chapterNumber) ==> StartsWith(t, "Chapter " + Manifest.Format(e.chapterNumber)))
      && (Manifest.Truthy(e.chapterNumber) && raw != [] ==> EndsWith(t, ": " + raw))
      && (Manifest.Truthy(e.chapterNumber) && raw == [] ==> t == "Chapter " + Manifest.Format(e.chapterNumber))
  {
    var raw := if Manifest.Present(e.chapterTitle) then e.chapterTitle.value else Paths.Stem(audioPath);
    var head := "Chapter " + Manifest.Format(e.chapterNumber);
    if Manifest.Truthy(e.chapterNumber) && raw != [] {
      var t := head + ": " + raw;
      assert t[..|head|] == head;
      assert t[|t| - |": " + raw|..] == ": " + raw;
    }
  }

  /** The artist lines appear exactly when an author is given, and carry it escaped. */
  lemma HeaderArtist(bookTitle: string, author: Option<string>)
    ensures var h := HeaderLines(bookTitle, author);
      && (Manifest.Present(author) <==> |h| == 4)
      && h[..2] == [";FFMETADATA1", "title=" + Escape(bookTitle)]
      && (Manifest.Present(author) ==> h[2] == "artist=" + Escape(author.value) && h[3] == "album_artist=" + Escape(author.value))
  {
  }

  /** Every line of the chapters file stays on its line: the file splits back into its lines. */
  lemma FfmetadataLines(bookTitle: string, author: Option<string>, cs: seq<Chapter>)
    ensures var lines := HeaderLines(bookTitle, author) + RenderChapters(cs);
      Split(Join("\n", lines) + "\n", "\n") == lines + [""]
  {
    var lines := HeaderLines(bookTitle, author) + RenderChapters(cs);
    HeaderNoNewline(bookTitle, author);
    RenderNoNewline(cs);
    forall k | 0 <= k < |lines| ensures Lacks(lines[k], '\n') {
      var h := HeaderLines(bookTitle, author);
      if k >= |h| { assert lines[k] == RenderChapters(cs)[k - |h|]; }
    }
    LinesRoundTrip(lines);
  }

  lemma KeyValueNoNewline(key: string, v: string)
    requires Lacks(key, '\n')
    ensures Lacks(key + Escape(v), '\n')
  {
    EscapeNoNewline(v);
    var e := Escape(v);
    forall i | 0 <= i < |key + e| ensures (key + e)[i] != '\n' {
      if i >= |key| { assert (key + e)[i] == e[i - |key|]; }
    }
  }

  lemma HeaderNoNewline(bookTitle: string, author: Option<string>)
    ensures forall k :: 0 <= k < |HeaderLines(bookTitle, author)| ==> Lacks(HeaderLines(bookTitle, author)[k], '\n')
  {
    KeyValueNoNewline("title=", bookTitle);
    if Manifest.Present(author) {
      KeyValueNoNewline("artist=", author.value);
      KeyValueNoNewline("album_artist=", author.value);
    }
  }

  lemma DigitsNoNewline(key: string, n: nat)
    requires Lacks(key, '\n')
    ensures Lacks(key + NatToString(n), '\n')
  {
    NatToStringRoundTrip(n);
    var d := NatToString(n);
    forall i | 0 <= i < |key + d| ensures (key + d)[i] != '\n' {
      if i >= |key| { assert (key + d)[i] == d[i - |key|]; }
    }
  }

  lemma ChapterNoNewline(c: Chapter)
    ensures forall k :: 0 <= k < |ChapterLines(c)| ==> Lacks(ChapterLines(c)[k], '\n')
  {
    DigitsNoNewline("START=", c.start);
    DigitsNoNewline("END=", c.end);
    KeyValueNoNewline("title=", c.title);
  }

  lemma {:induction false} RenderNoNewline(cs: seq<Chapter>)
    ensures forall k :: 0 <= k < |RenderChapters(cs)| ==> Lacks(RenderChapters(cs)[k], '\n')
    decreases |cs|
  {
    if cs != [] {
      var init := RenderChapters(cs[..|cs| - 1]);
      var last := ChapterLines(cs[|cs| - 1]);
      RenderNoNewline(cs[..|cs| - 1]);
      ChapterNoNewline(cs[|cs| - 1]);
      forall k | 0 <= k < |init + last| ensures Lacks((init + last)[k], '\n') {
        if k < |init| { assert (init + last)[k] == init[k]; } else { assert (init + last)[k] == last[k - |init|]; }
      }
    }
  }
}

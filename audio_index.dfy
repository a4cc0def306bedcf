/**
 * `_index_audio_files`: the audio directory's files, visited in sorted
 * order, indexed by their leading chapter number and by their normalised
 * title.  Both indices keep the first file that claims a key.
 */
module AudioIndex {
  import opened Wrappers
  import opened Strings
  import Paths
  import AudioNames

  /** One entry of the audio directory: its path (under the directory) and whether it is a regular file. */
  datatype DirEntry = DirEntry(path: string, isFile: bool)

  /** The suffixes that count as audio, compared after lower-casing. */
  const AudioSuffixes: set<string> := {".m4a", ".m4b", ".mp3", ".aac"}

  /**
   * The separator class `[.\-â€“:_)]` of the stem pattern, character by
   * character: the en dash it was meant to hold appears as the three
   * characters of its mis-decoded UTF-8 bytes, so each of them counts and
   * the en dash itself does not.
   */
  const Separators: set<char> := {'.', '-', 'â', '€', '“', ':', '_', ')'}

  predicate IsAudioFile(e: DirEntry) {
    e.isFile && ToLower(Paths.Suffix(e.path)) in AudioSuffixes
  }

  // ---------------------------------------------------------------------
  // The stem pattern `^\s*(\d+)\s*[sep]\s*(.*)$`

  datatype StemMatch = NoMatch | Numbered(number: nat, titlePart: string)

  /**
   * What `\s*(.*)` captures as its group: after the leading whitespace,
   * everything but a single final newline (which `$` may stand before).
   */
  function LineGroup(x: string): string {
    var y := LStrip(x);
    if y != [] && y[|y| - 1] == '\n' then y[..|y| - 1] else y
  }

  /** `\s*(.*)$` matches the rest: `.` never crosses a newline. */
  predicate LineTail(x: string) {
    NoNewline(LineGroup(x))
  }

  predicate NoNewline(s: string) {
    forall i :: 0 <= i < |s| ==> s[i] != '\n'
  }

  /**
   * `re.match` of the stem pattern, with `match.group(2).strip()` as the
   * title part.  Neither `\s*` nor `\d+` can give characters back to help
   * the match, since a digit is neither whitespace nor a separator.
   */
  function MatchStem(stem: string): StemMatch {
    var a := LStrip(stem);
    var d := DigitRun(a);
    if d == 0 then NoMatch else MatchSeparator(DigitsValue(a[..d]), LStrip(a[d..]))
  }

  /** The pattern after the digits and the whitespace that follows them. */
  function MatchSeparator(number: nat, b: string): StemMatch {
    if b == [] || b[0] !in Separators || !LineTail(b[1..]) then NoMatch
    else Numbered(number, Strip(LineGroup(b[1..])))
  }

  /** The pattern read as a decomposition of the stem. */
  predicate MatchesAs(stem: string, lead: string, digits: string, gap: string, sep: char, tail: string) {
    && stem == lead + (digits + (gap + ([sep] + tail)))
    && AllSpace(lead) && IsDigits(digits) && AllSpace(gap)
    && sep in Separators && LineTail(tail)
  }

  /** Every decomposition the pattern allows gives the match `MatchStem` reports. */
  lemma MatchStemComplete(stem: string, lead: string, digits: string, gap: string, sep: char, tail: string)
    requires MatchesAs(stem, lead, digits, gap, sep, tail)
    ensures MatchStem(stem) == Numbered(DigitsValue(digits), Strip(LineGroup(tail)))
  {
    var b := [sep] + tail;
    var a := digits + (gap + b);
    assert LStrip(stem) == a by {
      LeadStripped(lead, digits, gap + b);
    }
    var d := |digits|;
    assert DigitRun(a) == d && a[..d] == digits && a[d..] == gap + b by {
      DigitsThenGap(digits, gap, b);
    }
    assert MatchStem(stem) == MatchSeparator(DigitsValue(digits), LStrip(gap + b));
    var b' := LStrip(gap + b);
    assert b' != [] && b'[0] == sep && b'[1..] == tail by {
      GapStripped(gap, sep, tail);
    }
  }

  lemma LeadStripped(lead: string, digits: string, rest: string)
    requires AllSpace(lead) && IsDigits(digits)
    ensures LStrip(lead + (digits + rest)) == digits + rest
  {
    var a := digits + rest;
    LStripSpaces(lead, a);
    assert a[0] == digits[0];
  }

  lemma DigitsThenGap(digits: string, gap: string, b: string)
    requires IsDigits(digits) && AllSpace(gap) && b != [] && b[0] in Separators
    ensures var a := digits + (gap + b);
      DigitRun(a) == |digits| && a[..|digits|] == digits && a[|digits|..] == gap + b
  {
    var rest := gap + b;
    assert !IsDigit(rest[0]) by {
      if gap != [] { assert rest[0] == gap[0]; } else { assert rest[0] == b[0]; }
    }
    DigitRunOf(digits, rest);
    var a := digits + rest;
    assert a[..|digits|] == digits && a[|digits|..] == rest;
  }

  lemma GapStripped(gap: string, sep: char, tail: string)
    requires AllSpace(gap) && sep in Separators
    ensures var b := LStrip(gap + ([sep] + tail)); b != [] && b[0] == sep && b[1..] == tail
  {
    var b := [sep] + tail;
    LStripSpaces(gap, b);
    assert LStrip(b) == b;
    assert b[1..] == tail;
  }

  /** A match always comes from such a decomposition. */
  lemma MatchStemSound(stem: string)
    requires MatchStem(stem).Numbered?
    ensures exists lead, digits, gap, sep, tail :: MatchesAs(stem, lead, digits, gap, sep, tail)
  {
    var a := LStrip(stem);
    var b := SeparatorPart(stem);
    assert DigitRun(a) > 0 && MatchSeparator(DigitsValue(DigitsPart(stem)), b).Numbered?;
    assert b != [] && b[0] in Separators && LineTail(b[1..]) by {
      SeparatorFacts(DigitsValue(DigitsPart(stem)), b);
    }
    assert IsDigits(DigitsPart(stem));
    assert AllSpace(LeadPart(stem)) && AllSpace(GapPart(stem)) by {
      LeadIsSpace(stem);
      LeadIsSpace(AfterDigits(stem));
    }
    assert stem == LeadPart(stem) + (DigitsPart(stem) + (GapPart(stem) + ([b[0]] + b[1..]))) by {
      PiecesJoin(stem);
      Rejoin(stem, LeadPart(stem), DigitsPart(stem), GapPart(stem), b);
    }
    assert MatchesAs(stem, LeadPart(stem), DigitsPart(stem), GapPart(stem), b[0], b[1..]);
  }

  /** The pieces `MatchStem` reads: the leading whitespace, the digit run, the whitespace after it, and the rest from the separator on. */
  function LeadPart(stem: string): string {
    stem[..|stem| - |LStrip(stem)|]
  }

  function DigitsPart(stem: string): string {
    var a := LStrip(stem);
    a[..DigitRun(a)]
  }

  function AfterDigits(stem: string): string {
    var a := LStrip(stem);
    a[DigitRun(a)..]
  }

  function GapPart(stem: string): string {
    LeadPart(AfterDigits(stem))
  }

  function SeparatorPart(stem: string): string {
    LStrip(AfterDigits(stem))
  }

  lemma SeparatorFacts(number: nat, b: string)
    requires MatchSeparator(number, b).Numbered?
    ensures b != [] && b[0] in Separators && LineTail(b[1..])
  {
  }

  lemma LeadIsSpace(s: string)
    ensures AllSpace(LeadPart(s))
  {
  }

  lemma LeadJoin(s: string)
    ensures s == LeadPart(s) + LStrip(s)
  {
    SuffixJoin(s, LStrip(s));
  }

  lemma SuffixJoin(s: string, r: string)
    requires |r| <= |s| && r == s[|s| - |r|..]
    ensures s == s[..|s| - |r|] + r
  {
  }

  lemma Rejoin(stem: string, lead: string, digits: string, gap: string, b: string)
    requires b != [] && stem == lead + (digits + (gap + b))
    ensures stem == lead + (digits + (gap + ([b[0]] + b[1..])))
  {
    assert b == [b[0]] + b[1..];
  }

  lemma PiecesJoin(stem: string)
    ensures stem == LeadPart(stem) + (DigitsPart(stem) + (GapPart(stem) + SeparatorPart(stem)))
  {
    var a := LStrip(stem);
    var c := AfterDigits(stem);
    assert stem == LeadPart(stem) + a by { LeadJoin(stem); }
    assert a == DigitsPart(stem) + c;
    assert c == GapPart(stem) + SeparatorPart(stem) by { LeadJoin(c); }
  }

  /** A bare number such as "12" is not a numbered stem: it is left to the title index. */
  lemma BareNumberIsTitle(stem: string)
    requires AllDigits(stem)
    ensures MatchStem(stem) == NoMatch
  {
    var a := LStrip(stem);
    assert a == stem by { if stem != [] { assert !IsSpace(stem[0]); } }
    assert DigitRun(a) == |a| by { DigitRunOf(a, []); assert a + [] == a; }
  }

  /** The name "{n}. {title}" the markdown stage gives an audio file reads back as number `n` and that title. */
  lemma NamedStemMatches(n: nat, title: string, stem: string)
    requires NoNewline(title) && stem == NatToString(n) + ". " + title
    ensures MatchStem(stem) == Numbered(n, Strip(title))
  {
    var digits := NatToString(n);
    var tail := " " + title;
    assert stem == [] + (digits + ([] + (['.'] + tail))) by { DotSpace(digits, title); }
    assert IsDigits(digits) && DigitsValue(digits) == n by { NatToStringRoundTrip(n); }
    assert LineGroup(tail) == LStrip(title) && LineTail(tail) by {
      LineGroupAfterSpace(title);
      NoNewlineAfterLStrip(title);
    }
    assert '.' in Separators && AllSpace([]);
    MatchStemComplete(stem, [], digits, [], '.', tail);
    assert Strip(LStrip(title)) == Strip(title) by { LStripTwice(title); }
  }

  lemma LStripTwice(s: string)
    ensures LStrip(LStrip(s)) == LStrip(s)
  {
  }

  lemma DotSpace(d: string, t: string)
    ensures d + ". " + t == d + (['.'] + (" " + t))
  {
    var l := d + ". " + t;
    var r := d + (['.'] + (" " + t));
    assert |l| == |r|;
    forall i | 0 <= i < |l| ensures l[i] == r[i] {
      if i < |d| { assert l[i] == d[i] == r[i]; }
      else if i == |d| { assert l[i] == '.' == r[i]; }
      else if i == |d| + 1 { assert l[i] == ' ' == r[i]; }
      else { assert l[i] == t[i - |d| - 2] == r[i]; }
    }
  }

  lemma NoNewlineAfterLStrip(title: string)
    requires NoNewline(title)
    ensures NoNewline(LStrip(title))
  {
    var y := LStrip(title);
    forall i | 0 <= i < |y| ensures y[i] != '\n' { assert y[i] == title[|title| - |y| + i]; }
  }

  lemma LineGroupAfterSpace(y: string)
    requires NoNewline(y)
    ensures LineGroup(" " + y) == LStrip(y)
  {
    SpaceDropped(y);
    NoNewlineAfterLStrip(y);
  }

  lemma SpaceDropped(y: string)
    ensures LStrip(" " + y) == LStrip(y)
  {
    assert (" " + y)[1..] == y;
  }

  // ---------------------------------------------------------------------
  // The two indices

  /** `by_number.setdefault(number, path)` for a file that has a number. */
  function NumberKey(e: DirEntry): Option<int> {
    if !IsAudioFile(e) then None
    else
      match MatchStem(Paths.Stem(e.path))
      case Numbered(n, _) => Some(n)
      case NoMatch => None
  }

  /** The part of the stem that is matched by title: the text after the number, or the whole stem. */
  function TitlePart(e: DirEntry): string {
    var stem := Paths.Stem(e.path);
    match MatchStem(stem)
    case Numbered(_, t) => t
    case NoMatch => stem
  }

  /** `by_title.setdefault(_normalize_title(title_part), path)` when the title part is not empty. */
  function TitleKey(e: DirEntry): Option<string> {
    if !IsAudioFile(e) || TitlePart(e) == [] then None
    else Some(AudioNames.NormalizeTitle(TitlePart(e)))
  }

  /** `m.setdefault(k, v)` for an optional key: an existing key keeps its value. */
  function SetDefault<K>(m: map<K, string>, k: Option<K>, v: string): map<K, string> {
    if k.Some? && k.value !in m then m[k.value := v] else m
  }

  /** A map filled by `setdefault` from a sequence of (key, value) claims, in order. */
  function FirstWins<K>(claims: seq<(Option<K>, string)>): map<K, string> {
    if claims == [] then map[]
    else
      var last := claims[|claims| - 1];
      SetDefault(FirstWins(claims[..|claims| - 1]), last.0, last.1)
  }

  function NumberClaims(listing: seq<DirEntry>): (cs: seq<(Option<int>, string)>)
    ensures |cs| == |listing|
  {
    seq(|listing|, i requires 0 <= i < |listing| => (NumberKey(listing[i]), listing[i].path))
  }

  function TitleClaims(listing: seq<DirEntry>): (cs: seq<(Option<string>, string)>)
    ensures |cs| == |listing|
  {
    seq(|listing|, i requires 0 <= i < |listing| => (TitleKey(listing[i]), listing[i].path))
  }

  /** What the loop of `_index_audio_files` fills in, for both indices. */
  method IndexAudioFiles(dirExists: bool, listing: seq<DirEntry>)
    returns (byNumber: map<int, string>, byTitle: map<string, string>)
    ensures !dirExists ==> byNumber == map[] && byTitle == map[]
    ensures dirExists ==> byNumber == FirstWins(NumberClaims(listing))
    ensures dirExists ==> byTitle == FirstWins(TitleClaims(listing))
  {
    byNumber := map[];
    byTitle := map[];
    if !dirExists {
      return;
    }
    for i := 0 to |listing|
      invariant byNumber == FirstWins(NumberClaims(listing[..i]))
      invariant byTitle == FirstWins(TitleClaims(listing[..i]))
    {
      ClaimsStep(listing, i);
      var entry := listing[i];
      if !entry.isFile {
        continue;
      }
      if ToLower(Paths.Suffix(entry.path)) !in AudioSuffixes {
        continue;
      }
      var stem := Paths.Stem(entry.path);
      var m := MatchStem(stem);
      var titlePart: string;
      if m.Numbered? {
        if m.number !in byNumber {
          byNumber := byNumber[m.number := entry.path];
        }
        titlePart := m.titlePart;
      } else {
        titlePart := stem;
      }
      if titlePart != [] {
        var key := AudioNames.NormalizeTitle(titlePart);
        if key !in byTitle {
          byTitle := byTitle[key := entry.path];
        }
      }
    }
    assert listing[..|listing|] == listing;
  }

  lemma ClaimsStep(listing: seq<DirEntry>, i: nat)
    requires i < |listing|
    ensures FirstWins(NumberClaims(listing[..i + 1])) ==
      SetDefault(FirstWins(NumberClaims(listing[..i])), NumberKey(listing[i]), listing[i].path)
    ensures FirstWins(TitleClaims(listing[..i + 1])) ==
      SetDefault(FirstWins(TitleClaims(listing[..i])), TitleKey(listing[i]), listing[i].path)
  {
    var l := listing[..i + 1];
    assert l[..i] == listing[..i];
    assert NumberClaims(l)[..i] == NumberClaims(listing[..i]);
    assert TitleClaims(l)[..i] == TitleClaims(listing[..i]);
  }

  // ---------------------------------------------------------------------
  // First wins

  /** A key is indexed exactly when some claim names it. */
  lemma {:induction false} FirstWinsKeys<K>(claims: seq<(Option<K>, string)>, k: K)
    ensures k in FirstWins(claims) <==> exists i :: 0 <= i < |claims| && claims[i].0 == Some(k)
    decreases |claims|
  {
    if claims != [] {
      var n := |claims| - 1;
      var init := claims[..n];
      FirstWinsKeys(init, k);
      if k in FirstWins(init) {
        var i :| 0 <= i < |init| && init[i].0 == Some(k);
        assert claims[i] == init[i];
      }
      if exists i :: 0 <= i < |claims| && claims[i].0 == Some(k) {
        var i :| 0 <= i < |claims| && claims[i].0 == Some(k);
        if i < n { assert init[i] == claims[i]; }
      }
    }
  }

  /** An indexed key holds the value of the first claim that names it. */
  lemma {:induction false} FirstWinsValue<K>(claims: seq<(Option<K>, string)>, i: nat, k: K)
    requires i < |claims| && claims[i].0 == Some(k)
    requires forall j :: 0 <= j < i ==> claims[j].0 != Some(k)
    ensures k in FirstWins(claims) && FirstWins(claims)[k] == claims[i].1
    decreases |claims|
  {
    var n := |claims| - 1;
    var init := claims[..n];
    if i < n {
      forall j | 0 <= j < i ensures init[j].0 != Some(k) { assert init[j] == claims[j]; }
      assert init[i] == claims[i];
      FirstWinsValue(init, i, k);
    } else {
      FirstWinsKeys(init, k);
      forall j | 0 <= j < |init| ensures init[j].0 != Some(k) { assert init[j] == claims[j]; }
      assert k !in FirstWins(init);
    }
  }

  /** `by_number` holds a number exactly when an audio file's stem carries it, and then the first such file. */
  lemma ByNumberFirstWins(listing: seq<DirEntry>, i: nat, n: int)
    requires i < |listing| && NumberKey(listing[i]) == Some(n)
    requires forall j :: 0 <= j < i ==> NumberKey(listing[j]) != Some(n)
    ensures n in FirstWins(NumberClaims(listing))
    ensures FirstWins(NumberClaims(listing))[n] == listing[i].path
  {
    var cs := NumberClaims(listing);
    forall j | 0 <= j < i ensures cs[j].0 != Some(n) { assert cs[j].0 == NumberKey(listing[j]); }
    assert cs[i] == (NumberKey(listing[i]), listing[i].path);
    FirstWinsValue(cs, i, n);
  }

  /** Every key of `by_number` comes from some audio file in the listing. */
  lemma ByNumberKeys(listing: seq<DirEntry>, n: int)
    ensures n in FirstWins(NumberClaims(listing)) <==>
      exists i :: 0 <= i < |listing| && NumberKey(listing[i]) == Some(n)
  {
    var cs := NumberClaims(listing);
    FirstWinsKeys(cs, n);
    assert forall i :: 0 <= i < |listing| ==> cs[i].0 == NumberKey(listing[i]);
  }

  /** `by_title` keeps, for each normalised title, the first audio file that has it. */
  lemma ByTitleFirstWins(listing: seq<DirEntry>, i: nat, t: string)
    requires i < |listing| && TitleKey(listing[i]) == Some(t)
    requires forall j :: 0 <= j < i ==> TitleKey(listing[j]) != Some(t)
    ensures t in FirstWins(TitleClaims(listing))
    ensures FirstWins(TitleClaims(listing))[t] == listing[i].path
  {
    var cs := TitleClaims(listing);
    forall j | 0 <= j < i ensures cs[j].0 != Some(t) { assert cs[j].0 == TitleKey(listing[j]); }
    assert cs[i] == (TitleKey(listing[i]), listing[i].path);
    FirstWinsValue(cs, i, t);
  }

  /** Every key of `by_title` comes from some audio file in the listing. */
  lemma ByTitleKeys(listing: seq<DirEntry>, t: string)
    ensures t in FirstWins(TitleClaims(listing)) <==>
      exists i :: 0 <= i < |listing| && TitleKey(listing[i]) == Some(t)
  {
    var cs := TitleClaims(listing);
    FirstWinsKeys(cs, t);
    assert forall i :: 0 <= i < |listing| ==> cs[i].0 == TitleKey(listing[i]);
  }

  /** Files that are not audio files claim no key in either index. */
  lemma NonAudioIgnored(e: DirEntry)
    requires !IsAudioFile(e)
    ensures NumberKey(e) == None && TitleKey(e) == None
  {
  }

  /** A file named "{n}. {title}.m4a" in the audio directory is indexed under `n`, and under its title when that is not blank. */
  lemma NamedFileKeys(root: string, n: nat, title: string)
    requires NoNewline(title) && '/' !in title
    ensures var e := DirEntry(Paths.Child(root, NatToString(n) + ". " + title + ".m4a"), true);
      && NumberKey(e) == Some(n)
      && TitleKey(e) == (if Strip(title) == [] then None else Some(AudioNames.NormalizeTitle(Strip(title))))
  {
    var stem := NatToString(n) + ". " + title;
    var e := DirEntry(Paths.Child(root, stem + ".m4a"), true);
    assert '/' !in stem && stem != [] by { NamedStemNoSlash(n, title, stem); }
    assert Paths.Stem(e.path) == stem && Paths.Suffix(e.path) == ".m4a" by {
      M4aIsSuffix();
      Paths.ChildStemSuffix(root, stem, ".m4a");
    }
    assert IsAudioFile(e) by { M4aIsAudio(); }
    assert MatchStem(stem) == Numbered(n, Strip(title)) by { NamedStemMatches(n, title, stem); }
    assert TitlePart(e) == Strip(title);
  }

  lemma M4aIsSuffix()
    ensures |".m4a"| >= 2 && ".m4a"[0] == '.' && '.' !in ".m4a"[1..] && '/' !in ".m4a"
  {
    assert ".m4a"[1..] == "m4a";
  }

  lemma M4aIsAudio()
    ensures ToLower(".m4a") in AudioSuffixes
  {
    assert ToLower(".m4a") == ".m4a";
  }

  lemma NamedStemNoSlash(n: nat, title: string, stem: string)
    requires '/' !in title && stem == NatToString(n) + ". " + title
    ensures '/' !in stem && stem != []
  {
    var d := NatToString(n);
    assert forall i :: 0 <= i < |d| ==> IsDigit(d[i]) by { NatToStringRoundTrip(n); }
    forall i | 0 <= i < |stem| ensures stem[i] != '/' {
      if i < |d| { assert stem[i] == d[i]; }
      else if i >= |d| + 2 { assert stem[i] == title[i - |d| - 2]; }
    }
  }
}

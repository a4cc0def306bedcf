/**
 * How the audiobook builder reads audio file names: the title normaliser
 * used for fuzzy matching, the humaniser that turns a book's storage stem
 * into a display title, and the two-index audio-file indexer.
 */
module AudioNames {
  import opened Wrappers
  import opened Strings
  import Paths

  // ---------------------------------------------------------------------
  // Runs of letters and digits

  /** The longest prefix of letters and digits. */
  function TakeAlnum(s: string): (w: string)
    ensures |w| <= |s| && w == s[..|w|]
    ensures forall i :: 0 <= i < |w| ==> IsAlnum(w[i])
    ensures |w| < |s| ==> !IsAlnum(s[|w|])
  {
    if s != [] && IsAlnum(s[0]) then [s[0]] + TakeAlnum(s[1..]) else []
  }

  /** What is left after dropping the longest prefix without letters or digits. */
  function DropNonAlnum(s: string): (t: string)
    ensures |t| <= |s| && t == s[|s| - |t|..]
    ensures forall i :: 0 <= i < |s| - |t| ==> !IsAlnum(s[i])
    ensures t == [] || IsAlnum(t[0])
  {
    if s != [] && !IsAlnum(s[0]) then
      var t := DropNonAlnum(s[1..]);
      DropOneMore(s, t);
      t
    else s
  }

  lemma DropOneMore(s: string, t: string)
    requires s != [] && !IsAlnum(s[0])
    requires |t| <= |s| - 1 && t == s[1..][|s| - 1 - |t|..]
    requires forall i :: 0 <= i < |s| - 1 - |t| ==> !IsAlnum(s[1..][i])
    ensures t == s[|s| - |t|..]
    ensures forall i :: 0 <= i < |s| - |t| ==> !IsAlnum(s[i])
  {
    assert s[1..][|s| - 1 - |t|..] == s[|s| - |t|..];
    forall i | 0 < i < |s| - |t| ensures !IsAlnum(s[i]) {
      assert s[i] == s[1..][i - 1];
    }
  }

  predicate AllAlnum(s: string) {
    forall i :: 0 <= i < |s| ==> IsAlnum(s[i])
  }

  /** The maximal runs of letters and digits, in order: the reference the rewrites are measured against. */
  function Tokens(s: string): (ts: seq<string>)
    ensures forall k :: 0 <= k < |ts| ==> ts[k] != [] && AllAlnum(ts[k])
    decreases |s|
  {
    var t := DropNonAlnum(s);
    if t == [] then []
    else
      var w := TakeAlnum(t);
      var rest := Tokens(t[|w|..]);
      ConsAlnum(w, rest);
      [w] + rest
  }

  lemma ConsAlnum(w: string, ts: seq<string>)
    requires w != [] && AllAlnum(w)
    requires forall k :: 0 <= k < |ts| ==> ts[k] != [] && AllAlnum(ts[k])
    ensures forall k :: 0 <= k < |[w] + ts| ==> ([w] + ts)[k] != [] && AllAlnum(([w] + ts)[k])
  {
    forall k | 0 <= k < |[w] + ts| ensures ([w] + ts)[k] != [] && AllAlnum(([w] + ts)[k]) {
      if k > 0 { assert ([w] + ts)[k] == ts[k - 1]; }
    }
  }

  /** `re.sub(r"[^a-zA-Z0-9]+", " ", s)`: every maximal run of other characters becomes one space. */
  function CollapseNonAlnum(s: string): string
    decreases |s|
  {
    if s == [] then []
    else if !IsAlnum(s[0]) then " " + CollapseNonAlnum(DropNonAlnum(s))
    else
      var w := TakeAlnum(s);
      w + CollapseNonAlnum(s[|w|..])
  }

  /** `re.split(r"[^a-zA-Z0-9]+", s)`: the pieces between separator runs, empty ones at the ends included. */
  function SplitNonAlnum(s: string): (parts: seq<string>)
    ensures |parts| >= 1
    decreases |s|
  {
    var w := TakeAlnum(s);
    var r := s[|w|..];
    if r == [] then [w] else [w] + SplitNonAlnum(DropNonAlnum(r))
  }

  function NonEmpty(parts: seq<string>): seq<string> {
    if parts == [] then []
    else (if parts[0] == [] then [] else [parts[0]]) + NonEmpty(parts[1..])
  }

  // ---------------------------------------------------------------------
  // `_normalize_title`

  /**
   * Strip, lower-case, turn every run of characters other than `[a-z0-9]`
   * into one space, then re-join the whitespace-separated words with single
   * spaces.  After `lower()` no ASCII capital is left, so `[^a-z0-9]` is
   * exactly "not a letter or digit" here.
   */
  function NormalizeTitle(value: string): string {
    var lowered := ToLower(Strip(value));
    var cleaned := CollapseNonAlnum(lowered);
    Join(" ", Words(cleaned))
  }

  /** Characters `_normalize_title` can emit, spaced singly with none at the ends. */
  predicate WellSpaced(s: string) {
    && (forall i :: 0 <= i < |s| ==> IsLower(s[i]) || IsDigit(s[i]) || s[i] == ' ')
    && (s != [] ==> s[0] != ' ' && s[|s| - 1] != ' ')
    && (forall i :: 0 <= i < |s| - 1 ==> !DoubleSpaceAt(s, i))
  }

  predicate DoubleSpaceAt(s: string, i: nat)
    requires i + 1 < |s|
  {
    s[i] == ' ' && s[i + 1] == ' '
  }

  /** The normalised title is the letter/digit runs of the lower-cased, stripped title, joined by single spaces. */
  lemma NormalizeTitleIsJoinedTokens(value: string)
    ensures NormalizeTitle(value) == Join(" ", Tokens(ToLower(Strip(value))))
  {
    WordsOfCollapse(ToLower(Strip(value)));
  }

  /** Its output holds only `[a-z0-9]` and single inner spaces. */
  lemma NormalizeTitleWellSpaced(value: string)
    ensures WellSpaced(NormalizeTitle(value))
  {
    var lowered := ToLower(Strip(value));
    NormalizeTitleIsJoinedTokens(value);
    TokensOfLower(Strip(value));
    JoinTokensWellSpaced(Tokens(lowered));
  }

  /** Normalising twice is normalising once. */
  lemma NormalizeTitleIdempotent(value: string)
    ensures NormalizeTitle(NormalizeTitle(value)) == NormalizeTitle(value)
  {
    var n := NormalizeTitle(value);
    NormalizeTitleWellSpaced(value);
    WellSpacedFixed(n);
  }

  /** A well-spaced text normalises to itself. */
  lemma WellSpacedFixed(n: string)
    requires WellSpaced(n)
    ensures NormalizeTitle(n) == n
  {
    assert LStrip(n) == n;
    assert RStrip(n) == n;
    assert ToLower(n) == n;
    NormalizeTitleIsJoinedTokens(n);
    WellSpacedTokens(n);
  }

  // ---------------------------------------------------------------------
  // Lemmas about runs

  lemma {:induction false} WordsOfCollapse(s: string)
    ensures Words(CollapseNonAlnum(s)) == Tokens(s)
    decreases |s|
  {
    if s == [] {
    } else if !IsAlnum(s[0]) {
      var t := DropNonAlnum(s);
      WordsOfCollapse(t);
      CollapseFromRun(t);
      WordsAfterSpace(CollapseNonAlnum(t));
      assert Tokens(s) == Tokens(t) by { TokensSkip(s); }
    } else {
      var w := TakeAlnum(s);
      var rest := s[|w|..];
      WordsOfCollapse(rest);
      assert DropNonAlnum(s) == s;
      CollapseStartsWithSpace(rest);
      WordsWordThen(w, CollapseNonAlnum(rest));
    }
  }

  /** The collapse of a text that starts with a letter or digit starts with one too. */
  lemma CollapseFromRun(t: string)
    requires t != [] ==> IsAlnum(t[0])
    ensures CollapseNonAlnum(t) != [] ==> !IsSpace(CollapseNonAlnum(t)[0])
  {
    if t != [] {
      var w := TakeAlnum(t);
      assert w != [] && w[0] == t[0];
    }
  }

  /** After a run of letters and digits the collapse continues, if at all, with a space. */
  lemma CollapseStartsWithSpace(rest: string)
    requires rest != [] ==> !IsAlnum(rest[0])
    ensures CollapseNonAlnum(rest) == [] || CollapseNonAlnum(rest)[0] == ' '
  {
  }

  lemma TokensSkip(s: string)
    ensures Tokens(s) == Tokens(DropNonAlnum(s))
  {
    var t := DropNonAlnum(s);
    assert DropNonAlnum(t) == t;
  }

  lemma WordsAfterSpace(x: string)
    requires x != [] ==> !IsSpace(x[0])
    ensures Words(" " + x) == Words(x)
  {
    var y := " " + x;
    assert y[1..] == x;
    assert LStrip(y) == LStrip(x);
    assert LStrip(x) == x;
  }

  /** A word followed by nothing or by a space-led text is split off as the first word. */
  lemma WordsWordThen(w: string, x: string)
    requires w != [] && AllAlnum(w)
    requires x == [] || x[0] == ' '
    ensures x == [] ==> Words(w + x) == [w]
    ensures x != [] ==> Words(w + x) == [w] + Words(x)
  {
    var y := w + x;
    assert LStrip(y) == y;
    TakeNonSpaceOfWord(w, x);
    assert y[|w|..] == x;
    if x == [] {
      assert LStrip(x) == [];
    }
  }

  lemma {:induction false} TakeNonSpaceOfWord(w: string, x: string)
    requires AllAlnum(w)
    requires x == [] || IsSpace(x[0])
    ensures TakeNonSpace(w + x) == w
    decreases |w|
  {
    if w == [] {
      assert w + x == x;
    } else {
      assert (w + x)[1..] == w[1..] + x;
      TakeNonSpaceOfWord(w[1..], x);
      assert [w[0]] + w[1..] == w;
    }
  }

  predicate NoUpper(s: string) {
    forall i :: 0 <= i < |s| ==> !IsUpper(s[i])
  }

  predicate LowerAlnum(w: string) {
    forall i :: 0 <= i < |w| ==> IsLower(w[i]) || IsDigit(w[i])
  }

  /** Tokens of a lower-cased text are made of lower-case letters and digits. */
  lemma TokensOfLower(s: string)
    ensures forall k :: 0 <= k < |Tokens(ToLower(s))| ==> LowerAlnum(Tokens(ToLower(s))[k])
  {
    var l := ToLower(s);
    assert NoUpper(l);
    TokensKeepNoUpper(l);
    forall k | 0 <= k < |Tokens(l)| ensures LowerAlnum(Tokens(l)[k]) {
      var w := Tokens(l)[k];
      assert AllAlnum(w) && NoUpper(w);
    }
  }

  /** Tokens only hold characters of the text, so they inherit its lack of capitals. */
  lemma {:induction false} TokensKeepNoUpper(s: string)
    requires NoUpper(s)
    ensures forall k :: 0 <= k < |Tokens(s)| ==> NoUpper(Tokens(s)[k])
    decreases |s|
  {
    var t := DropNonAlnum(s);
    if t != [] {
      var w := TakeAlnum(t);
      var rest := t[|w|..];
      NoUpperSlice(s, |s| - |t|, |s|);
      NoUpperSlice(t, 0, |w|);
      NoUpperSlice(t, |w|, |t|);
      TokensKeepNoUpper(rest);
      TokensStep(s);
      ConsNoUpper(w, Tokens(rest));
    }
  }

  lemma ConsNoUpper(w: string, tr: seq<string>)
    requires NoUpper(w) && forall k :: 0 <= k < |tr| ==> NoUpper(tr[k])
    ensures forall k :: 0 <= k < |[w] + tr| ==> NoUpper(([w] + tr)[k])
  {
    var ts := [w] + tr;
    forall k | 0 <= k < |ts| ensures NoUpper(ts[k]) {
      if k > 0 { assert ts[k] == tr[k - 1]; }
    }
  }

  lemma NoUpperSlice(s: string, a: nat, b: nat)
    requires NoUpper(s) && a <= b <= |s|
    ensures NoUpper(s[a..b])
  {
    var x := s[a..b];
    forall i | 0 <= i < |x| ensures !IsUpper(x[i]) {
      assert x[i] == s[a + i];
    }
  }

  /** One step of `Tokens`: the first run, then the tokens of what follows it. */
  lemma TokensStep(s: string)
    requires DropNonAlnum(s) != []
    ensures var t := DropNonAlnum(s); var w := TakeAlnum(t);
      Tokens(s) == [w] + Tokens(t[|w|..])
  {
  }

  lemma {:induction false} JoinTokensWellSpaced(ts: seq<string>)
    requires forall k :: 0 <= k < |ts| ==> ts[k] != [] && LowerAlnum(ts[k])
    ensures WellSpaced(Join(" ", ts))
    decreases |ts|
  {
    if |ts| > 1 {
      JoinTokensWellSpaced(ts[1..]);
      var w := ts[0];
      var j := Join(" ", ts[1..]);
      var s := w + " " + j;
      assert Join(" ", ts) == s;
      JoinLength(ts[1..]);
      forall i | 0 <= i < |s| ensures IsLower(s[i]) || IsDigit(s[i]) || s[i] == ' ' {
        if i < |w| { assert s[i] == w[i]; }
        else if i > |w| { assert s[i] == j[i - |w| - 1]; }
      }
      forall i | 0 <= i < |s| - 1 ensures !DoubleSpaceAt(s, i) {
        if i < |w| { assert s[i] == w[i]; }
        else if i == |w| { assert s[i + 1] == j[0]; }
        else {
          assert s[i] == j[i - |w| - 1] && s[i + 1] == j[i - |w|];
          assert !DoubleSpaceAt(j, i - |w| - 1);
        }
      }
      assert s[0] == w[0];
      assert s[|s| - 1] == j[|j| - 1];
    } else if |ts| == 1 {
      assert Join(" ", ts) == ts[0];
    }
  }

  lemma JoinLength(ts: seq<string>)
    requires |ts| >= 1 && forall k :: 0 <= k < |ts| ==> ts[k] != []
    ensures |Join(" ", ts)| >= |ts[0]| > 0
  {
  }

  /** The tokens of a well-spaced text are its space-separated words, and joining them gives it back. */
  lemma {:induction false} WellSpacedTokens(n: string)
    requires WellSpaced(n)
    ensures Join(" ", Tokens(n)) == n
    decreases |n|
  {
    if n != [] {
      var w := TakeAlnum(n);
      if |w| == |n| {
        assert Tokens(n) == [n] by { WellSpacedOneWord(n); }
      } else {
        var r := n[|w| + 1..];
        WellSpacedStep(n);
        WellSpacedTokens(r);
        JoinFront(w, Tokens(r));
        Reassemble(n, |w|);
      }
    }
  }

  lemma WellSpacedOneWord(n: string)
    requires n != [] && |TakeAlnum(n)| == |n|
    ensures Tokens(n) == [n]
  {
    var w := TakeAlnum(n);
    assert w == n;
    assert IsAlnum(n[0]) by { assert w[0] == n[0]; }
    assert DropNonAlnum(n) == n;
    assert n[|w|..] == [];
    assert Tokens([]) == [];
  }

  /** A well-spaced text with a space in it: its first word, a space, and a well-spaced rest. */
  lemma WellSpacedStep(n: string)
    requires WellSpaced(n) && n != [] && |TakeAlnum(n)| < |n|
    ensures var w := TakeAlnum(n); var r := n[|w| + 1..];
      && n[|w|] == ' ' && WellSpaced(r) && Tokens(r) != [] && Tokens(n) == [w] + Tokens(r)
  {
    assert DropNonAlnum(n) == n;
    var w := TakeAlnum(n);
    var rest := n[|w|..];
    assert rest[0] == ' ';
    var r := rest[1..];
    WellSpacedAfterSpace(n, |w| + 1);
    assert n[|w| + 1..] == r;
    assert DropNonAlnum(rest) == r;
    assert Tokens(r) != [] by { assert DropNonAlnum(r) == r; }
  }

  lemma WellSpacedAfterSpace(n: string, k: nat)
    requires WellSpaced(n) && 0 < k <= |n| && n[k - 1] == ' '
    ensures k < |n| && WellSpaced(n[k..]) && n[k] != ' '
  {
    assert n[|n| - 1] != ' ';
    assert !DoubleSpaceAt(n, k - 1);
    var r := n[k..];
    assert forall i :: 0 <= i < |r| ==> r[i] == n[k + i];
    assert r[|r| - 1] == n[|n| - 1];
    forall i | 0 <= i < |r| - 1 ensures !DoubleSpaceAt(r, i) {
      assert !DoubleSpaceAt(n, k + i);
    }
  }

  lemma Reassemble(n: string, k: nat)
    requires k < |n| && n[k] == ' '
    ensures n == n[..k] + " " + n[k + 1..]
  {
    assert n[k..] == [n[k]] + n[k + 1..];
    assert n == n[..k] + n[k..];
  }

  lemma JoinFront(w: string, ts: seq<string>)
    requires ts != []
    ensures Join(" ", [w] + ts) == w + " " + Join(" ", ts)
  {
    assert ([w] + ts)[0] == w && ([w] + ts)[1..] == ts;
  }

  // ---------------------------------------------------------------------
  // `_humanize_stem`

  /** `str.title()` on ASCII: a letter is upper-cased at the start of a run of letters and lower-cased inside one. */
  function Title(s: string): string {
    seq(|s|, i requires 0 <= i < |s| => TitleChar(s, i))
  }

  function TitleChar(s: string, i: nat): char
    requires i < |s|
  {
    if !IsAlpha(s[i]) then s[i]
    else if i == 0 || !IsAlpha(s[i - 1]) then Upper(s[i])
    else Lower(s[i])
  }

  /** `str(int(part))` for an all-digit part, the part itself otherwise. */
  function Depad(part: string): string {
    if IsDigits(part) then NatToString(DigitsValue(part)) else part
  }

  function DepadAll(parts: seq<string>): (ws: seq<string>)
    ensures |ws| == |parts|
  {
    if parts == [] then [] else DepadAll(parts[..|parts| - 1]) + [Depad(parts[|parts| - 1])]
  }

  /** The words the loop of `_humanize_stem` keeps: each non-empty piece, de-padded, in order. */
  function HumanWords(parts: seq<string>): seq<string> {
    if parts == [] then []
    else
      var last := parts[|parts| - 1];
      HumanWords(parts[..|parts| - 1]) + (if last == [] then [] else [Depad(last)])
  }

  /** What `_humanize_stem` returns: the kept words joined by spaces and title-cased. */
  function HumanizeSpec(stem: string): string {
    Title(Join(" ", HumanWords(SplitNonAlnum(Strip(stem)))))
  }

  /** `_humanize_stem`: strip, split on non-alphanumerics, keep the words, join them and title-case. */
  method HumanizeStem(stem: string) returns (r: string)
    ensures r == HumanizeSpec(stem)
  {
    var parts := SplitNonAlnum(Strip(stem));
    var words := KeepWords(parts);
    r := Title(Join(" ", words));
  }

  /** The loop of `_humanize_stem`: skip empty pieces, de-pad digit pieces. */
  method KeepWords(parts: seq<string>) returns (words: seq<string>)
    ensures words == HumanWords(parts)
  {
    words := [];
    for i := 0 to |parts|
      invariant words == HumanWords(parts[..i])
    {
      HumanWordsStep(parts, i);
      if parts[i] == [] {
        continue;
      }
      if IsDigits(parts[i]) {
        words := words + [NatToString(DigitsValue(parts[i]))];
      } else {
        words := words + [parts[i]];
      }
    }
    assert parts[..|parts|] == parts;
  }

  lemma HumanWordsStep(parts: seq<string>, i: nat)
    requires i < |parts|
    ensures HumanWords(parts[..i + 1]) ==
      HumanWords(parts[..i]) + (if parts[i] == [] then [] else [Depad(parts[i])])
  {
    assert parts[..i + 1][..i] == parts[..i];
  }

  /** The kept words are the non-empty pieces, each de-padded. */
  lemma {:induction false} HumanWordsAreDepadded(parts: seq<string>)
    ensures HumanWords(parts) == DepadAll(NonEmpty(parts))
    decreases |parts|
  {
    if parts != [] {
      var init := parts[..|parts| - 1];
      var last := parts[|parts| - 1];
      HumanWordsAreDepadded(init);
      assert parts == init + [last];
      NonEmptyAppend(init, last);
      DepadAllAppend(NonEmpty(init), if last == [] then [] else [last]);
    }
  }

  lemma {:induction false} DepadAllAppend(a: seq<string>, b: seq<string>)
    ensures DepadAll(a + b) == DepadAll(a) + DepadAll(b)
    decreases |b|
  {
    if b == [] {
      assert a + b == a;
    } else {
      var c := a + b;
      var init := b[..|b| - 1];
      assert c[..|c| - 1] == a + init && c[|c| - 1] == b[|b| - 1];
      DepadAllAppend(a, init);
    }
  }

  lemma {:induction false} NonEmptyAppend(parts: seq<string>, p: string)
    ensures NonEmpty(parts + [p]) == NonEmpty(parts) + (if p == [] then [] else [p])
    decreases |parts|
  {
    if parts == [] {
      assert NonEmpty([p]) == (if p == [] then [] else [p]) + NonEmpty([]);
    } else {
      assert (parts + [p])[1..] == parts[1..] + [p];
      NonEmptyAppend(parts[1..], p);
    }
  }

  /** Dropping the empty pieces of the split leaves exactly the letter/digit runs. */
  lemma {:induction false} NonEmptySplitIsTokens(s: string)
    ensures NonEmpty(SplitNonAlnum(s)) == Tokens(s)
    decreases |s|
  {
    var w := TakeAlnum(s);
    var r := s[|w|..];
    if r == [] {
      if w != [] {
        assert DropNonAlnum(s) == s;
        assert s[|w|..] == [];
      }
    } else {
      var t := DropNonAlnum(r);
      NonEmptySplitIsTokens(t);
      assert SplitNonAlnum(s) == [w] + SplitNonAlnum(t);
      assert NonEmpty(SplitNonAlnum(s)) == (if w == [] then [] else [w]) + NonEmpty(SplitNonAlnum(t));
      TokensSkip(r);
      if w == [] {
        assert r == s;
      } else {
        assert DropNonAlnum(s) == s;
      }
    }
  }

  /** The humanised name is the stem's letter/digit runs, de-padded, spaced and title-cased. */
  lemma HumanizeIsTokens(stem: string)
    ensures HumanizeSpec(stem) == Title(Join(" ", DepadAll(Tokens(Strip(stem)))))
  {
    HumanWordsAreDepadded(SplitNonAlnum(Strip(stem)));
    NonEmptySplitIsTokens(Strip(stem));
  }

  /** A de-padded digit piece has the same value and no leading zero. */
  lemma DepadDigits(part: string)
    requires IsDigits(part)
    ensures IsDigits(Depad(part)) && DigitsValue(Depad(part)) == DigitsValue(part)
    ensures Depad(part)[0] == '0' ==> Depad(part) == "0"
  {
    var n := DigitsValue(part);
    NatToStringRoundTrip(n);
    NatToStringNoLeadingZero(n);
  }

  /** Other pieces are kept as they are. */
  lemma DepadOther(part: string)
    requires !IsDigits(part)
    ensures Depad(part) == part
  {
  }

  /** Title-casing keeps the length and changes only the case of letters. */
  lemma TitleKeepsLetters(s: string)
    ensures |Title(s)| == |s|
    ensures ToLower(Title(s)) == ToLower(s)
  {
    var t := Title(s);
    forall i | 0 <= i < |s| ensures Lower(t[i]) == Lower(s[i]) {
      assert t[i] == TitleChar(s, i);
    }
  }

  /** Title-casing twice is title-casing once. */
  lemma TitleIdempotent(s: string)
    ensures Title(Title(s)) == Title(s)
  {
    var t := Title(s);
    forall i | 0 <= i < |s| ensures IsAlpha(t[i]) == IsAlpha(s[i]) {
      assert t[i] == TitleChar(s, i);
    }
    forall i | 0 <= i < |t| ensures TitleChar(t, i) == t[i] {
      assert t[i] == TitleChar(s, i);
      if i > 0 { assert t[i - 1] == TitleChar(s, i - 1); }
    }
  }

  /** A space separates words for title-casing: each side is title-cased on its own. */
  lemma TitleSpaceJoin(a: string, b: string)
    ensures Title(a + " " + b) == Title(a) + " " + Title(b)
  {
    var s := a + " " + b;
    var l := Title(a) + " " + Title(b);
    forall i | 0 <= i < |s| ensures Title(s)[i] == l[i] {
      if i < |a| {
        assert s[i] == a[i];
        if i > 0 { assert s[i - 1] == a[i - 1]; }
        assert TitleChar(s, i) == TitleChar(a, i);
      } else if i > |a| {
        var j := i - |a| - 1;
        assert s[i] == b[j];
        if j > 0 { assert s[i - 1] == b[j - 1]; }
        assert TitleChar(s, i) == TitleChar(b, j);
      }
    }
  }

  /** A run of letters and digits is a single token. */
  lemma TokensOfRun(w: string)
    requires w != [] && AllAlnum(w)
    ensures Tokens(w) == [w]
  {
    RunIsTaken(w, []);
    assert w + [] == w;
    assert DropNonAlnum(w) == w;
  }

  /** A run followed by another character splits off as the first token. */
  lemma TokensCons(w: string, c: char, rest: string)
    requires w != [] && AllAlnum(w) && !IsAlnum(c)
    requires rest != [] && IsAlnum(rest[0])
    ensures Tokens(w + [c] + rest) == [w] + Tokens(rest)
  {
    var s := w + [c] + rest;
    RunIsTaken(w, [c] + rest);
    assert s == w + ([c] + rest);
    assert DropNonAlnum(s) == s;
    assert s[|w|..] == [c] + rest;
    assert ([c] + rest)[1..] == rest;
    assert DropNonAlnum([c] + rest) == rest;
    TokensSkip([c] + rest);
    TokensStep(s);
  }

  lemma {:induction false} RunIsTaken(w: string, x: string)
    requires AllAlnum(w) && (x == [] || !IsAlnum(x[0]))
    ensures TakeAlnum(w + x) == w
    decreases |w|
  {
    if w == [] {
      assert w + x == x;
    } else {
      assert (w + x)[1..] == w[1..] + x;
      RunIsTaken(w[1..], x);
      assert [w[0]] + w[1..] == w;
    }
  }
}

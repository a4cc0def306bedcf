/**
 * Python `str` operations on ASCII text, as the pipeline uses them:
 * whitespace stripping, lower-casing, substring tests, `replace`, `split`,
 * `join` and integer formatting.  Characters outside ASCII are never
 * letters, digits or whitespace here.
 */
module Strings {

  /** `str.isspace()` on ASCII: space, \t \n \v \f \r and the separators 0x1C-0x1F. */
  predicate IsSpace(c: char) {
    c == ' ' || (9 <= c as int <= 13) || (28 <= c as int <= 31)
  }

  predicate IsDigit(c: char) { '0' <= c <= '9' }
  predicate IsUpper(c: char) { 'A' <= c <= 'Z' }
  predicate IsLower(c: char) { 'a' <= c <= 'z' }
  predicate IsAlpha(c: char) { IsUpper(c) || IsLower(c) }
  predicate IsAlnum(c: char) { IsAlpha(c) || IsDigit(c) }

  function Lower(c: char): char {
    if IsUpper(c) then (c as int + 32) as char else c
  }

  function Upper(c: char): char {
    if IsLower(c) then (c as int - 32) as char else c
  }

  /** `str.lower()` */
  function ToLower(s: string): string {
    seq(|s|, i requires 0 <= i < |s| => Lower(s[i]))
  }

  /** `str.lstrip()`: what remains is a suffix, everything dropped is whitespace. */
  function LStrip(s: string): (r: string)
    ensures |r| <= |s| && r == s[|s| - |r|..]
    ensures forall i :: 0 <= i < |s| - |r| ==> IsSpace(s[i])
    ensures r == [] || !IsSpace(r[0])
  {
    if s != [] && IsSpace(s[0]) then LStrip(s[1..]) else s
  }

  /** `str.rstrip()`: what remains is a prefix, everything dropped is whitespace. */
  function RStrip(s: string): (r: string)
    ensures |r| <= |s| && r == s[..|r|]
    ensures forall i :: |r| <= i < |s| ==> IsSpace(s[i])
    ensures r == [] || !IsSpace(r[|r| - 1])
  {
    if s != [] && IsSpace(s[|s| - 1]) then RStrip(s[..|s| - 1]) else s
  }

  /** `str.strip()` */
  function Strip(s: string): string {
    RStrip(LStrip(s))
  }

  /** `str.lstrip(chars)`: drops the longest prefix made of characters in `cs`. */
  function LStripChars(s: string, cs: set<char>): (r: string)
    ensures |r| <= |s| && r == s[|s| - |r|..]
    ensures forall i :: 0 <= i < |s| - |r| ==> s[i] in cs
    ensures r == [] || r[0] !in cs
  {
    if s != [] && s[0] in cs then LStripChars(s[1..], cs) else s
  }

  /** `str.rstrip(chars)` */
  function RStripChars(s: string, cs: set<char>): (r: string)
    ensures |r| <= |s| && r == s[..|r|]
    ensures forall i :: |r| <= i < |s| ==> s[i] in cs
    ensures r == [] || r[|r| - 1] !in cs
  {
    if s != [] && s[|s| - 1] in cs then RStripChars(s[..|s| - 1], cs) else s
  }

  /** `sub in s` */
  predicate Contains(s: string, sub: string) {
    exists i :: 0 <= i <= |s| - |sub| && OccursAt(s, sub, i)
  }

  /** `sub` occurs in `s` starting at index `i`. */
  predicate OccursAt(s: string, sub: string, i: int) {
    0 <= i && i + |sub| <= |s| && s[i..i + |sub|] == sub
  }

  predicate StartsWith(s: string, prefix: string) {
    |prefix| <= |s| && s[..|prefix|] == prefix
  }

  /** `t` starts with `p`, ignoring ASCII case. */
  predicate StartsWithNoCase(t: string, p: string) {
    |p| <= |t| && ToLower(t[..|p|]) == ToLower(p)
  }

  predicate EndsWith(s: string, suffix: string) {
    |suffix| <= |s| && s[|s| - |suffix|..] == suffix
  }

  /** `sep.join(parts)` */
  function Join(sep: string, parts: seq<string>): string {
    if |parts| == 0 then ""
    else if |parts| == 1 then parts[0]
    else parts[0] + sep + Join(sep, parts[1..])
  }

  /** `s.split(sep)` for a non-empty separator: scans left to right, never empty. */
  function Split(s: string, sep: string): (parts: seq<string>)
    requires sep != []
    ensures |parts| >= 1
    decreases |s|
  {
    if s == [] then [""]
    else if StartsWith(s, sep) then [""] + Split(s[|sep|..], sep)
    else
      var rest := Split(s[1..], sep);
      [[s[0]] + rest[0]] + rest[1..]
  }

  /** `s.replace(pat, rep)` for a non-empty pattern: leftmost, non-overlapping. */
  function Replace(s: string, pat: string, rep: string): string
    requires pat != []
    decreases |s|
  {
    if s == [] then ""
    else if StartsWith(s, pat) then rep + Replace(s[|pat|..], pat, rep)
    else [s[0]] + Replace(s[1..], pat, rep)
  }

  /** The longest prefix without whitespace. */
  function TakeNonSpace(s: string): (w: string)
    ensures |w| <= |s| && w == s[..|w|]
    ensures forall i :: 0 <= i < |w| ==> !IsSpace(w[i])
    ensures |w| < |s| ==> IsSpace(s[|w|])
  {
    if s != [] && !IsSpace(s[0]) then [s[0]] + TakeNonSpace(s[1..]) else []
  }

  /** `s.split()`: the maximal runs of non-whitespace characters, in order. */
  function Words(s: string): (ws: seq<string>)
    ensures forall k :: 0 <= k < |ws| ==> ws[k] != [] && NoSpace(ws[k])
    decreases |s|
  {
    var t := LStrip(s);
    if t == [] then []
    else
      var w := TakeNonSpace(t);
      var rest := Words(t[|w|..]);
      ConsNoSpace(w, rest);
      [w] + rest
  }

  lemma ConsNoSpace(w: string, ws: seq<string>)
    requires w != [] && NoSpace(w)
    requires forall k :: 0 <= k < |ws| ==> ws[k] != [] && NoSpace(ws[k])
    ensures forall k :: 0 <= k < |[w] + ws| ==> ([w] + ws)[k] != [] && NoSpace(([w] + ws)[k])
  {
    forall k | 0 <= k < |[w] + ws| ensures ([w] + ws)[k] != [] && NoSpace(([w] + ws)[k]) {
      if k > 0 { assert ([w] + ws)[k] == ws[k - 1]; }
    }
  }

  predicate NoSpace(s: string) {
    forall i :: 0 <= i < |s| ==> !IsSpace(s[i])
  }

  function DigitChar(d: nat): char
    requires d < 10
  {
    ('0' as int + d) as char
  }

  /** `str(n)` for a natural number. */
  function NatToString(n: nat): string
    decreases n
  {
    if n < 10 then [DigitChar(n)] else NatToString(n / 10) + [DigitChar(n % 10)]
  }

  /** `str(i)` */
  function IntToString(i: int): string {
    if i < 0 then "-" + NatToString(-i) else NatToString(i)
  }

  predicate AllDigits(s: string) {
    forall i :: 0 <= i < |s| ==> IsDigit(s[i])
  }

  /** `str.isdigit()` on ASCII. */
  predicate IsDigits(s: string) {
    |s| > 0 && AllDigits(s)
  }

  /** `int(s)` for a run of ASCII digits. */
  function DigitsValue(s: string): nat
    requires AllDigits(s)
  {
    if s == [] then 0 else DigitsValue(s[..|s| - 1]) * 10 + (s[|s| - 1] as int - '0' as int)
  }

  /** The number of leading digits of `s`. */
  function DigitRun(s: string): (n: nat)
    ensures n <= |s| && AllDigits(s[..n])
    ensures n < |s| ==> !IsDigit(s[n])
  {
    if s != [] && IsDigit(s[0]) then 1 + DigitRun(s[1..]) else 0
  }

  predicate AllSpace(s: string) {
    forall i :: 0 <= i < |s| ==> IsSpace(s[i])
  }

  /** The number of leading whitespace characters. */
  function SpaceRun(t: string): (w: nat)
    ensures w <= |t| && AllSpace(t[..w])
    ensures w < |t| ==> !IsSpace(t[w])
  {
    if t != [] && IsSpace(t[0]) then
      var w := 1 + SpaceRun(t[1..]);
      assert t[..w] == [t[0]] + t[1..][..w - 1];
      w
    else 0
  }

  /** The length of the longest prefix of `t` without `c`. */
  function UpTo(t: string, c: char): (n: nat)
    ensures n <= |t| && Lacks(t[..n], c)
    ensures n < |t| ==> t[n] == c
  {
    if t == [] || t[0] == c then 0
    else
      var n := 1 + UpTo(t[1..], c);
      assert t[..n] == [t[0]] + t[1..][..n - 1];
      n
  }

  // ---------------------------------------------------------------------
  // Lemmas

  /** The digit run ends at the first non-digit. */
  lemma DigitRunUnique(t: string, j: nat)
    requires j < |t| && AllDigits(t[..j]) && !IsDigit(t[j])
    ensures DigitRun(t) == j
  {
  }

  /** A digit run followed by nothing or by a non-digit is taken whole. */
  lemma {:induction false} DigitRunOf(d: string, x: string)
    requires AllDigits(d) && (x == [] || !IsDigit(x[0]))
    ensures DigitRun(d + x) == |d|
    decreases |d|
  {
    if d == [] {
      assert d + x == x;
    } else {
      assert (d + x)[1..] == d[1..] + x;
      DigitRunOf(d[1..], x);
    }
  }

  /** Leading whitespace is what `lstrip` removes, however it got there. */
  lemma {:induction false} LStripSpaces(sp: string, x: string)
    requires AllSpace(sp)
    ensures LStrip(sp + x) == LStrip(x)
    decreases |sp|
  {
    if sp != [] {
      assert (sp + x)[1..] == sp[1..] + x;
      LStripSpaces(sp[1..], x);
    } else {
      assert sp + x == x;
    }
  }

  /** Leading whitespace makes no difference to `strip`. */
  lemma StripAfterSpaces(sp: string, x: string)
    requires AllSpace(sp)
    ensures Strip(sp + x) == Strip(x)
  {
    LStripSpaces(sp, x);
  }

  /** The longest prefix without whitespace ends at the first whitespace character. */
  lemma {:induction false} TakeNonSpaceUpTo(s: string, k: nat)
    requires k < |s| && NoSpace(s[..k]) && IsSpace(s[k])
    ensures TakeNonSpace(s) == s[..k]
    decreases k
  {
    if k > 0 {
      assert s[..k][0] == s[0];
      assert s[1..][..k - 1] == s[..k][1..];
      TakeNonSpaceUpTo(s[1..], k - 1);
      assert s[..k] == [s[0]] + s[1..][..k - 1];
    }
  }

  /** Splitting words joined by single spaces gives the words back. */
  lemma {:induction false} WordsOfJoin(ws: seq<string>)
    requires forall k :: 0 <= k < |ws| ==> ws[k] != [] && NoSpace(ws[k])
    ensures Words(Join(" ", ws)) == ws
    decreases |ws|
  {
    if |ws| == 1 {
      WordsOne(ws[0]);
    } else if |ws| > 1 {
      var tail := ws[1..];
      var rest := Join(" ", tail);
      WordsOfJoin(tail);
      WordsCons(ws[0], rest);
      calc {
        Words(Join(" ", ws));
        Words(ws[0] + " " + rest);
        [ws[0]] + Words(rest);
        [ws[0]] + tail;
        ws;
      }
    }
  }

  lemma WordsOne(w: string)
    requires w != [] && NoSpace(w)
    ensures Words(w) == [w]
  {
    assert LStrip(w) == w by { assert !IsSpace(w[0]); }
    TakeNonSpaceAll(w);
    assert w[|w|..] == [];
    assert Words([]) == [];
  }

  lemma {:induction false} TakeNonSpaceAll(w: string)
    requires NoSpace(w)
    ensures TakeNonSpace(w) == w
    decreases |w|
  {
    if w != [] {
      TakeNonSpaceAll(w[1..]);
    }
  }

  lemma WordsCons(w: string, rest: string)
    requires w != [] && NoSpace(w)
    ensures Words(w + " " + rest) == [w] + Words(rest)
  {
    var s := w + " " + rest;
    assert LStrip(s) == s by { assert s[0] == w[0]; }
    assert s[..|w|] == w;
    TakeNonSpaceUpTo(s, |w|);
    assert s[|w|..] == " " + rest;
    LStripSpaces(" ", rest);
    assert Words(" " + rest) == Words(rest);
  }

  lemma JoinCons(sep: string, x: string, y: string, ys: seq<string>)
    ensures Join(sep, [x + y] + ys) == x + Join(sep, [y] + ys)
  {
    if |ys| > 0 {
      assert ([x + y] + ys)[1..] == ys;
      assert ([y] + ys)[1..] == ys;
    }
  }

  lemma JoinHeadSep(sep: string, xs: seq<string>)
    requires |xs| >= 1
    ensures Join(sep, [""] + xs) == sep + Join(sep, xs)
  {
    assert ([""] + xs)[1..] == xs;
  }

  /** `s.replace(pat, rep) == rep.join(s.split(pat))`: replacing is splitting and re-joining. */
  lemma {:induction false} ReplaceIsJoinOfSplit(s: string, pat: string, rep: string)
    requires pat != []
    ensures Replace(s, pat, rep) == Join(rep, Split(s, pat))
    decreases |s|
  {
    if s == [] {
    } else if StartsWith(s, pat) {
      ReplaceIsJoinOfSplit(s[|pat|..], pat, rep);
      JoinHeadSep(rep, Split(s[|pat|..], pat));
    } else {
      ReplaceIsJoinOfSplit(s[1..], pat, rep);
      var rest := Split(s[1..], pat);
      JoinCons(rep, [s[0]], rest[0], rest[1..]);
      assert [rest[0]] + rest[1..] == rest;
    }
  }

  /** Replacing a pattern by itself changes nothing. */
  lemma {:induction false} ReplaceSelf(s: string, pat: string)
    requires pat != []
    ensures Replace(s, pat, pat) == s
    decreases |s|
  {
    if s == [] {
    } else if StartsWith(s, pat) {
      ReplaceSelf(s[|pat|..], pat);
      assert s == s[..|pat|] + s[|pat|..];
    } else {
      ReplaceSelf(s[1..], pat);
      assert s == [s[0]] + s[1..];
    }
  }

  /** `sep.join(s.split(sep)) == s`: splitting loses nothing. */
  lemma JoinOfSplit(s: string, sep: string)
    requires sep != []
    ensures Join(sep, Split(s, sep)) == s
  {
    ReplaceIsJoinOfSplit(s, sep, sep);
    ReplaceSelf(s, sep);
  }

  /** Without an occurrence of the pattern, `replace` is the identity. */
  lemma {:induction false} ReplaceAbsent(s: string, pat: string, rep: string)
    requires pat != [] && !Contains(s, pat)
    ensures Replace(s, pat, rep) == s
    decreases |s|
  {
    if s != [] {
      if StartsWith(s, pat) {
        assert OccursAt(s, pat, 0);
      }
      assert !Contains(s[1..], pat) by {
        forall i | OccursAt(s[1..], pat, i)
          ensures OccursAt(s, pat, i + 1)
        {
          assert s[1..][i..i + |pat|] == s[i + 1..i + 1 + |pat|];
        }
      }
      ReplaceAbsent(s[1..], pat, rep);
      assert s == [s[0]] + s[1..];
    }
  }

  /** Replacement with a single character produces no occurrence of it elsewhere. */
  lemma {:induction false} ReplaceRemovesChar(s: string, c: char, rep: string)
    requires c !in rep
    ensures c !in Replace(s, [c], rep)
    decreases |s|
  {
    if s != [] {
      ReplaceRemovesChar(s[1..], c, rep);
    }
  }

  /** A character in neither the text nor the replacement is not in the result. */
  lemma {:induction false} ReplaceKeepsOut(s: string, pat: string, rep: string, c: char)
    requires pat != [] && c !in s && c !in rep
    ensures c !in Replace(s, pat, rep)
    decreases |s|
  {
    if s != [] {
      if StartsWith(s, pat) {
        assert c !in s[|pat|..] by { assert forall x :: x in s[|pat|..] ==> x in s; }
        ReplaceKeepsOut(s[|pat|..], pat, rep, c);
      } else {
        assert c !in s[1..] by { assert forall x :: x in s[1..] ==> x in s; }
        ReplaceKeepsOut(s[1..], pat, rep, c);
      }
    }
  }

  lemma ReplaceCharStep(s: string, c: char, rep: string)
    requires s != []
    ensures Replace(s, [c], rep) == (if s[0] == c then rep else [s[0]]) + Replace(s[1..], [c], rep)
  {
    assert StartsWith(s, [c]) <==> s[0] == c;
  }

  /** Replacing a single character distributes over concatenation. */
  lemma {:induction false} ReplaceCharAppend(a: string, b: string, c: char, rep: string)
    ensures Replace(a + b, [c], rep) == Replace(a, [c], rep) + Replace(b, [c], rep)
    decreases |a|
  {
    if a == [] {
      assert a + b == b;
    } else {
      ReplaceCharAppend(a[1..], b, c, rep);
      var ab := a + b;
      assert ab[0] == a[0] && ab[1..] == a[1..] + b;
      ReplaceCharStep(ab, c, rep);
      ReplaceCharStep(a, c, rep);
    }
  }

  /** `str(n)` is a digit string that `int()` reads back as `n`. */
  lemma {:induction false} NatToStringRoundTrip(n: nat)
    ensures IsDigits(NatToString(n)) && DigitsValue(NatToString(n)) == n
    decreases n
  {
    if n >= 10 {
      NatToStringRoundTrip(n / 10);
      var s := NatToString(n);
      assert s[..|s| - 1] == NatToString(n / 10);
    }
  }

  /** `str(n)` has no leading zero unless n is 0. */
  lemma {:induction false} NatToStringNoLeadingZero(n: nat)
    ensures NatToString(n)[0] == '0' <==> n == 0
    decreases n
  {
    if n >= 10 {
      NatToStringNoLeadingZero(n / 10);
      assert NatToString(n)[0] == NatToString(n / 10)[0];
    }
  }

  lemma LowerIsSpace(c: char)
    ensures IsSpace(Lower(c)) <==> IsSpace(c)
  {
  }

  lemma {:induction false} LStripLower(s: string)
    ensures LStrip(ToLower(s)) == ToLower(LStrip(s))
    decreases |s|
  {
    if s != [] {
      var l := ToLower(s);
      assert l[0] == Lower(s[0]);
      LowerIsSpace(s[0]);
      if IsSpace(s[0]) {
        assert l[1..] == ToLower(s[1..]);
        LStripLower(s[1..]);
      }
    }
  }

  lemma {:induction false} RStripLower(s: string)
    ensures RStrip(ToLower(s)) == ToLower(RStrip(s))
    decreases |s|
  {
    if s != [] {
      var l := ToLower(s);
      assert l[|s| - 1] == Lower(s[|s| - 1]);
      LowerIsSpace(s[|s| - 1]);
      if IsSpace(s[|s| - 1]) {
        assert l[..|s| - 1] == ToLower(s[..|s| - 1]);
        RStripLower(s[..|s| - 1]);
      }
    }
  }

  /** A text without whitespace at either end is left alone by stripping. */
  lemma StripClean(s: string)
    requires s != [] ==> !IsSpace(s[0]) && !IsSpace(s[|s| - 1])
    ensures LStrip(s) == s && RStrip(s) == s && Strip(s) == s
  {
  }

  /** `s.strip()` is a slice of `s`, so it holds no character `s` lacks. */
  lemma StripKeepsOut(s: string, c: char)
    requires c !in s
    ensures c !in Strip(s)
  {
    var l := LStrip(s);
    var r := RStrip(l);
    forall i | 0 <= i < |r| ensures r[i] != c {
      assert r[i] == l[i] == s[|s| - |l| + i];
    }
  }

  /** Stripping twice is stripping once. */
  lemma StripIdempotent(s: string)
    ensures Strip(Strip(s)) == Strip(s)
  {
    var l := LStrip(s);
    var r := RStrip(l);
    if r != [] {
      assert r[0] == l[0];
    }
    StripClean(r);
  }

  /** Lower-casing and stripping commute. */
  lemma StripLower(s: string)
    ensures Strip(ToLower(s)) == ToLower(Strip(s))
  {
    LStripLower(s);
    RStripLower(LStrip(s));
  }

  /**
   * A needle that begins and ends with a non-whitespace character occurs in
   * `s.strip()` exactly when it occurs in `s`.
   */
  lemma StripContains(s: string, sub: string)
    requires sub != [] && !IsSpace(sub[0]) && !IsSpace(sub[|sub| - 1])
    ensures Contains(Strip(s), sub) <==> Contains(s, sub)
  {
    var l := LStrip(s);
    TrimContains(s, |s| - |l|, |s|, sub);
    assert s[|s| - |l|..|s|] == l;
    TrimContains(l, 0, |RStrip(l)|, sub);
    assert l[0..|RStrip(l)|] == RStrip(l);
  }

  /** Cutting whitespace off both ends keeps exactly the occurrences of such a needle. */
  lemma TrimContains(s: string, a: nat, b: nat, sub: string)
    requires a <= b <= |s|
    requires forall i :: 0 <= i < a ==> IsSpace(s[i])
    requires forall i :: b <= i < |s| ==> IsSpace(s[i])
    requires sub != [] && !IsSpace(sub[0]) && !IsSpace(sub[|sub| - 1])
    ensures Contains(s[a..b], sub) <==> Contains(s, sub)
  {
    if Contains(s[a..b], sub) {
      ContainsInSlice(s, a, b, sub);
    }
    if Contains(s, sub) {
      ContainsInTrim(s, a, b, sub);
    }
  }

  lemma ContainsInSlice(s: string, a: nat, b: nat, sub: string)
    requires a <= b <= |s| && Contains(s[a..b], sub)
    ensures Contains(s, sub)
  {
    var r := s[a..b];
    var i :| 0 <= i <= |r| - |sub| && OccursAt(r, sub, i);
    SliceOfSlice(s, a, b, i, i + |sub|);
    assert OccursAt(s, sub, a + i);
  }

  lemma ContainsInTrim(s: string, a: nat, b: nat, sub: string)
    requires a <= b <= |s|
    requires forall i :: 0 <= i < a ==> IsSpace(s[i])
    requires forall i :: b <= i < |s| ==> IsSpace(s[i])
    requires sub != [] && !IsSpace(sub[0]) && !IsSpace(sub[|sub| - 1])
    requires Contains(s, sub)
    ensures Contains(s[a..b], sub)
  {
    var j :| 0 <= j <= |s| - |sub| && OccursAt(s, sub, j);
    assert s[j] == s[j..j + |sub|][0] == sub[0];
    assert s[j + |sub| - 1] == s[j..j + |sub|][|sub| - 1] == sub[|sub| - 1];
    assert a <= j && j + |sub| <= b;
    SliceOfSlice(s, a, b, j - a, j - a + |sub|);
    assert OccursAt(s[a..b], sub, j - a);
  }

  lemma SliceOfSlice<T>(s: seq<T>, a: nat, b: nat, i: nat, j: nat)
    requires a <= b <= |s| && i <= j <= b - a
    ensures s[a..b][i..j] == s[a + i..a + j]
  {
    forall k | 0 <= k < j - i
      ensures s[a..b][i..j][k] == s[a + i..a + j][k]
    {
    }
  }

  // ---------------------------------------------------------------------
  // Lines: joining by a separator character and splitting again

  /** `c not in s` */
  predicate Lacks(s: string, c: char) {
    forall i :: 0 <= i < |s| ==> s[i] != c
  }

  lemma {:induction false} SplitNoSep(x: string, sep: string)
    requires sep != [] && Lacks(x, sep[0])
    ensures Split(x, sep) == [x]
    decreases |x|
  {
    if x != [] {
      assert !StartsWith(x, sep) by { assert x[0] != sep[0]; }
      SplitNoSep(x[1..], sep);
      assert [x[0]] + x[1..] == x;
    }
  }

  lemma {:induction false} SplitAtSep(x: string, rest: string, sep: string)
    requires sep != [] && Lacks(x, sep[0])
    ensures Split(x + (sep + rest), sep) == [x] + Split(rest, sep)
    decreases |x|
  {
    var s := x + (sep + rest);
    if x == [] {
      assert s == sep + rest;
      assert StartsWith(s, sep) && s[|sep|..] == rest;
    } else {
      assert !StartsWith(s, sep) by { assert s[0] == x[0]; }
      assert s[1..] == x[1..] + (sep + rest);
      SplitAtSep(x[1..], rest, sep);
      assert [x[0]] + x[1..] == x;
    }
  }

  /** Parts without the separator's first character come back from splitting their join. */
  lemma {:induction false} SplitJoin(parts: seq<string>, sep: string)
    requires sep != [] && |parts| >= 1 && forall k :: 0 <= k < |parts| ==> Lacks(parts[k], sep[0])
    ensures Split(Join(sep, parts), sep) == parts
    decreases |parts|
  {
    if |parts| == 1 {
      SplitNoSep(parts[0], sep);
    } else {
      var j := Join(sep, parts[1..]);
      assert Join(sep, parts) == parts[0] + (sep + j);
      SplitAtSep(parts[0], j, sep);
      SplitJoin(parts[1..], sep);
      assert [parts[0]] + parts[1..] == parts;
    }
  }

  /** A trailing separator is a final empty line. */
  lemma {:induction false} JoinThenSep(sep: string, parts: seq<string>)
    requires |parts| >= 1
    ensures Join(sep, parts) + sep == Join(sep, parts + [""])
    decreases |parts|
  {
    if |parts| == 1 {
      assert (parts + [""])[1..] == [""];
    } else {
      JoinThenSep(sep, parts[1..]);
      assert (parts + [""])[1..] == parts[1..] + [""];
    }
  }

  /** `"\n".join(lines) + "\n"` splits back into the lines and a final empty string. */
  lemma LinesRoundTrip(lines: seq<string>)
    requires |lines| >= 1 && forall k :: 0 <= k < |lines| ==> Lacks(lines[k], '\n')
    ensures Split(Join("\n", lines) + "\n", "\n") == lines + [""]
  {
    JoinThenSep("\n", lines);
    var all := lines + [""];
    assert forall k :: 0 <= k < |all| ==> Lacks(all[k], '\n') by {
      forall k | 0 <= k < |all| ensures Lacks(all[k], '\n') {
        if k < |lines| { assert all[k] == lines[k]; }
      }
    }
    SplitJoin(all, "\n");
  }
}

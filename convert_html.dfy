/**
 * The HTML copy stage's text transformations: where a chapter file is
 * found and where its copy goes, the chapters' `class="..."` attributes
 * and the stylesheets' `.name` selectors renamed, the document title
 * replaced, and the rule image swapped for `rule.svg`; and the stage
 * itself, copying every chapter of the manifest.
 */
module ConvertHtml {
  import opened Wrappers
  import opened Strings
  import Paths
  import Manifest
  import RegexSub
  import CssClasses
  import ClassNames
  import Sorting

  /**
   * `_resolve_chapter_path`: the entry's `chapter_path` (empty when
   * absent), taken as is when absolute and otherwise placed under the
   * extracted directory, itself under the working directory `cwd` unless
   * absolute.
   */
  function ResolveChapterPath(e: Manifest.Entry, extractedRoot: string, cwd: string): (p: string)
    ensures Paths.IsAbsolute(cwd) ==> Paths.IsAbsolute(p)
  {
    var chapterPath := e.chapterPath.GetOr("");
    if Paths.IsAbsolute(chapterPath) then chapterPath
    else Paths.Join(Paths.Join(cwd, extractedRoot), chapterPath)
  }

  /**
   * Where a chapter path lands: an absolute one stays where it is, an empty
   * one names the extracted directory itself, and any other is recovered
   * by `relative_to` from the extracted directory under `cwd`.
   */
  lemma ResolveChapterPathPlaces(e: Manifest.Entry, extractedRoot: string, cwd: string)
    ensures var rel := e.chapterPath.GetOr(""); var p := ResolveChapterPath(e, extractedRoot, cwd);
      && (Paths.IsAbsolute(rel) ==> p == rel)
      && (rel == [] ==> p == Paths.Join(cwd, extractedRoot))
      && (rel != [] && !Paths.IsAbsolute(rel) ==> Paths.RelativeTo(p, Paths.Join(cwd, extractedRoot)) == Some(rel))
  {
    var rel := e.chapterPath.GetOr("");
    if rel != [] && !Paths.IsAbsolute(rel) {
      Paths.RelativeToChild(Paths.Join(cwd, extractedRoot), rel);
    }
  }

  // ---------------------------------------------------------------------
  // _replace_classes_in_html

  const ClassAttrOpen: string := "class=\""

  /** `mapping.get(c, c)` */
  function MapClass(mapping: map<string, string>, c: string): string {
    if c in mapping then mapping[c] else c
  }

  function MapClasses(mapping: map<string, string>, classes: seq<string>): (r: seq<string>)
    ensures |r| == |classes| && forall i :: 0 <= i < |r| ==> r[i] == MapClass(mapping, classes[i])
  {
    seq(|classes|, i requires 0 <= i < |classes| => MapClass(mapping, classes[i]))
  }

  /** The new attribute value: each class mapped, joined by single spaces. */
  function ClassAttrValue(mapping: map<string, string>, value: string): string {
    Join(" ", MapClasses(mapping, Words(value)))
  }

  /** The value of a `class="..."` attribute at the start of `t`: non-empty and without a quote. */
  function QuotedValue(t: string): (r: Option<string>)
    ensures r.Some? ==>
      && |ClassAttrOpen| + |r.value| + 1 <= |t|
      && t[..|ClassAttrOpen| + |r.value| + 1] == ClassAttrOpen + r.value + "\""
      && r.value != [] && Lacks(r.value, '"')
  {
    if !StartsWith(t, ClassAttrOpen) then None
    else
      var rest := t[|ClassAttrOpen|..];
      var n := UpTo(rest, '"');
      if n == 0 || n == |rest| then None
      else
        var value := rest[..n];
        assert t == t[..|ClassAttrOpen|] + rest;
        assert t[..|ClassAttrOpen| + n + 1] == t[..|ClassAttrOpen|] + rest[..n] + [rest[n]];
        Some(value)
  }

  /** `class="([^"]+)"` at the start of `t`, replaced by the attribute with its classes mapped. */
  function ClassAttrRewrite(mapping: map<string, string>, t: string): (r: Option<(nat, string)>)
    ensures r.Some? ==> 0 < r.value.0 <= |t|
  {
    match QuotedValue(t)
    case None => None
    case Some(value) => Some((|ClassAttrOpen| + |value| + 1, ClassAttrOpen + ClassAttrValue(mapping, value) + "\""))
  }

  function ClassAttrMatcher(mapping: map<string, string>): RegexSub.Matcher {
    t => ClassAttrRewrite(mapping, t)
  }

  lemma ClassAttrMatcherSound(mapping: map<string, string>)
    ensures RegexSub.Sound(ClassAttrMatcher(mapping))
  {
  }

  /** `_replace_classes_in_html` */
  function ReplaceClassesInHtml(html: string, mapping: map<string, string>): string {
    ClassAttrMatcherSound(mapping);
    RegexSub.Sub(html, ClassAttrMatcher(mapping))
  }

  /** A match of the attribute pattern is a non-empty quoted value, replaced by its mapped classes. */
  lemma ClassAttrShape(mapping: map<string, string>, x: string, u: string, rep: string) returns (value: string)
    requires ClassAttrRewrite(mapping, x + u) == Some((|x|, rep))
    ensures x == ClassAttrOpen + value + "\"" && value != [] && Lacks(value, '"')
    ensures rep == ClassAttrOpen + ClassAttrValue(mapping, value) + "\""
  {
    value := QuotedValue(x + u).value;
    assert (x + u)[..|x|] == x;
  }

  /**
   * Text outside the attributes is kept (the scan spells out the page),
   * and every attribute replaced is a `class="..."` whose classes are
   * mapped and rejoined.
   */
  lemma ClassAttrsRewritten(html: string, mapping: map<string, string>, i: nat)
    ensures RegexSub.Original(RegexSub.Scan(html, ClassAttrMatcher(mapping))) == html
    ensures var ps := RegexSub.Scan(html, ClassAttrMatcher(mapping));
      i < |ps| && ps[i].Hit? ==>
        exists value :: value != [] && Lacks(value, '"')
          && ps[i].text == ClassAttrOpen + value + "\"" && ps[i].rep == ClassAttrOpen + ClassAttrValue(mapping, value) + "\""
  {
    var m := ClassAttrMatcher(mapping);
    ClassAttrMatcherSound(mapping);
    RegexSub.ScanLossless(html, m);
    var ps := RegexSub.Scan(html, m);
    if i < |ps| && ps[i].Hit? {
      RegexSub.ScanHits(html, m, i);
      var u :| m(ps[i].text + u) == Some((|ps[i].text|, ps[i].rep));
      var value := ClassAttrShape(mapping, ps[i].text, u, ps[i].rep);
    }
  }

  /**
   * The classes in a rewritten attribute, split again, are the original
   * classes mapped one by one, provided every mapped name is a single word.
   */
  lemma ClassAttrValueWords(mapping: map<string, string>, value: string)
    requires forall c :: c in mapping ==> mapping[c] != [] && NoSpace(mapping[c])
    ensures Words(ClassAttrValue(mapping, value)) == MapClasses(mapping, Words(value))
  {
    var ws := MapClasses(mapping, Words(value));
    assert forall k :: 0 <= k < |ws| ==> ws[k] != [] && NoSpace(ws[k]);
    WordsOfJoin(ws);
  }

  // ---------------------------------------------------------------------
  // _replace_classes_in_css

  /** The replacement of a `.name` token: `.` and the mapped name. */
  function CssRename(mapping: map<string, string>): string -> string {
    name => "." + MapClass(mapping, name)
  }

  /** `_replace_classes_in_css` */
  function ReplaceClassesInCss(cssText: string, mapping: map<string, string>): string {
    if mapping == map[] then cssText
    else RegexSub.Sub(cssText, CssClasses.ClassMatcher(CssRename(mapping)))
  }

  /** A mapping that renames nothing leaves the stylesheet as it was, empty or not. */
  lemma CssIdentityMapping(cssText: string, mapping: map<string, string>)
    requires forall c :: c in mapping ==> mapping[c] == c
    ensures ReplaceClassesInCss(cssText, mapping) == cssText
  {
    if mapping != map[] {
      var m := CssClasses.ClassMatcher(CssRename(mapping));
      forall t | m(t).Some? ensures m(t).value.1 == t[..m(t).value.0] {
        var name := CssClasses.ClassToken(t).value;
        assert m(t).value.1 == "." + name;
      }
      RegexSub.SubOfOwnText(cssText, m);
    }
  }

  /** A match of the selector pattern is a `.name` token, replaced by `.` and the mapped name. */
  lemma CssTokenShape(mapping: map<string, string>, x: string, u: string, rep: string) returns (name: string)
    requires CssClasses.ClassRewrite(CssRename(mapping), x + u) == Some((|x|, rep))
    ensures x == "." + name && name != [] && rep == "." + MapClass(mapping, name)
  {
    name := CssClasses.ClassToken(x + u).value;
    assert (x + u)[..|x|] == x;
  }

  /** Every token replaced is a `.name` token, replaced by `.` and the mapped name. */
  lemma CssTokensRewritten(cssText: string, mapping: map<string, string>, i: nat)
    ensures RegexSub.Original(RegexSub.Scan(cssText, CssClasses.ClassMatcher(CssRename(mapping)))) == cssText
    ensures var ps := RegexSub.Scan(cssText, CssClasses.ClassMatcher(CssRename(mapping)));
      i < |ps| && ps[i].Hit? ==>
        exists name :: name != [] && ps[i].text == "." + name && ps[i].rep == "." + MapClass(mapping, name)
  {
    var m := CssClasses.ClassMatcher(CssRename(mapping));
    CssClasses.ClassMatcherSound(CssRename(mapping));
    RegexSub.ScanLossless(cssText, m);
    var ps := RegexSub.Scan(cssText, m);
    if i < |ps| && ps[i].Hit? {
      RegexSub.ScanHits(cssText, m, i);
      var u :| m(ps[i].text + u) == Some((|ps[i].text|, ps[i].rep));
      var name := CssTokenShape(mapping, ps[i].text, u, ps[i].rep);
    }
  }

  // ---------------------------------------------------------------------
  // _replace_title

  const TitleOpen: string := "<title>"
  const TitleClose: string := "</title>"

  /** The title with `&`, then `<`, then `>` written as entities. */
  function Escape(title: string): (r: string)
    ensures '<' !in r && '>' !in r
  {
    var amp := Replace(title, "&", "&amp;");
    var lt := Replace(amp, "<", "&lt;");
    ReplaceRemovesChar(amp, '<', "&lt;");
    ReplaceKeepsOut(lt, ">", "&gt;", '<');
    ReplaceRemovesChar(lt, '>', "&gt;");
    Replace(lt, ">", "&gt;")
  }

  /** The offset of the first `</title>` in `t`, ignoring case (what the lazy `(.*?)` stops at). */
  function CloseAt(t: string): (r: Option<nat>)
    ensures r.Some? ==> r.value + |TitleClose| <= |t| && StartsWithNoCase(t[r.value..], TitleClose)
    decreases |t|
  {
    if |t| < |TitleClose| then None
    else if StartsWithNoCase(t, TitleClose) then Some(0)
    else
      match CloseAt(t[1..])
      case None => None
      case Some(k) => assert t[1..][k..] == t[k + 1..]; Some(k + 1)
  }

  /**
   * What the replacement template writes for a match: group 1 (the
   * opening tag as written) or nothing, then `text`, then group 3.
   */
  datatype Expansion = Expansion(keepOpen: bool, text: string)

  /** `(<title>)(.*?)(</title>)` at the start of `t`, ignoring case, DOTALL. */
  function TitleRewrite(x: Expansion, t: string): (r: Option<(nat, string)>)
    ensures r.Some? ==> 0 < r.value.0 <= |t|
  {
    if !StartsWithNoCase(t, TitleOpen) then None
    else
      match CloseAt(t[|TitleOpen|..])
      case None => None
      case Some(k) =>
        var close := |TitleOpen| + k;
        Some((close + |TitleClose|, (if x.keepOpen then t[..|TitleOpen|] else "") + x.text + t[close..close + |TitleClose|]))
  }

  function TitleMatcher(x: Expansion): RegexSub.Matcher {
    t => TitleRewrite(x, t)
  }

  lemma TitleMatcherSound(x: Expansion)
    ensures RegexSub.Sound(TitleMatcher(x))
  {
  }

  /** `pattern.search(html_text)`: where the pattern matches does not depend on the replacement. */
  predicate HasTitle(html: string) {
    RegexSub.Search(html, TitleMatcher(Expansion(true, "")))
  }

  predicate IsOctalDigit(c: char) {
    '0' <= c <= '7'
  }

  /**
   * Python's reading of the template `\1` + `safe` + `\3`.  A digit right
   * after `\1` is read as part of the escape: with two octal digits
   * (`\1dd`) it is an octal character escape, and group 1 is not
   * written; otherwise it names group `1d`, and the pattern has only
   * three groups.
   */
  function Template(safe: string): Result<Expansion>
    requires Lacks(safe, '\\')
  {
    if safe == [] || !IsDigit(safe[0]) then Success(Expansion(true, safe))
    else if |safe| >= 2 && IsOctalDigit(safe[0]) && IsOctalDigit(safe[1]) then
      var code := 64 + 8 * (safe[0] as int - '0' as int) + (safe[1] as int - '0' as int);
      Success(Expansion(false, [code as char] + safe[2..]))
    else Failure(RegexError("invalid group reference 1" + [safe[0]]))
  }

  /** `_replace_title` as written: the escaped title spliced into the replacement template. */
  function ReplaceTitleAsWritten(html: string, title: string): Result<string>
    requires Lacks(title, '\\')
  {
    var safe := Escape(title);
    EscapeKeepsOut(title, '\\');
    if !HasTitle(html) then Success(html)
    else
      match Template(safe)
      case Failure(e) => Failure(e)
      case Success(x) => TitleMatcherSound(x); Success(RegexSub.SubFirst(html, TitleMatcher(x)))
  }

  /** `_replace_title` with the escaped title inserted literally between the tags. */
  function ReplaceTitle(html: string, title: string): string {
    if !HasTitle(html) then html
    else
      TitleMatcherSound(Expansion(true, Escape(title)));
      RegexSub.SubFirst(html, TitleMatcher(Expansion(true, Escape(title))))
  }

  lemma {:induction false} EscapeKeepsOut(title: string, c: char)
    requires c != '&' && c != 'a' && c != 'm' && c != 'p' && c != ';' && c != 'l' && c != 't' && c != 'g'
    requires c !in title
    ensures c !in Escape(title)
  {
    var amp := Replace(title, "&", "&amp;");
    ReplaceKeepsOut(title, "&", "&amp;", c);
    ReplaceKeepsOut(amp, "<", "&lt;", c);
    ReplaceKeepsOut(Replace(amp, "<", "&lt;"), ">", "&gt;", c);
  }

  /** Escaping works character by character. */
  lemma EscapeAppend(a: string, b: string)
    ensures Escape(a + b) == Escape(a) + Escape(b)
  {
    ReplaceCharAppend(a, b, '&', "&amp;");
    var a1 := Replace(a, "&", "&amp;");
    var b1 := Replace(b, "&", "&amp;");
    ReplaceCharAppend(a1, b1, '<', "&lt;");
    ReplaceCharAppend(Replace(a1, "<", "&lt;"), Replace(b1, "<", "&lt;"), '>', "&gt;");
  }

  /** A character other than `&`, `<` and `>` escapes to itself. */
  lemma EscapePlain(c: char)
    requires c != '&' && c != '<' && c != '>'
    ensures Escape([c]) == [c]
  {
    ReplaceCharStep([c], '&', "&amp;");
    ReplaceCharStep([c], '<', "&lt;");
    ReplaceCharStep([c], '>', "&gt;");
  }

  /** Text without `&`, `<` or `>` is its own escape. */
  lemma {:induction false} EscapePlainText(text: string)
    requires Lacks(text, '&') && Lacks(text, '<') && Lacks(text, '>')
    ensures Escape(text) == text
    decreases |text|
  {
    if text != [] {
      assert text == [text[0]] + text[1..];
      EscapeAppend([text[0]], text[1..]);
      EscapePlain(text[0]);
      EscapePlainText(text[1..]);
    } else {
      assert Replace(text, "&", "&amp;") == [];
      assert Replace([], "<", "&lt;") == [];
    }
  }

  /** A special character escapes to an entity, which starts with `&`. */
  lemma EscapeSpecial(c: char)
    requires c == '&' || c == '<' || c == '>'
    ensures Escape([c]) != [] && Escape([c])[0] == '&'
  {
    ReplaceCharStep([c], '&', "&amp;");
    var a := Replace([c], "&", "&amp;");
    assert (a != [] && a[0] == '&') || a == [c];
    ReplaceCharStep(a, '<', "&lt;");
    var l := Replace(a, "<", "&lt;");
    assert (l != [] && l[0] == '&') || l == [c];
    ReplaceCharStep(l, '>', "&gt;");
  }

  /** `open` and `close` are the title's tags, each written in any case. */
  predicate TitleTags(open: string, close: string) {
    ToLower(open) == ToLower(TitleOpen) && ToLower(close) == ToLower(TitleClose)
  }

  /** No `tag`, in any case, starts inside `text` when `next` follows it. */
  predicate NoTagIn(text: string, next: string, tag: string) {
    forall j :: 0 <= j < |text| ==> !StartsWithNoCase((text + next)[j..], tag)
  }

  /**
   * `pre`, `open`, `inner`, `close` is how the pattern finds the first
   * title: no title tag starts before `open`, and no closing tag starts
   * inside the contents `inner`.
   */
  predicate FirstTitle(pre: string, open: string, inner: string, close: string) {
    TitleTags(open, close) && NoTagIn(pre, open, TitleOpen) && NoTagIn(inner, close, TitleClose)
  }

  /** A page: text, a title element with its tags as written, and the rest. */
  function TitledPage(pre: string, open: string, inner: string, close: string, post: string): (html: string)
    ensures html == pre + open + inner + close + post
  {
    pre + (open + (inner + (close + post)))
  }

  /**
   * Whatever stands before the page's first title tag, in any case, and
   * up to the first closing tag after it: the contents between the tags
   * are replaced by the escaped title, and the tags as written and
   * everything else are kept.
   */
  lemma TitleReplaced(pre: string, open: string, inner: string, close: string, post: string, title: string)
    requires FirstTitle(pre, open, inner, close)
    ensures ReplaceTitle(pre + open + inner + close + post, title) == pre + open + Escape(title) + close + post
  {
    var safe := Escape(title);
    var x := Expansion(true, safe);
    TitleFoundAt(pre, open, inner, close, post, x);
    FirstTitleReplaced(pre, open, inner, close, post, x);
    Regroup(pre, open, safe, close, post);
  }

  /** Replacing the first title match in such a page puts the expansion in place of the title element. */
  lemma FirstTitleReplaced(pre: string, open: string, inner: string, close: string, post: string, x: Expansion)
    requires FirstTitle(pre, open, inner, close)
    ensures RegexSub.Sound(TitleMatcher(x))
    ensures RegexSub.SubFirst(TitledPage(pre, open, inner, close, post), TitleMatcher(x)) == pre + (OpenIf(x, open) + x.text + close) + post
  {
    var html := TitledPage(pre, open, inner, close, post);
    var n := |open| + |inner| + |close|;
    TitleFoundAt(pre, open, inner, close, post, x);
    RegexSub.SubFirstAt(html, TitleMatcher(x), |pre|, n, OpenIf(x, open) + x.text + close);
    assert html[..|pre|] == pre;
    assert html[|pre| + n..] == post;
  }

  lemma Regroup(a: string, b: string, c: string, d: string, e: string)
    ensures a + (b + c + d) + e == a + b + c + d + e
  {
  }

  /** In such a page the search succeeds, and the first title match is the one right after `pre`. */
  lemma TitleFoundAt(pre: string, open: string, inner: string, close: string, post: string, x: Expansion)
    requires FirstTitle(pre, open, inner, close)
    ensures var html := TitledPage(pre, open, inner, close, post);
      && RegexSub.Sound(TitleMatcher(x))
      && HasTitle(html)
      && |pre| <= |html|
      && TitleMatcher(x)(html[|pre|..]) == Some((|open| + |inner| + |close|, OpenIf(x, open) + x.text + close))
      && forall j :: 0 <= j < |pre| ==> TitleMatcher(x)(html[j..]).None?
  {
    var html := TitledPage(pre, open, inner, close, post);
    TitleMatcherSound(x);
    assert html[|pre|..] == open + (inner + (close + post));
    TitleAt(open, inner, close, post, x);
    TitleAt(open, inner, close, post, Expansion(true, ""));
    RegexSub.SearchFinds(html, TitleMatcher(Expansion(true, "")), |pre|);
    assert html[..|pre + open|] == pre + open;
    NoTitleBefore(pre, open, html, x);
  }

  /** Where the page has no title, it is returned unchanged. */
  lemma NoTitleUnchanged(html: string, title: string)
    requires forall i :: 0 <= i <= |html| ==> !StartsWithNoCase(html[i..], TitleOpen)
    ensures ReplaceTitle(html, title) == html
  {
    var m := TitleMatcher(Expansion(true, ""));
    assert forall i :: 0 <= i <= |html| ==> m(html[i..]).None?;
    RegexSub.SearchMatches(html, m);
  }

  /** At a title tag, in any case, the match runs to the first closing tag after it, and its expansion is the template's text between the tags as written. */
  lemma TitleAt(open: string, inner: string, close: string, post: string, x: Expansion)
    requires TitleTags(open, close) && NoTagIn(inner, close, TitleClose)
    ensures TitleRewrite(x, open + (inner + (close + post))) ==
      Some((|open| + |inner| + |close|, OpenIf(x, open) + x.text + close))
  {
    assert |open| == |ToLower(open)| && |close| == |ToLower(close)|;
    PageParts(open, inner, close, post);
    CloseAfterContents(inner, close, post);
  }

  lemma PageParts(open: string, inner: string, close: string, post: string)
    ensures var t := open + (inner + (close + post)); var c := |open| + |inner|;
      && t[..|open|] == open
      && t[|open|..] == inner + (close + post)
      && t[c..c + |close|] == close
  {
  }

  /** Group 1 as written, when the template writes it. */
  function OpenIf(x: Expansion, open: string): string {
    if x.keepOpen then open else ""
  }

  /** The first closing tag after contents in which none starts is the one right after them. */
  lemma {:induction false} CloseAfterContents(inner: string, close: string, post: string)
    requires ToLower(close) == ToLower(TitleClose) && NoTagIn(inner, close, TitleClose)
    ensures CloseAt(inner + (close + post)) == Some(|inner|)
    decreases |inner|
  {
    var t := inner + (close + post);
    assert |close| == |ToLower(close)|;
    if inner == [] {
      assert t == close + post;
      assert t[..|TitleClose|] == close;
    } else {
      assert t[..|TitleClose|] == (inner + close)[0..][..|TitleClose|];
      assert t[1..] == inner[1..] + (close + post);
      assert forall j :: 0 <= j < |inner[1..]| ==> (inner[1..] + close)[j..] == (inner + close)[j + 1..];
      CloseAfterContents(inner[1..], close, post);
    }
  }

  /** A page that starts with `pre` and a tag has no title match inside `pre`. */
  lemma NoTitleBefore(pre: string, open: string, html: string, x: Expansion)
    requires |open| == |TitleOpen| && NoTagIn(pre, open, TitleOpen) && StartsWith(html, pre + open)
    ensures forall j :: 0 <= j < |pre| ==> TitleMatcher(x)(html[j..]).None?
  {
    forall j | 0 <= j < |pre| ensures TitleMatcher(x)(html[j..]).None? {
      SameStart(html, pre + open, j, |TitleOpen|);
    }
  }

  /** A text that starts with `p` agrees with `p` on any stretch inside `p`. */
  lemma SameStart(s: string, p: string, j: nat, n: nat)
    requires StartsWith(s, p) && j + n <= |p|
    ensures s[j..][..n] == p[j..][..n]
  {
    forall i | 0 <= i < n ensures s[j..][..n][i] == p[j..][..n][i] {
      assert s[..|p|][j + i] == p[j + i];
    }
  }

  /**
   * As written, once the page has a title, a title starting with a digit
   * that does not begin a two-octal-digit run (`1984`, `9 Lives`, `81
   * Days`) makes the template refer to group 1d, which does not exist:
   * `re.error` is raised.
   */
  lemma DigitTitleFails(html: string, title: string)
    requires HasTitle(html) && Lacks(title, '\\')
    requires title != [] && IsDigit(title[0])
    requires !(|title| >= 2 && IsOctalDigit(title[0]) && IsOctalDigit(title[1]))
    ensures ReplaceTitleAsWritten(html, title).Failure?
  {
    EscapeHead(title);
  }

  /**
   * As written, a title starting with two octal digits (`12 Rules`) has
   * them read as an octal escape: the opening tag is lost and one
   * character stands for the two digits.
   */
  lemma OctalTitleLosesTag(pre: string, open: string, inner: string, close: string, post: string, title: string)
    requires FirstTitle(pre, open, inner, close) && Lacks(title, '\\')
    requires |title| >= 2 && IsOctalDigit(title[0]) && IsOctalDigit(title[1])
    ensures var code := 64 + 8 * (title[0] as int - '0' as int) + (title[1] as int - '0' as int);
      ReplaceTitleAsWritten(pre + open + inner + close + post, title)
        == Success(pre + [code as char] + Escape(title[2..]) + close + post)
  {
    var safe := Escape(title);
    EscapeKeepsOut(title, '\\');
    EscapeTwo(title);
    var code := 64 + 8 * (title[0] as int - '0' as int) + (title[1] as int - '0' as int);
    var rest := Escape(title[2..]);
    var x := Expansion(false, [code as char] + rest);
    assert safe[2..] == rest;
    assert Template(safe) == Success(x);
    TitleFoundAt(pre, open, inner, close, post, Expansion(true, ""));
    FirstTitleReplaced(pre, open, inner, close, post, x);
    assert "" + ([code as char] + rest) == [code as char] + rest;
    Regroup(pre, [code as char], rest, close, post);
  }

  /** The escaped title starts with the title's digit, followed by an octal digit only if the title has one next. */
  lemma EscapeHead(title: string)
    requires title != [] && IsDigit(title[0])
    ensures Escape(title) != [] && Escape(title)[0] == title[0]
    ensures |Escape(title)| >= 2 && IsOctalDigit(Escape(title)[1]) ==> |title| >= 2 && IsOctalDigit(title[1])
  {
    assert title == [title[0]] + title[1..];
    EscapeAppend([title[0]], title[1..]);
    EscapePlain(title[0]);
    if |title| >= 2 {
      var rest := title[1..];
      assert rest == [rest[0]] + rest[1..];
      EscapeAppend([rest[0]], rest[1..]);
      if rest[0] == '&' || rest[0] == '<' || rest[0] == '>' {
        EscapeSpecial(rest[0]);
      } else {
        EscapePlain(rest[0]);
      }
    } else {
      assert title[1..] == [];
    }
  }

  lemma EscapeTwo(title: string)
    requires |title| >= 2 && IsDigit(title[0]) && IsDigit(title[1])
    ensures Escape(title) == [title[0], title[1]] + Escape(title[2..])
  {
    assert title == [title[0]] + ([title[1]] + title[2..]);
    EscapeAppend([title[0]], [title[1]] + title[2..]);
    EscapeAppend([title[1]], title[2..]);
    EscapePlain(title[0]);
    EscapePlain(title[1]);
  }

  // ---------------------------------------------------------------------
  // _replace_image_src

  /** `_replace_image_src`: every `src="original"` becomes `src="replacement"`. */
  function ReplaceImageSrc(html: string, original: string, replacement: string): string {
    Replace(html, "src=\"" + original + "\"", "src=\"" + replacement + "\"")
  }

  /** A page that never uses the image is unchanged. */
  lemma ImageSrcAbsent(html: string, original: string, replacement: string)
    requires !Contains(html, "src=\"" + original + "\"")
    ensures ReplaceImageSrc(html, original, replacement) == html
  {
    ReplaceAbsent(html, "src=\"" + original + "\"", "src=\"" + replacement + "\"");
  }

  /** Replacing an image by itself changes nothing. */
  lemma ImageSrcSame(html: string, original: string)
    ensures ReplaceImageSrc(html, original, original) == html
  {
    ReplaceSelf(html, "src=\"" + original + "\"");
  }

  // ---------------------------------------------------------------------
  // copy_chapters_from_toc, one entry

  /** Where a chapter's copy goes: its place below the extracted directory, or its bare name, under `html`. */
  function HtmlPath(chapterPath: string, bookDir: string): string {
    var rel := match Paths.RelativeTo(chapterPath, Paths.Child(bookDir, "extracted"))
      case Some(r) => r
      case None => Paths.Name(chapterPath);
    Paths.Child(Paths.Child(bookDir, "html"), rel)
  }

  /** The copied text: the title replaced, the rule image swapped, and the classes renamed when there is a mapping. */
  function ChapterHtml(html: string, title: string, mapping: map<string, string>): string {
    var withTitle := ReplaceTitle(html, title);
    var withRule := ReplaceImageSrc(withTitle, "image_rsrc6C6.jpg", "rule.svg");
    if mapping != map[] then ReplaceClassesInHtml(withRule, mapping) else withRule
  }

  /** A file written: its path and its text. */
  datatype Written = Written(path: string, text: string)

  /** Where the stage looks for an entry's chapter file. */
  function ChapterFile(e: Manifest.Entry, bookDir: string, cwd: string): string {
    ResolveChapterPath(e, Paths.Child(bookDir, "extracted"), cwd)
  }

  /**
   * One manifest entry: `None` when its chapter file does not exist;
   * otherwise the entry with its `html` path set, and the copy written there.
   */
  function CopyEntry(e: Manifest.Entry, bookDir: string, cwd: string, chapterFiles: map<string, string>,
                     mapping: map<string, string>): Option<(Manifest.Entry, Written)>
  {
    var chapterPath := ChapterFile(e, bookDir, cwd);
    if chapterPath !in chapterFiles then None
    else
      var out := HtmlPath(chapterPath, bookDir);
      Some((e.(html := Some(out)), Written(out, ChapterHtml(chapterFiles[chapterPath], Manifest.ChapterTitle(e), mapping))))
  }

  /** The manifest after the stage. */
  function CopiedToc(entries: seq<Manifest.Entry>, bookDir: string, cwd: string, chapterFiles: map<string, string>)
    : (r: seq<Manifest.Entry>)
    ensures |r| == |entries|
  {
    seq(|entries|, i requires 0 <= i < |entries| =>
      var p := ChapterFile(entries[i], bookDir, cwd);
      if p in chapterFiles then entries[i].(html := Some(HtmlPath(p, bookDir))) else entries[i])
  }

  /** The copies written, in manifest order. */
  function CopiedFiles(entries: seq<Manifest.Entry>, bookDir: string, cwd: string, chapterFiles: map<string, string>,
                       mapping: map<string, string>): seq<Written>
    decreases |entries|
  {
    if entries == [] then []
    else
      var rest := CopiedFiles(entries[..|entries| - 1], bookDir, cwd, chapterFiles, mapping);
      match CopyEntry(entries[|entries| - 1], bookDir, cwd, chapterFiles, mapping)
      case Some(p) => rest + [p.1]
      case None => rest
  }

  /**
   * `copy_chapters_from_toc` over the loaded manifest `toc`, updated in
   * place and always written back.  `chapterFiles` maps each existing
   * chapter file to its text, `cssTexts` are the texts of the stylesheets
   * found below the extracted directory, in the order they are found, and
   * `cwd` is the working directory.  Also returns the class mapping used.
   */
  method CopyChaptersFromToc(stem: string, baseDir: string, cwd: string,
                             tocExists: bool, extractedExists: bool, toc: array<Manifest.Entry>,
                             chapterFiles: map<string, string>, cssTexts: seq<string>)
    returns (r: Result<seq<Written>>, mapping: map<string, string>)
    modifies toc
    ensures !tocExists ==> r == Failure(FileNotFound("toc.json")) && toc[..] == old(toc[..])
    ensures tocExists && !extractedExists ==> r == Failure(FileNotFound("extracted directory")) && toc[..] == old(toc[..])
    ensures tocExists && extractedExists ==>
      var classToDecls := ClassNames.MergedRules(cssTexts);
      var bookDir := Paths.Child(baseDir, stem);
      && (r.Failure? ==>
            && ClassNames.GeneratedAll(Sorting.SortedStrings(classToDecls.Keys), classToDecls, ClassNames.ClassName)
               == Failure(r.error)
            && toc[..] == old(toc[..]))
      && (r.Success? ==>
            && ClassNames.IsClassMapping(classToDecls, mapping)
            && r.value == CopiedFiles(old(toc[..]), bookDir, cwd, chapterFiles, mapping)
            && toc[..] == CopiedToc(old(toc[..]), bookDir, cwd, chapterFiles))
  {
    mapping := map[];
    if !tocExists {
      return Failure(FileNotFound("toc.json")), mapping;
    }
    if !extractedExists {
      return Failure(FileNotFound("extracted directory")), mapping;
    }
    var bookDir := Paths.Child(baseDir, stem);
    var built := ClassNames.BuildClassMapping(cssTexts);
    if built.Failure? {
      return Failure(built.error), mapping;
    }
    mapping := built.value;
    var written := CopyEntries(toc, bookDir, cwd, chapterFiles, mapping);
    r := Success(written);
  }

  /** The loop over the manifest entries: each chapter found is copied and its entry pointed at the copy. */
  method CopyEntries(toc: array<Manifest.Entry>, bookDir: string, cwd: string,
                     chapterFiles: map<string, string>, mapping: map<string, string>)
    returns (written: seq<Written>)
    modifies toc
    ensures written == CopiedFiles(old(toc[..]), bookDir, cwd, chapterFiles, mapping)
    ensures toc[..] == CopiedToc(old(toc[..]), bookDir, cwd, chapterFiles)
  {
    ghost var entries := toc[..];
    written := [];
    for i := 0 to toc.Length
      invariant toc[..i] == CopiedToc(entries[..i], bookDir, cwd, chapterFiles)
      invariant forall j :: i <= j < toc.Length ==> toc[j] == entries[j]
      invariant written == CopiedFiles(entries[..i], bookDir, cwd, chapterFiles, mapping)
    {
      var copied := CopyEntry(toc[i], bookDir, cwd, chapterFiles, mapping);
      CopyStep(entries, i, bookDir, cwd, chapterFiles, mapping);
      if copied.Some? {
        toc[i] := copied.value.0;
        written := written + [copied.value.1];
      }
      assert toc[..i + 1] == toc[..i] + [toc[i]];
    }
    assert entries[..toc.Length] == entries;
  }

  /** One more entry: the manifest and the copies written grow by that entry's outcome. */
  lemma CopyStep(entries: seq<Manifest.Entry>, i: nat, bookDir: string, cwd: string, chapterFiles: map<string, string>,
                 mapping: map<string, string>)
    requires i < |entries|
    ensures var c := CopyEntry(entries[i], bookDir, cwd, chapterFiles, mapping);
      && CopiedToc(entries[..i + 1], bookDir, cwd, chapterFiles)
         == CopiedToc(entries[..i], bookDir, cwd, chapterFiles) + [if c.Some? then c.value.0 else entries[i]]
      && CopiedFiles(entries[..i + 1], bookDir, cwd, chapterFiles, mapping)
         == CopiedFiles(entries[..i], bookDir, cwd, chapterFiles, mapping) + (if c.Some? then [c.value.1] else [])
  {
    assert entries[..i + 1][..i] == entries[..i];
  }

  /** Something is copied exactly when some entry's chapter file exists. */
  lemma {:induction false} CopiedFilesEmpty(entries: seq<Manifest.Entry>, bookDir: string, cwd: string,
                                            chapterFiles: map<string, string>, mapping: map<string, string>)
    ensures CopiedFiles(entries, bookDir, cwd, chapterFiles, mapping) == [] <==>
      forall i :: 0 <= i < |entries| ==> ChapterFile(entries[i], bookDir, cwd) !in chapterFiles
    decreases |entries|
  {
    if entries != [] {
      var init := entries[..|entries| - 1];
      CopiedFilesEmpty(init, bookDir, cwd, chapterFiles, mapping);
      assert forall i :: 0 <= i < |init| ==> init[i] == entries[i];
    }
  }

  /** Every copy lies below the book's `html` directory and is recorded in the manifest entry it came from. */
  lemma {:induction false} CopiedFilesRecorded(entries: seq<Manifest.Entry>, bookDir: string, cwd: string,
                                               chapterFiles: map<string, string>, mapping: map<string, string>, k: nat)
    requires k < |CopiedFiles(entries, bookDir, cwd, chapterFiles, mapping)|
    ensures var w := CopiedFiles(entries, bookDir, cwd, chapterFiles, mapping)[k];
      && StartsWith(w.path, Paths.Child(bookDir, "html") + "/")
      && exists i :: 0 <= i < |entries| && CopiedToc(entries, bookDir, cwd, chapterFiles)[i].html == Some(w.path)
    decreases |entries|
  {
    var init, e := entries[..|entries| - 1], entries[|entries| - 1];
    var rest := CopiedFiles(init, bookDir, cwd, chapterFiles, mapping);
    var ws := CopiedFiles(entries, bookDir, cwd, chapterFiles, mapping);
    var toc := CopiedToc(entries, bookDir, cwd, chapterFiles);
    if k < |rest| {
      CopiedFilesRecorded(init, bookDir, cwd, chapterFiles, mapping, k);
      var i :| 0 <= i < |init| && CopiedToc(init, bookDir, cwd, chapterFiles)[i].html == Some(rest[k].path);
      assert init[i] == entries[i];
      assert toc[i].html == Some(ws[k].path);
    } else {
      CopyEntryFields(e, bookDir, cwd, chapterFiles, mapping);
      assert toc[|entries| - 1].html == Some(ws[k].path);
    }
  }

  /** Only the `html` key is added, and the copy goes below the book's `html` directory. */
  lemma CopyEntryFields(e: Manifest.Entry, bookDir: string, cwd: string, chapterFiles: map<string, string>,
                        mapping: map<string, string>)
    requires CopyEntry(e, bookDir, cwd, chapterFiles, mapping).Some?
    ensures var e' := CopyEntry(e, bookDir, cwd, chapterFiles, mapping).value.0;
      && e' == e.(html := e'.html)
      && e'.html == Some(CopyEntry(e, bookDir, cwd, chapterFiles, mapping).value.1.path)
      && StartsWith(e'.html.value, Paths.Child(bookDir, "html") + "/")
  {
    var p := ChapterFile(e, bookDir, cwd);
    var out := HtmlPath(p, bookDir);
    var root := Paths.Child(bookDir, "html");
    assert out[..|root + "/"|] == root + "/";
  }

  /**
   * With a relative book directory and the chapter resolved under the
   * absolute working directory, `relative_to` fails, so every copy lands
   * directly in `html` under its bare name.
   */
  lemma RelativeBookDirFlattensHtml(e: Manifest.Entry, bookDir: string, cwd: string)
    requires bookDir != [] && !Paths.IsAbsolute(bookDir) && Paths.IsAbsolute(cwd)
    ensures var p := ResolveChapterPath(e, Paths.Child(bookDir, "extracted"), cwd);
      HtmlPath(p, bookDir) == Paths.Child(Paths.Child(bookDir, "html"), Paths.Name(p))
  {
    var root := Paths.Child(bookDir, "extracted");
    assert (root + "/")[0] == bookDir[0];
  }
}

/**
 * Renaming the book's CSS classes: the class rules are read from the
 * stylesheets, each class gets a readable name generated from its
 * declarations (numbered when several share one), and the names are
 * rewritten in the chapters' `class="..."` attributes and in the
 * stylesheets' `.name` selectors.
 */
module CssClasses {
  import opened Wrappers
  import opened Strings
  import Sorting
  import RegexSub

  // ---------------------------------------------------------------------
  // Scanning: `[^{}]+\{[^}]*\}` blocks and `\.[A-Za-z0-9_-]+` class tokens

  /** The length of the longest prefix of `t` without a brace. */
  function NonBraceRun(t: string): (n: nat)
    ensures n <= |t| && Lacks(t[..n], '{') && Lacks(t[..n], '}')
    ensures n < |t| ==> t[n] == '{' || t[n] == '}'
  {
    if t == [] || t[0] == '{' || t[0] == '}' then 0
    else
      var n := 1 + NonBraceRun(t[1..]);
      assert t[..n] == [t[0]] + t[1..][..n - 1];
      n
  }

  /**
   * `([^{}]+)\{([^}]*)\}` at the start of `t`: the selector group runs to
   * the first brace, which must open; the declarations run to the first
   * `}`.  The replacement carries the declarations (group 2).
   */
  function BlockMatch(t: string): (r: Option<(nat, string)>)
    ensures r.Some? ==> 0 < r.value.0 <= |t|
  {
    var a := NonBraceRun(t);
    if a == 0 || a == |t| || t[a] != '{' then None
    else
      var b := UpTo(t[a + 1..], '}');
      if a + 1 + b == |t| then None
      else Some((a + 1 + b + 1, t[a + 1..a + 1 + b]))
  }

  /** The selector group of a matched block (group 1). */
  function Selector(block: RegexSub.Piece): string
    requires block.Hit?
  {
    block.text[..NonBraceRun(block.text)]
  }

  /** `[A-Za-z0-9_-]` */
  predicate IsClassChar(c: char) {
    IsAlnum(c) || c == '_' || c == '-'
  }

  function ClassRun(t: string): (n: nat)
    ensures n <= |t| && forall i :: 0 <= i < n ==> IsClassChar(t[i])
    ensures n < |t| ==> !IsClassChar(t[n])
  {
    if t != [] && IsClassChar(t[0]) then 1 + ClassRun(t[1..]) else 0
  }

  /** The class name of a `.name` token at the start of `t`, if there is one. */
  function ClassToken(t: string): (r: Option<string>)
    ensures r.Some? ==> 1 + |r.value| <= |t| && t[..1 + |r.value|] == "." + r.value && r.value != []
  {
    if t != [] && t[0] == '.' && ClassRun(t[1..]) > 0 then
      var name := t[1..1 + ClassRun(t[1..])];
      assert t[..1 + |name|] == [t[0]] + name;
      Some(name)
    else None
  }

  /** `\.([A-Za-z0-9_-]+)` at the start of `t`, replaced by `rename` of the class name. */
  function ClassRewrite(rename: string -> string, t: string): (r: Option<(nat, string)>)
    ensures r.Some? ==> 0 < r.value.0 <= |t|
  {
    match ClassToken(t)
    case Some(name) => Some((1 + |name|, rename(name)))
    case None => None
  }

  function ClassMatcher(rename: string -> string): RegexSub.Matcher {
    t => ClassRewrite(rename, t)
  }

  lemma ClassMatcherSound(rename: string -> string)
    ensures RegexSub.Sound(ClassMatcher(rename))
  {
  }

  /** The class names `re.finditer` finds in a selector, in order. */
  function ClassNames(selector: string): (names: seq<string>)
  {
    ClassMatcherSound(name => name);
    var hs := RegexSub.FindAll(selector, ClassMatcher(name => name));
    seq(|hs|, i requires 0 <= i < |hs| => hs[i].rep)
  }

  /** The class names of comma-separated selectors, selector by selector. */
  function SelectorsClasses(selectors: seq<string>): seq<string>
  {
    if selectors == [] then []
    else SelectorsClasses(selectors[..|selectors| - 1]) + ClassNames(selectors[|selectors| - 1])
  }

  /** The classes a block's selector group names. */
  function BlockClasses(block: RegexSub.Piece): seq<string>
    requires block.Hit?
  {
    SelectorsClasses(Split(Selector(block), ","))
  }

  /** `" ".join(s.split())`: whitespace runs collapsed to one space, none at the ends. */
  function Collapse(s: string): string {
    Join(" ", Words(s))
  }

  // ---------------------------------------------------------------------
  // _parse_css_rules

  /** What one block contributes: the classes it names and its collapsed declarations. */
  datatype Rule = Rule(classes: seq<string>, declarations: string)

  function BlockRule(block: RegexSub.Piece): Rule
    requires block.Hit?
  {
    Rule(BlockClasses(block), Collapse(block.rep))
  }

  function CssBlocks(cssText: string): seq<RegexSub.Piece> {
    RegexSub.FindAll(cssText, BlockMatch)
  }

  /** The blocks of a stylesheet as rules, in order. */
  function CssRuleList(cssText: string): (rs: seq<Rule>)
    ensures |rs| == |CssBlocks(cssText)|
  {
    var blocks := CssBlocks(cssText);
    seq(|blocks|, i requires 0 <= i < |blocks| => BlockRule(blocks[i]))
  }

  /** Every class in `names` set to `decls`. */
  function Assign(rules: map<string, string>, names: seq<string>, decls: string): (r: map<string, string>)
    ensures forall c :: c in r <==> c in rules || c in names
    ensures forall c :: c in r ==> r[c] == if c in names then decls else rules[c]
  {
    rules + map c | c in names :: decls
  }

  /** The class rules after the given blocks, each block overriding the earlier ones. */
  function RulesOf(rs: seq<Rule>): map<string, string> {
    if rs == [] then map[]
    else Assign(RulesOf(rs[..|rs| - 1]), rs[|rs| - 1].classes, rs[|rs| - 1].declarations)
  }

  /** What `_parse_css_rules` returns for a stylesheet. */
  function CssRules(cssText: string): map<string, string> {
    RulesOf(CssRuleList(cssText))
  }

  /** `_parse_css_rules`: every class of every block, mapped to the block's collapsed declarations. */
  method ParseCssRules(cssText: string) returns (rules: map<string, string>)
    ensures rules == CssRules(cssText)
  {
    var blocks := RegexSub.FindAll(cssText, BlockMatch);
    ghost var rs := CssRuleList(cssText);
    rules := map[];
    for b := 0 to |blocks|
      invariant rules == RulesOf(rs[..b])
    {
      RulesOfStep(rs, b);
      assert rs[b] == BlockRule(blocks[b]);
      rules := AddBlock(rules, blocks[b]);
    }
    assert rs[..|blocks|] == rs;
  }

  /** One block: its declarations collapsed and set for every class of its selectors. */
  method AddBlock(rules0: map<string, string>, block: RegexSub.Piece) returns (rules: map<string, string>)
    requires block.Hit?
    ensures rules == Assign(rules0, BlockRule(block).classes, BlockRule(block).declarations)
  {
    var declarations := Collapse(block.rep);
    var selectors := Split(Selector(block), ",");
    rules := AssignSelectors(rules0, selectors, declarations);
  }

  lemma RulesOfStep(rs: seq<Rule>, b: nat)
    requires b < |rs|
    ensures RulesOf(rs[..b + 1]) == Assign(RulesOf(rs[..b]), rs[b].classes, rs[b].declarations)
  {
    assert rs[..b + 1][..b] == rs[..b];
  }

  /** The loop over one block's selectors. */
  method AssignSelectors(rules0: map<string, string>, selectors: seq<string>, declarations: string)
    returns (rules: map<string, string>)
    ensures rules == Assign(rules0, SelectorsClasses(selectors), declarations)
  {
    rules := rules0;
    for p := 0 to |selectors|
      invariant rules == Assign(rules0, SelectorsClasses(selectors[..p]), declarations)
    {
      var names := ClassNames(selectors[p]);
      SelectorsClassesStep(selectors, p);
      AssignTwice(rules0, SelectorsClasses(selectors[..p]), names, declarations);
      rules := AssignNames(rules, names, declarations);
    }
    assert selectors[..|selectors|] == selectors;
  }

  /** The loop over the classes one selector names. */
  method AssignNames(rules0: map<string, string>, names: seq<string>, declarations: string)
    returns (rules: map<string, string>)
    ensures rules == Assign(rules0, names, declarations)
  {
    rules := rules0;
    for q := 0 to |names|
      invariant rules == Assign(rules0, names[..q], declarations)
    {
      AssignStep(rules0, names, q, declarations);
      rules := rules[names[q] := declarations];
    }
    assert names[..|names|] == names;
  }

  lemma AssignTwice(rules: map<string, string>, names1: seq<string>, names2: seq<string>, decls: string)
    ensures Assign(Assign(rules, names1, decls), names2, decls) == Assign(rules, names1 + names2, decls)
  {
    var once := Assign(rules, names1, decls);
    var l, r := Assign(once, names2, decls), Assign(rules, names1 + names2, decls);
    forall c ensures c in l <==> c in r {
      assert c in names1 + names2 <==> c in names1 || c in names2;
    }
    forall c | c in l ensures l[c] == r[c] {
      assert c in names1 + names2 <==> c in names1 || c in names2;
    }
  }

  lemma SelectorsClassesStep(selectors: seq<string>, p: nat)
    requires p < |selectors|
    ensures SelectorsClasses(selectors[..p + 1]) == SelectorsClasses(selectors[..p]) + ClassNames(selectors[p])
  {
    assert selectors[..p + 1][..p] == selectors[..p];
  }

  lemma AssignStep(rules: map<string, string>, names: seq<string>, q: nat, decls: string)
    requires q < |names|
    ensures Assign(rules, names[..q], decls)[names[q] := decls] == Assign(rules, names[..q + 1], decls)
  {
    assert names[..q + 1] == names[..q] + [names[q]];
  }

  /** A class has a rule exactly when some block names it. */
  lemma {:induction false} RulesOfKeys(rs: seq<Rule>, c: string)
    ensures c in RulesOf(rs) <==> exists k :: 0 <= k < |rs| && c in rs[k].classes
    decreases |rs|
  {
    if rs != [] {
      var init, last := rs[..|rs| - 1], rs[|rs| - 1];
      RulesOfKeys(init, c);
      assert c in RulesOf(rs) <==> c in RulesOf(init) || c in last.classes;
      if c in RulesOf(init) {
        var k :| 0 <= k < |init| && c in init[k].classes;
        assert rs[k] == init[k];
      }
      if exists k :: 0 <= k < |rs| && c in rs[k].classes {
        var k :| 0 <= k < |rs| && c in rs[k].classes;
        if k < |init| {
          assert init[k] == rs[k];
        }
      }
    }
  }

  /** A class's rule is the declarations of the last block that names it. */
  lemma {:induction false} RulesOfLastWins(rs: seq<Rule>, k: nat, c: string)
    requires k < |rs| && c in rs[k].classes
    requires forall j :: k < j < |rs| ==> c !in rs[j].classes
    ensures c in RulesOf(rs) && RulesOf(rs)[c] == rs[k].declarations
    decreases |rs|
  {
    var init := rs[..|rs| - 1];
    if k < |rs| - 1 {
      RulesOfLastWins(init, k, c);
      assert forall j :: k < j < |init| ==> init[j] == rs[j];
    }
  }

  /** Each block is a selector group without braces, `{`, declarations without `}`, and `}`. */
  lemma CssBlockShape(cssText: string, k: nat)
    requires k < |CssBlocks(cssText)|
    ensures var h := CssBlocks(cssText)[k];
      && h.text == Selector(h) + "{" + h.rep + "}"
      && Selector(h) != [] && Lacks(Selector(h), '{') && Lacks(Selector(h), '}')
      && Lacks(h.rep, '}')
  {
    var h := CssBlocks(cssText)[k];
    RegexSub.FindAllMatches(cssText, BlockMatch, k);
    var u :| BlockMatch(h.text + u) == Some((|h.text|, h.rep));
    BlockMatchShape(h.text + u);
    BlockHit(h.text, u, h.rep, NonBraceRun(h.text + u));
  }

  /** A block match, read back on the matched text alone. */
  lemma BlockHit(x: string, u: string, rep: string, a: nat)
    requires a == NonBraceRun(x + u) && 0 < a && a + 2 + |rep| == |x|
    requires (x + u)[..|x|] == (x + u)[..a] + "{" + rep + "}" && Lacks(rep, '}')
    ensures
      && x == x[..a] + "{" + rep + "}"
      && a == NonBraceRun(x) && Lacks(x[..a], '{') && Lacks(x[..a], '}')
  {
    var t := x + u;
    assert t[..|x|] == x;
    NonBraceRunPrefix(t, |x|);
    assert x[..a] == t[..a];
  }

  lemma BlockMatchShape(t: string)
    requires BlockMatch(t).Some?
    ensures var (n, rep) := BlockMatch(t).value; var a := NonBraceRun(t);
      && 0 < a && a + 2 + |rep| == n
      && t[..n] == t[..a] + "{" + rep + "}"
      && Lacks(rep, '}')
  {
    var a := NonBraceRun(t);
    var b := UpTo(t[a + 1..], '}');
    assert t[a + 1..][..b] == t[a + 1..a + 1 + b];
    assert t[..a + 1 + b + 1] == t[..a] + [t[a]] + t[a + 1..a + 1 + b] + [t[a + 1 + b]];
  }

  /** The brace-free run of a text is found again in any prefix reaching its brace. */
  lemma {:induction false} NonBraceRunPrefix(t: string, n: nat)
    requires NonBraceRun(t) < n <= |t|
    ensures NonBraceRun(t[..n]) == NonBraceRun(t)
    decreases n
  {
    if t[0] != '{' && t[0] != '}' {
      assert t[..n][1..] == t[1..][..n - 1];
      NonBraceRunPrefix(t[1..], n - 1);
    }
  }

  /** A class has a rule exactly when some block of the stylesheet names it. */
  lemma CssRulesKeys(cssText: string, c: string)
    ensures var blocks := CssBlocks(cssText);
      c in CssRules(cssText) <==> exists k :: 0 <= k < |blocks| && c in BlockClasses(blocks[k])
  {
    var blocks := CssBlocks(cssText);
    var rs := CssRuleList(cssText);
    RulesOfKeys(rs, c);
    if c in CssRules(cssText) {
      var k :| 0 <= k < |rs| && c in rs[k].classes;
      assert rs[k] == BlockRule(blocks[k]);
    }
    if exists k :: 0 <= k < |blocks| && c in BlockClasses(blocks[k]) {
      var k :| 0 <= k < |blocks| && c in BlockClasses(blocks[k]);
      assert rs[k] == BlockRule(blocks[k]);
    }
  }

  /** A later block overrides an earlier one: a class's rule comes from the last block naming it. */
  lemma CssRulesLastWins(cssText: string, k: nat, c: string)
    requires var blocks := CssBlocks(cssText);
      && k < |blocks| && c in BlockClasses(blocks[k])
      && forall j :: k < j < |blocks| ==> c !in BlockClasses(blocks[j])
    ensures c in CssRules(cssText) && CssRules(cssText)[c] == Collapse(CssBlocks(cssText)[k].rep)
  {
    var blocks := CssBlocks(cssText);
    var rs := CssRuleList(cssText);
    forall j | k < j < |rs| ensures c !in rs[j].classes {
      assert rs[j] == BlockRule(blocks[j]);
    }
    assert rs[k] == BlockRule(blocks[k]);
    RulesOfLastWins(rs, k, c);
  }
}

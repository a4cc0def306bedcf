/**
 * Readable class names generated from a CSS declaration block, and the
 * mapping from the book's class names to them, numbered where several
 * classes generate the same name.
 */
module ClassNames {
  import opened Wrappers
  import opened Strings
  import Sorting
  import CssClasses
  import CssValues

  // ---------------------------------------------------------------------
  // The font size as a number: `re.findall(r"[\d.]+", size)[0]` and `float()`

  predicate IsNumeralChar(c: char) {
    IsDigit(c) || c == '.'
  }

  predicate IsNumeral(s: string) {
    forall i :: 0 <= i < |s| ==> IsNumeralChar(s[i])
  }

  /** The length of the leading run of digits and dots. */
  function NumeralRun(t: string): (n: nat)
    ensures n <= |t| && IsNumeral(t[..n])
    ensures n < |t| ==> !IsNumeralChar(t[n])
  {
    if t != [] && IsNumeralChar(t[0]) then
      var n := 1 + NumeralRun(t[1..]);
      assert t[..n] == [t[0]] + t[1..][..n - 1];
      n
    else 0
  }

  /** The first maximal run of digits and dots, if any. */
  function FirstNumeral(s: string): (r: Option<string>)
    ensures r.Some? ==> r.value != [] && IsNumeral(r.value)
    decreases |s|
  {
    if s == [] then None
    else if IsNumeralChar(s[0]) then Some(s[..NumeralRun(s)])
    else FirstNumeral(s[1..])
  }

  /** An exact decimal: `digits / 10^places`. */
  datatype Decimal = Decimal(digits: nat, places: nat)

  function Pow10(k: nat): (p: nat)
    ensures p >= 1
  {
    if k == 0 then 1 else 10 * Pow10(k - 1)
  }

  /** The decimal is at least `num / den`. */
  predicate AtLeast(d: Decimal, num: nat, den: nat) {
    d.digits * den >= num * Pow10(d.places)
  }

  /**
   * `float(s)` for a run of digits and dots: at most one dot and at least
   * one digit (`"1."` and `".5"` are numbers, `"."` and `"1.2.3"` are not).
   */
  function ParseDecimal(s: string): (r: Option<Decimal>)
    requires IsNumeral(s)
  {
    var i := UpTo(s, '.');
    if i == |s| then
      if s == [] then None else Some(Decimal(DigitsValue(s), 0))
    else
      var frac := s[i + 1..];
      if !AllDigits(frac) || (i == 0 && frac == []) then None
      else Some(Decimal(DigitsValue(s[..i] + frac), |frac|))
  }

  /** `float()` accepts exactly the runs with a digit and at most one dot. */
  lemma ParseDecimalAccepts(s: string)
    requires IsNumeral(s)
    ensures ParseDecimal(s).Some? <==>
      (exists k :: 0 <= k < |s| && IsDigit(s[k])) &&
      !(exists i, j :: 0 <= i < j < |s| && s[i] == '.' && s[j] == '.')
  {
    var i := UpTo(s, '.');
    if i < |s| {
      var frac := s[i + 1..];
      if !AllDigits(frac) {
        var j :| 0 <= j < |frac| && !IsDigit(frac[j]);
        assert s[i] == '.' && s[i + 1 + j] == '.';
      } else {
        forall k | 0 <= k < |s| && k != i ensures s[k] != '.' {
          if k < i {
            assert s[..i][k] == s[k];
          } else {
            assert frac[k - i - 1] == s[k];
          }
        }
        if i == 0 && frac == [] {
          assert |s| == 1 && !IsDigit(s[0]);
        } else if i > 0 {
          assert IsDigit(s[0]) by { assert s[..i][0] == s[0]; }
        } else {
          assert IsDigit(s[1]) by { assert frac[0] == s[1]; }
        }
      }
    } else if s != [] {
      assert IsDigit(s[0]) by { assert s[..i][0] == s[0]; }
      assert forall a :: 0 <= a < |s| ==> s[a] != '.' by {
        assert forall a :: 0 <= a < |s| ==> s[..i][a] == s[a];
      }
    }
  }

  /** A whole number written out reads back as itself. */
  lemma ParseDecimalOfNat(n: nat)
    ensures IsNumeral(NatToString(n)) && ParseDecimal(NatToString(n)) == Some(Decimal(n, 0))
  {
    var s := NatToString(n);
    NatToStringRoundTrip(n);
  }

  // ---------------------------------------------------------------------
  // _class_name_from_declarations

  /** `value` is set and not empty. */
  predicate Truthy(value: Option<string>) {
    value.Some? && value.value != []
  }

  /** The font size with its spaces removed and `%` spelled `pct`. */
  function SizeToken(fontSize: string): (t: string)
    ensures ' ' !in t && '%' !in t
  {
    var t := Replace(Replace(fontSize, " ", ""), "%", "pct");
    ReplaceRemovesChar(fontSize, ' ', "");
    ReplaceKeepsOut(Replace(fontSize, " ", ""), "%", "pct", ' ');
    ReplaceRemovesChar(Replace(fontSize, " ", ""), '%', "pct");
    t
  }

  predicate IsBoldWeight(weight: string) {
    Contains(weight, "bold") || Contains(weight, "700") || Contains(weight, "800") || Contains(weight, "900")
  }

  predicate IsAlignment(value: string) {
    value == "center" || value == "right" || value == "left" || value == "justify"
  }

  predicate IsTransform(value: string) {
    value == "uppercase" || value == "lowercase" || value == "capitalize"
  }

  /** The declarations' values for the five properties a name is made from. */
  datatype Style = Style(
    fontSize: Option<string>,
    fontWeight: Option<string>,
    fontStyle: Option<string>,
    textAlign: Option<string>,
    textTransform: Option<string>)

  function StyleOf(declarations: string): Style {
    Style(
      CssValues.ParseCssValue(declarations, "font-size"),
      CssValues.ParseCssValue(declarations, "font-weight"),
      CssValues.ParseCssValue(declarations, "font-style"),
      CssValues.ParseCssValue(declarations, "text-align"),
      CssValues.ParseCssValue(declarations, "text-transform"))
  }

  /** Each candidate part, present when its property applies. */
  function SizePart(st: Style): seq<string> {
    if Truthy(st.fontSize) then [SizeToken(st.fontSize.value)] else []
  }

  function WeightPart(st: Style): seq<string> {
    if Truthy(st.fontWeight) && IsBoldWeight(st.fontWeight.value) then ["bold"] else []
  }

  function StylePart(st: Style): seq<string> {
    if Truthy(st.fontStyle) && Contains(st.fontStyle.value, "italic") then ["italic"] else []
  }

  function AlignPart(st: Style): seq<string> {
    if st.textAlign.Some? && IsAlignment(st.textAlign.value) then [st.textAlign.value] else []
  }

  function TransformPart(st: Style): seq<string> {
    if st.textTransform.Some? && IsTransform(st.textTransform.value) then [st.textTransform.value] else []
  }

  /** The name parts, in the order size, weight, style, alignment, transform. */
  function NameParts(st: Style): seq<string> {
    SizePart(st) + WeightPart(st) + StylePart(st) + AlignPart(st) + TransformPart(st)
  }

  /** A font size of at least 18px or 1.2em makes a heading. */
  predicate IsHeadingSize(fontSize: string, value: Decimal) {
    (Contains(fontSize, "px") && AtLeast(value, 18, 1)) || (Contains(fontSize, "em") && AtLeast(value, 12, 10))
  }

  /** `heading` or `text`; a size whose first numeral `float()` refuses raises ValueError. */
  function Base(fontSize: Option<string>): Result<string> {
    if !Truthy(fontSize) then Success("text")
    else
      match FirstNumeral(fontSize.value)
      case None => Success("text")
      case Some(numeral) =>
        match ParseDecimal(numeral)
        case None => Failure(ValueError("could not convert string to float: " + numeral))
        case Some(value) => Success(if IsHeadingSize(fontSize.value, value) then "heading" else "text")
  }

  /** `_class_name_from_declarations` */
  function ClassName(declarations: string): Result<string> {
    var st := StyleOf(declarations);
    var parts := NameParts(st);
    match Base(st.fontSize)
    case Failure(e) => Failure(e)
    case Success(base) => Success(if parts != [] then Join("-", [base] + parts) else base)
  }

  /** The method appends the parts one property at a time, as the source does. */
  method ClassNameFromDeclarations(declarations: string) returns (r: Result<string>)
    ensures r == ClassName(declarations)
  {
    var fontSize := CssValues.ParseCssValue(declarations, "font-size");
    var fontWeight := CssValues.ParseCssValue(declarations, "font-weight");
    var fontStyle := CssValues.ParseCssValue(declarations, "font-style");
    var textAlign := CssValues.ParseCssValue(declarations, "text-align");
    var textTransform := CssValues.ParseCssValue(declarations, "text-transform");
    var st := Style(fontSize, fontWeight, fontStyle, textAlign, textTransform);
    var parts: seq<string> := [];
    if Truthy(fontSize) {
      parts := parts + [SizeToken(fontSize.value)];
    }
    assert parts == SizePart(st);
    if Truthy(fontWeight) && IsBoldWeight(fontWeight.value) {
      parts := parts + ["bold"];
    }
    assert parts == SizePart(st) + WeightPart(st);
    if Truthy(fontStyle) && Contains(fontStyle.value, "italic") {
      parts := parts + ["italic"];
    }
    assert parts == SizePart(st) + WeightPart(st) + StylePart(st);
    if textAlign.Some? && IsAlignment(textAlign.value) {
      parts := parts + [textAlign.value];
    }
    assert parts == SizePart(st) + WeightPart(st) + StylePart(st) + AlignPart(st);
    if textTransform.Some? && IsTransform(textTransform.value) {
      parts := parts + [textTransform.value];
    }
    assert parts == NameParts(st);
    var base := Base(fontSize);
    if base.Failure? {
      return Failure(base.error);
    }
    if parts != [] {
      r := Success(Join("-", [base.value] + parts));
    } else {
      r := Success(base.value);
    }
  }

  /** The name is the base followed by the parts, all joined by `-`; with no parts it is the base alone. */
  lemma ClassNameShape(declarations: string)
    requires ClassName(declarations).Success?
    ensures var st := StyleOf(declarations); var name := ClassName(declarations).value;
      && Base(st.fontSize).Success?
      && name == Join("-", [Base(st.fontSize).value] + NameParts(st))
      && (NameParts(st) == [] ==> name == Base(st.fontSize).value)
      && (NameParts(st) != [] ==> StartsWith(name, Base(st.fontSize).value + "-"))
  {
    var st := StyleOf(declarations);
    var base := Base(st.fontSize).value;
    var parts := NameParts(st);
    if parts != [] {
      var name := Join("-", [base] + parts);
      assert ([base] + parts)[1..] == parts;
      assert name == base + "-" + Join("-", parts);
      assert name[..|base + "-"|] == base + "-";
    }
  }

  /** The only failure is a font-size numeral `float()` refuses. */
  lemma ClassNameFails(declarations: string)
    ensures var fontSize := StyleOf(declarations).fontSize;
      ClassName(declarations).Failure? <==>
        Truthy(fontSize) && FirstNumeral(fontSize.value).Some? && ParseDecimal(FirstNumeral(fontSize.value).value).None?
  {
  }

  lemma NoDotInNat(n: nat, k: nat)
    requires k < |NatToString(n)|
    ensures IsDigit(NatToString(n)[k])
  {
    NatToStringRoundTrip(n);
  }

  /** A whole number of pixels: the numeral is the number, and the class is a heading from 18px. */
  lemma PixelSize(n: nat)
    ensures Base(Some(NatToString(n) + "px")) == Success(if n >= 18 then "heading" else "text")
  {
    var s := NatToString(n);
    var fs := s + "px";
    NumberBeforeUnit(n, "px");
    ParseDecimalOfNat(n);
    assert OccursAt(fs, "px", |s|);
    if n < 18 {
      NoLetterE(n);
    }
  }

  /** A whole number of ems: the class is a heading from 2em (the first whole number at least 1.2). */
  lemma EmSize(n: nat)
    ensures Base(Some(NatToString(n) + "em")) == Success(if n >= 2 then "heading" else "text")
  {
    var s := NatToString(n);
    var fs := s + "em";
    NumberBeforeUnit(n, "em");
    ParseDecimalOfNat(n);
    assert OccursAt(fs, "em", |s|);
    if n < 2 {
      NoLetterP(n);
    }
  }

  /** The first numeral of `n` followed by a unit starting with a letter is `n` written out. */
  lemma NumberBeforeUnit(n: nat, unit: string)
    requires unit != [] && !IsNumeralChar(unit[0])
    ensures FirstNumeral(NatToString(n) + unit) == Some(NatToString(n))
  {
    var s := NatToString(n);
    var t := s + unit;
    NatToStringRoundTrip(n);
    assert IsNumeralChar(t[0]);
    NumeralRunIs(t, |s|);
    assert t[..|s|] == s;
  }

  lemma {:induction false} NumeralRunIs(t: string, k: nat)
    requires k < |t| && IsNumeral(t[..k]) && !IsNumeralChar(t[k])
    ensures NumeralRun(t) == k
    decreases k
  {
    if k > 0 {
      assert IsNumeralChar(t[..k][0]);
      assert t[1..][..k - 1] == t[..k][1..];
      NumeralRunIs(t[1..], k - 1);
    }
  }

  lemma NoLetterE(n: nat)
    ensures !Contains(NatToString(n) + "px", "em")
  {
    var t := NatToString(n) + "px";
    forall i | 0 <= i <= |t| - 2 ensures !OccursAt(t, "em", i) {
      if i < |NatToString(n)| {
        NoDotInNat(n, i);
        assert t[i] == NatToString(n)[i];
      }
      assert t[i..i + 2][0] == t[i];
    }
  }

  lemma NoLetterP(n: nat)
    ensures !Contains(NatToString(n) + "em", "px")
  {
    var t := NatToString(n) + "em";
    forall i | 0 <= i <= |t| - 2 ensures !OccursAt(t, "px", i) {
      if i < |NatToString(n)| {
        NoDotInNat(n, i);
        assert t[i] == NatToString(n)[i];
      }
      assert t[i..i + 2][0] == t[i];
    }
  }

  // ---------------------------------------------------------------------
  // _build_class_mapping

  /** How often `g` occurs in `names`. */
  function Count(names: seq<string>, g: string): (n: nat)
    ensures n <= |names|
  {
    if names == [] then 0
    else Count(names[..|names| - 1], g) + (if names[|names| - 1] == g then 1 else 0)
  }

  /** The `count`-th class generating `g` is called `g`, the next ones `g-2`, `g-3`, .... */
  function Numbered(g: string, count: nat): string {
    if count > 1 then g + "-" + NatToString(count) else g
  }

  /** How a class name is generated from a declaration block. */
  type Generator = string -> Result<string>

  /** The names generated for `keys` in order, or the first key's failure. */
  function GeneratedAll(keys: seq<string>, classToDecls: map<string, string>, gen: Generator): (r: Result<seq<string>>)
    requires forall k :: k in keys ==> k in classToDecls
    ensures r.Success? ==> |r.value| == |keys|
  {
    if keys == [] then Success([])
    else
      match GeneratedAll(keys[..|keys| - 1], classToDecls, gen)
      case Failure(e) => Failure(e)
      case Success(gs) =>
        match gen(classToDecls[keys[|keys| - 1]])
        case Failure(e) => Failure(e)
        case Success(g) => Success(gs + [g])
  }

  /** The name the mapping gives the `i`-th sorted class. */
  function MappedName(gs: seq<string>, i: nat): string
    requires i < |gs|
  {
    Numbered(gs[i], Count(gs[..i + 1], gs[i]))
  }

  /** `m` maps the first `n` sorted classes, and only them, to their numbered names. */
  ghost predicate MapsFirst(m: map<string, string>, keys: seq<string>, gs: seq<string>, n: nat) {
    n <= |keys| && n <= |gs|
    && m.Keys == (set j | 0 <= j < n :: keys[j])
    && forall j :: 0 <= j < n ==> m[keys[j]] == MappedName(gs, j)
  }

  /** The class rules of several stylesheets read in order, a later sheet overriding the earlier ones. */
  function MergedRules(cssTexts: seq<string>): map<string, string> {
    if cssTexts == [] then map[]
    else MergedRules(cssTexts[..|cssTexts| - 1]) + CssClasses.CssRules(cssTexts[|cssTexts| - 1])
  }

  /** A class is in the merged rules exactly when some sheet defines it. */
  lemma MergedRulesKeys(cssTexts: seq<string>, c: string)
    ensures c in MergedRules(cssTexts) <==> exists k :: 0 <= k < |cssTexts| && c in CssClasses.CssRules(cssTexts[k])
  {
    if c in MergedRules(cssTexts) {
      var k := MergedRulesSource(cssTexts, c);
    }
    if exists k :: 0 <= k < |cssTexts| && c in CssClasses.CssRules(cssTexts[k]) {
      var k :| 0 <= k < |cssTexts| && c in CssClasses.CssRules(cssTexts[k]);
      MergedRulesHas(cssTexts, k, c);
    }
  }

  /** A class of the merged rules comes from some sheet. */
  lemma {:induction false} MergedRulesSource(cssTexts: seq<string>, c: string) returns (k: nat)
    requires c in MergedRules(cssTexts)
    ensures k < |cssTexts| && c in CssClasses.CssRules(cssTexts[k])
    decreases |cssTexts|
  {
    var init, last := cssTexts[..|cssTexts| - 1], cssTexts[|cssTexts| - 1];
    if c in CssClasses.CssRules(last) {
      k := |cssTexts| - 1;
    } else {
      k := MergedRulesSource(init, c);
      assert cssTexts[k] == init[k];
    }
  }

  /** Every class of every sheet is in the merged rules. */
  lemma {:induction false} MergedRulesHas(cssTexts: seq<string>, k: nat, c: string)
    requires k < |cssTexts| && c in CssClasses.CssRules(cssTexts[k])
    ensures c in MergedRules(cssTexts)
    decreases |cssTexts|
  {
    if k < |cssTexts| - 1 {
      var init := cssTexts[..|cssTexts| - 1];
      assert init[k] == cssTexts[k];
      MergedRulesHas(init, k, c);
    }
  }

  /** A class defined in several sheets keeps the declarations of the last sheet defining it. */
  lemma {:induction false} MergedRulesLastWins(cssTexts: seq<string>, k: nat, c: string)
    requires k < |cssTexts| && c in CssClasses.CssRules(cssTexts[k])
    requires forall j :: k < j < |cssTexts| ==> c !in CssClasses.CssRules(cssTexts[j])
    ensures c in MergedRules(cssTexts) && MergedRules(cssTexts)[c] == CssClasses.CssRules(cssTexts[k])[c]
    decreases |cssTexts|
  {
    if k < |cssTexts| - 1 {
      var init := cssTexts[..|cssTexts| - 1];
      assert init[k] == cssTexts[k];
      forall j | k < j < |init| ensures c !in CssClasses.CssRules(init[j]) {
        assert init[j] == cssTexts[j];
      }
      MergedRulesLastWins(init, k, c);
    }
  }

  /** The first loop of `_build_class_mapping`: each stylesheet's rules update the dictionary. */
  method CollectRules(cssTexts: seq<string>) returns (classToDecls: map<string, string>)
    ensures classToDecls == MergedRules(cssTexts)
  {
    classToDecls := map[];
    for f := 0 to |cssTexts|
      invariant classToDecls == MergedRules(cssTexts[..f])
    {
      var rules := CssClasses.ParseCssRules(cssTexts[f]);
      assert cssTexts[..f + 1][..f] == cssTexts[..f];
      classToDecls := classToDecls + rules;
    }
    assert cssTexts[..|cssTexts|] == cssTexts;
  }

  /**
   * `m` is the mapping `_build_class_mapping` builds from `classToDecls`:
   * every class, in sorted order, gets its generated name, numbered by how
   * often that name was generated up to it.
   */
  ghost predicate IsClassMapping(classToDecls: map<string, string>, m: map<string, string>) {
    var keys := Sorting.SortedStrings(classToDecls.Keys);
    && GeneratedAll(keys, classToDecls, ClassName).Success?
    && m.Keys == classToDecls.Keys
    && forall i :: 0 <= i < |keys| ==> m[keys[i]] == MappedName(GeneratedAll(keys, classToDecls, ClassName).value, i)
  }

  /** `_build_class_mapping`, given the texts of the stylesheets. */
  method BuildClassMapping(cssTexts: seq<string>) returns (r: Result<map<string, string>>)
    ensures var classToDecls := MergedRules(cssTexts);
      && (r.Failure? ==> GeneratedAll(Sorting.SortedStrings(classToDecls.Keys), classToDecls, ClassName) == Failure(r.error))
      && (r.Success? ==> IsClassMapping(classToDecls, r.value))
  {
    var classToDecls := CollectRules(cssTexts);
    r := NumberClasses(classToDecls, ClassName);
  }

  /** The walk over the sorted class names, counting how often each generated name has been used. */
  method NumberClasses(classToDecls: map<string, string>, gen: Generator) returns (r: Result<map<string, string>>)
    ensures var keys := Sorting.SortedStrings(classToDecls.Keys);
      && (r.Failure? ==> GeneratedAll(keys, classToDecls, gen) == Failure(r.error))
      && (r.Success? ==>
            (&& GeneratedAll(keys, classToDecls, gen).Success?
             && r.value.Keys == classToDecls.Keys
             && forall i :: 0 <= i < |keys| ==> r.value[keys[i]] == MappedName(GeneratedAll(keys, classToDecls, gen).value, i)))
  {
    var keys := Sorting.SortedStrings(classToDecls.Keys);
    Sorting.SortedStringsDistinct(classToDecls.Keys, keys);
    r := NumberKeys(keys, classToDecls, gen);
    if r.Success? {
      MapsAll(r.value, keys, GeneratedAll(keys, classToDecls, gen).value, classToDecls.Keys);
    }
  }

  /** The loop of that walk, over distinct keys in the order given. */
  method NumberKeys(keys: seq<string>, classToDecls: map<string, string>, gen: Generator) returns (r: Result<map<string, string>>)
    requires forall k :: k in keys ==> k in classToDecls
    requires forall a, b :: 0 <= a < b < |keys| ==> keys[a] != keys[b]
    ensures r.Failure? ==> GeneratedAll(keys, classToDecls, gen) == Failure(r.error)
    ensures r.Success? ==>
      && GeneratedAll(keys, classToDecls, gen).Success?
      && MapsFirst(r.value, keys, GeneratedAll(keys, classToDecls, gen).value, |keys|)
  {
    var mapping: map<string, string> := map[];
    var used: map<string, nat> := map[];
    ghost var gs: seq<string> := [];
    MapsNothing(keys);
    for i := 0 to |keys|
      invariant GeneratedAll(keys[..i], classToDecls, gen) == Success(gs)
      invariant forall g :: Uses(used, g) == Count(gs, g)
      invariant MapsFirst(mapping, keys, gs, i)
    {
      var generated := gen(classToDecls[keys[i]]);
      GeneratedStep(keys, classToDecls, gen, i, gs, generated);
      if generated.Failure? {
        FailureStays(keys, classToDecls, gen, i + 1);
        return Failure(generated.error);
      }
      ghost var g := generated.value;
      mapping, used := NumberNext(mapping, used, keys[i], generated.value, keys, gs, i);
      gs := gs + [g];
    }
    assert keys[..|keys|] == keys;
    r := Success(mapping);
  }

  /** One class: count one more use of its generated name and give the class the numbered name. */
  method NumberNext(mapping: map<string, string>, used: map<string, nat>, key: string, g: string,
                    ghost keys: seq<string>, ghost gs: seq<string>, ghost i: nat)
    returns (mapping': map<string, string>, used': map<string, nat>)
    requires i == |gs| && i < |keys| && key == keys[i]
    requires forall a, b :: 0 <= a < b < |keys| ==> keys[a] != keys[b]
    requires forall h :: Uses(used, h) == Count(gs, h)
    requires MapsFirst(mapping, keys, gs, i)
    ensures forall h :: Uses(used', h) == Count(gs + [g], h)
    ensures MapsFirst(mapping', keys, gs + [g], i + 1)
  {
    var count := Uses(used, g) + 1;
    used' := used[g := count];
    MappingStep(gs, g, i);
    var name := Numbered(g, count);
    assert name == MappedName(gs + [g], i);
    MapsFirstStep(mapping, keys, gs, g, i);
    mapping' := mapping[key := name];
  }

  /** `used.get(g, 0)` */
  function Uses(used: map<string, nat>, g: string): nat {
    if g in used then used[g] else 0
  }

  lemma MapsAll(m: map<string, string>, keys: seq<string>, gs: seq<string>, s: set<string>)
    requires keys == Sorting.SortedStrings(s) && MapsFirst(m, keys, gs, |keys|)
    ensures m.Keys == s
  {
    assert forall k :: k in m <==> k in keys;
  }

  lemma MapsNothing(keys: seq<string>)
    ensures MapsFirst(map[], keys, [], 0)
  {
  }

  lemma GeneratedStep(keys: seq<string>, classToDecls: map<string, string>, gen: Generator, i: nat, gs: seq<string>, res: Result<string>)
    requires forall k :: k in keys ==> k in classToDecls
    requires i < |keys| && GeneratedAll(keys[..i], classToDecls, gen) == Success(gs)
    requires res == gen(classToDecls[keys[i]])
    ensures GeneratedAll(keys[..i + 1], classToDecls, gen) == (if res.Failure? then Failure(res.error) else Success(gs + [res.value]))
  {
    assert keys[..i + 1][..i] == keys[..i];
  }

  lemma MapsFirstStep(m: map<string, string>, keys: seq<string>, gs: seq<string>, g: string, i: nat)
    requires MapsFirst(m, keys, gs, i) && i == |gs| && i < |keys|
    requires forall a, b :: 0 <= a < b < |keys| ==> keys[a] != keys[b]
    requires forall j :: 0 <= j < i ==> MappedName(gs + [g], j) == MappedName(gs, j)
    ensures MapsFirst(m[keys[i] := MappedName(gs + [g], i)], keys, gs + [g], i + 1)
  {
    var m' := m[keys[i] := MappedName(gs + [g], i)];
    assert m'.Keys == (set j | 0 <= j < i + 1 :: keys[j]);
  }

  /** Appending a name: counts grow by one for that name only, and earlier entries keep their names. */
  lemma MappingStep(gs: seq<string>, g: string, i: nat)
    requires i == |gs|
    ensures forall h :: Count(gs + [g], h) == Count(gs, h) + (if h == g then 1 else 0)
    ensures MappedName(gs + [g], i) == Numbered(g, Count(gs, g) + 1)
    ensures forall j :: 0 <= j < i ==> MappedName(gs + [g], j) == MappedName(gs, j)
  {
    assert (gs + [g])[..|gs|] == gs;
    assert (gs + [g])[..i + 1] == gs + [g];
    forall j | 0 <= j < i ensures MappedName(gs + [g], j) == MappedName(gs, j) {
      assert (gs + [g])[..j + 1] == gs[..j + 1];
    }
  }

  /** Once a key fails, the whole walk fails with the same error. */
  lemma {:induction false} FailureStays(keys: seq<string>, classToDecls: map<string, string>, gen: Generator, i: nat)
    requires forall k :: k in keys ==> k in classToDecls
    requires i <= |keys| && GeneratedAll(keys[..i], classToDecls, gen).Failure?
    ensures GeneratedAll(keys, classToDecls, gen) == GeneratedAll(keys[..i], classToDecls, gen)
    decreases |keys| - i
  {
    if i < |keys| {
      assert keys[..i + 1][..i] == keys[..i];
      FailureStays(keys, classToDecls, gen, i + 1);
    } else {
      assert keys[..i] == keys;
    }
  }

  /** The first class generating a name gets it bare. */
  lemma FirstGetsBareName(gs: seq<string>, i: nat)
    requires i < |gs| && forall j :: 0 <= j < i ==> gs[j] != gs[i]
    ensures MappedName(gs, i) == gs[i]
  {
    NoEarlierCount(gs[..i], gs[i]);
    assert gs[..i + 1][..i] == gs[..i];
  }

  lemma {:induction false} NoEarlierCount(names: seq<string>, g: string)
    requires forall j :: 0 <= j < |names| ==> names[j] != g
    ensures Count(names, g) == 0
    decreases |names|
  {
    if names != [] {
      NoEarlierCount(names[..|names| - 1], g);
    }
  }

  /** A later class generating the same name gets a higher count. */
  lemma {:induction false} CountGrows(gs: seq<string>, i: nat, j: nat)
    requires i < j < |gs| && gs[i] == gs[j]
    ensures Count(gs[..i + 1], gs[i]) < Count(gs[..j + 1], gs[j])
    decreases j - i
  {
    var s := gs[..j + 1];
    assert s[..|s| - 1] == gs[..j];
    if i < j - 1 {
      CountMonotone(gs, i + 1, j);
    } else {
      assert gs[..j] == gs[..i + 1];
    }
  }

  lemma {:induction false} CountMonotone(gs: seq<string>, a: nat, b: nat)
    requires a <= b <= |gs|
    ensures forall g :: Count(gs[..a], g) <= Count(gs[..b], g)
    decreases b - a
  {
    if a < b {
      CountMonotone(gs, a, b - 1);
      assert gs[..b][..b - 1] == gs[..b - 1];
    }
  }

  /** Index of the last `-` in `s`, or -1. */
  function LastDash(s: string): (i: int)
    ensures -1 <= i < |s|
    ensures i >= 0 ==> s[i] == '-'
    ensures forall j :: i < j < |s| ==> s[j] != '-'
  {
    if s == [] then -1
    else if s[|s| - 1] == '-' then |s| - 1
    else LastDash(s[..|s| - 1])
  }

  /** The name ends in `-` and digits, the shape a numbered name has. */
  predicate EndsWithCount(s: string) {
    LastDash(s) >= 0 && IsDigits(s[LastDash(s) + 1..])
  }

  lemma {:induction false} LastDashIs(s: string, k: nat)
    requires k < |s| && s[k] == '-'
    requires forall j :: k < j < |s| ==> s[j] != '-'
    ensures LastDash(s) == k
    decreases |s|
  {
    if k < |s| - 1 {
      var t := s[..|s| - 1];
      assert forall j :: k < j < |t| ==> t[j] == s[j];
      LastDashIs(t, k);
    }
  }

  /** A numbered name ends in its count. */
  lemma NumberedShape(g: string, count: nat)
    requires count > 1
    ensures LastDash(Numbered(g, count)) == |g|
    ensures Numbered(g, count)[..|g|] == g && Numbered(g, count)[|g| + 1..] == NatToString(count)
    ensures EndsWithCount(Numbered(g, count))
  {
    NatToStringRoundTrip(count);
    DashDigitsShape(g, NatToString(count));
  }

  /** `g`, a dash and a digit string: the last dash is the one added, and digits follow it. */
  lemma DashDigitsShape(g: string, d: string)
    requires IsDigits(d)
    ensures var s := g + "-" + d; LastDash(s) == |g| && s[..|g|] == g && s[|g| + 1..] == d && EndsWithCount(s)
  {
    var s := g + "-" + d;
    forall j | |g| < j < |s| ensures s[j] != '-' {
      assert s[j] == d[j - |g| - 1];
    }
    LastDashIs(s, |g|);
    assert s[|g| + 1..] == d;
  }

  /**
   * Numbering never merges two different (name, count) pairs, as long as
   * no generated name already ends in `-` and digits.
   */
  lemma NumberedInjective(g1: string, c1: nat, g2: string, c2: nat)
    requires c1 >= 1 && c2 >= 1 && !EndsWithCount(g1) && !EndsWithCount(g2)
    requires Numbered(g1, c1) == Numbered(g2, c2)
    ensures g1 == g2 && c1 == c2
  {
    if c1 > 1 && c2 > 1 {
      NumberedShape(g1, c1);
      NumberedShape(g2, c2);
      NatToStringRoundTrip(c1);
      NatToStringRoundTrip(c2);
    } else if c1 > 1 {
      NumberedShape(g1, c1);
    } else if c2 > 1 {
      NumberedShape(g2, c2);
    }
  }

  /** Distinct classes get distinct names, as long as no generated name ends in `-` and digits. */
  lemma MappingInjective(gs: seq<string>, i: nat, j: nat)
    requires i < j < |gs| && forall k :: 0 <= k < |gs| ==> !EndsWithCount(gs[k])
    ensures MappedName(gs, i) != MappedName(gs, j)
  {
    CountPositive(gs, i);
    CountPositive(gs, j);
    if MappedName(gs, i) == MappedName(gs, j) {
      NumberedInjective(gs[i], Count(gs[..i + 1], gs[i]), gs[j], Count(gs[..j + 1], gs[j]));
      CountGrows(gs, i, j);
    }
  }

  lemma CountPositive(gs: seq<string>, i: nat)
    requires i < |gs|
    ensures Count(gs[..i + 1], gs[i]) >= 1
  {
    assert gs[..i + 1][..i] == gs[..i];
  }

  /** Two classes can end up with one name when a generated name already ends in `-2`. */
  lemma NumberedCollision()
    ensures Numbered("text", 2) == Numbered("text-2", 1)
  {
  }
}

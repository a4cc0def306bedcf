/** `_parse_css_value`: the value a declaration block gives a property. */
module CssValues {
  import opened Wrappers
  import opened Strings

  /** What follows `{prop}\s*:` at the start of `t`, ignoring case. */
  function AfterProperty(t: string, prop: string): (r: Option<string>)
    ensures r.Some? ==> |r.value| < |t|
  {
    if !StartsWithNoCase(t, prop) then None
    else
      var t1 := t[|prop|..];
      var w1 := SpaceRun(t1);
      if w1 == |t1| || t1[w1] != ':' then None
      else Some(t1[w1 + 1..])
  }

  /**
   * `\s*([^;]+)` at the start of what follows the colon, the group
   * stripped.  When only whitespace comes before a `;` or the end, `\s*`
   * gives its last whitespace character back to the group.
   */
  function GroupValue(r: string): Option<string> {
    GroupAt(r, SpaceRun(r))
  }

  /** The group when the whitespace run is `w2` characters long. */
  function GroupAt(r: string, w2: nat): Option<string>
    requires w2 <= |r|
  {
    if w2 < |r| && r[w2] != ';' then Some(Strip(r[w2..w2 + UpTo(r[w2..], ';')]))
    else if w2 > 0 then Some(Strip(r[w2 - 1..w2]))
    else None
  }

  /** `{prop}\s*:\s*([^;]+)` at the start of `t`, ignoring case, and the group stripped. */
  function CssValueAt(t: string, prop: string): Option<string> {
    match AfterProperty(t, prop)
    case None => None
    case Some(r) => GroupValue(r)
  }

  /** `_parse_css_value`: the first position where the pattern matches. */
  function ParseCssValue(declarations: string, prop: string): Option<string> {
    FirstValue(declarations, t => CssValueAt(t, prop))
  }

  /** `re.search`: the value read at the first position where there is one. */
  function FirstValue(s: string, at: string -> Option<string>): Option<string>
    decreases |s|
  {
    match at(s)
    case Some(v) => Some(v)
    case None => if s == [] then None else FirstValue(s[1..], at)
  }

  /** The text up to the next `;`, stripped; none when that is empty. */
  function ValueUpToSemicolon(r: string): Option<string> {
    var n := UpTo(r, ';');
    if n == 0 then None else Some(Strip(r[..n]))
  }

  /** The value as written: after `prop` and `:`, up to the next `;`, stripped; none when that is empty. */
  function DeclaredValue(t: string, prop: string): Option<string> {
    match AfterProperty(t, prop)
    case None => None
    case Some(r) => ValueUpToSemicolon(r)
  }

  lemma {:induction false} StripAllSpace(s: string)
    requires AllSpace(s)
    ensures Strip(s) == []
    decreases |s|
  {
    if s != [] {
      StripAllSpace(s[1..]);
    }
  }

  /** The regex, backtracking included, reads exactly the value as written. */
  lemma CssValueAtDeclared(t: string, prop: string)
    ensures CssValueAt(t, prop) == DeclaredValue(t, prop)
  {
    if AfterProperty(t, prop).Some? {
      GroupValueDeclared(AfterProperty(t, prop).value);
    }
  }

  lemma GroupValueDeclared(r: string)
    ensures GroupValue(r) == ValueUpToSemicolon(r)
  {
    var w2 := SpaceRun(r);
    if w2 < |r| && r[w2] != ';' {
      AfterColonGroup(r, w2);
    } else if w2 > 0 {
      AfterColonBlank(r, w2);
    } else {
      AfterColonEmpty(r);
    }
  }

  /** A value starts after the whitespace: the group, stripped, is the text up to `;`, stripped. */
  lemma AfterColonGroup(r: string, w2: nat)
    requires w2 < |r| && AllSpace(r[..w2]) && r[w2] != ';'
    ensures GroupAt(r, w2) == ValueUpToSemicolon(r)
  {
    SpacesLackSemicolon(r[..w2]);
    UpToAfterChar(r, w2, ';');
    var m := UpTo(r[w2..], ';');
    var n := UpTo(r, ';');
    assert r[w2..][0] == r[w2];
    assert 0 < m && n == w2 + m;
    GroupAfterSpaces(r, w2, m);
    var g := Strip(r[w2..w2 + m]);
    assert GroupAt(r, w2) == Some(g);
    assert ValueUpToSemicolon(r) == Some(Strip(r[..n]));
  }

  /** Only whitespace before `;` or the end: the backtracked character strips to nothing, as the text does. */
  lemma AfterColonBlank(r: string, w2: nat)
    requires 0 < w2 <= |r| && AllSpace(r[..w2]) && (w2 == |r| || r[w2] == ';')
    ensures GroupAt(r, w2) == ValueUpToSemicolon(r)
  {
    BlankGroup(r, w2);
    BlankValue(r, w2);
  }

  lemma BlankGroup(r: string, w2: nat)
    requires 0 < w2 <= |r| && AllSpace(r[..w2]) && (w2 == |r| || r[w2] == ';')
    ensures GroupAt(r, w2) == Some([])
  {
    var last := r[w2 - 1..w2];
    assert last[0] == r[..w2][w2 - 1];
    StripAllSpace(last);
  }

  lemma BlankValue(r: string, w2: nat)
    requires 0 < w2 <= |r| && AllSpace(r[..w2]) && (w2 == |r| || r[w2] == ';')
    ensures ValueUpToSemicolon(r) == Some([])
  {
    SpacesLackSemicolon(r[..w2]);
    UpToAfterChar(r, w2, ';');
    UpToAtChar(r[w2..], ';');
    StripAllSpace(r[..w2]);
  }

  /** Nothing at all before `;` or the end: no match, and no value. */
  lemma AfterColonEmpty(r: string)
    requires r == [] || r[0] == ';'
    ensures GroupAt(r, 0) == ValueUpToSemicolon(r) == None
  {
  }

  lemma SpacesLackSemicolon(sp: string)
    requires AllSpace(sp)
    ensures Lacks(sp, ';')
  {
  }

  lemma GroupAfterSpaces(r: string, w2: nat, m: nat)
    requires w2 + m <= |r| && AllSpace(r[..w2])
    ensures Strip(r[w2..w2 + m]) == Strip(r[..w2 + m])
  {
    var x := r[w2..w2 + m];
    assert r[..w2 + m] == r[..w2] + x;
    StripAfterSpaces(r[..w2], x);
  }

  lemma UpToAtChar(t: string, c: char)
    requires t == [] || t[0] == c
    ensures UpTo(t, c) == 0
  {
  }

  lemma {:induction false} UpToAfterChar(r: string, w: nat, c: char)
    requires w <= |r| && Lacks(r[..w], c)
    ensures UpTo(r, c) == w + UpTo(r[w..], c)
    decreases w
  {
    if w > 0 {
      assert r[0] == r[..w][0];
      assert r[1..][..w - 1] == r[..w][1..];
      UpToAfterChar(r[1..], w - 1, c);
      assert r[1..][w - 1..] == r[w..];
    }
  }

  /** A declaration written `prop: value;` is read back as the stripped value. */
  lemma ParseCssValueOfDeclaration(prop: string, value: string, rest: string)
    requires Lacks(value, ';')
    ensures ParseCssValue(prop + ": " + value + ";" + rest, prop) == Some(Strip(value))
  {
    var t := prop + ": " + value + ";" + rest;
    AfterPropertyOf(prop, value + ";" + rest);
    assert t == prop + ": " + (value + ";" + rest);
    ValueOfDeclaration(value, rest);
    CssValueAtDeclared(t, prop);
  }

  lemma AfterPropertyOf(prop: string, tail: string)
    ensures AfterProperty(prop + ": " + tail, prop) == Some(" " + tail)
  {
    var t := prop + ": " + tail;
    assert t[..|prop|] == prop;
    var t1 := t[|prop|..];
    assert t1 == ": " + tail;
    assert SpaceRun(t1) == 0;
    assert t1[1..] == " " + tail;
  }

  lemma ValueOfDeclaration(value: string, rest: string)
    requires Lacks(value, ';')
    ensures ValueUpToSemicolon(" " + (value + ";" + rest)) == Some(Strip(value))
  {
    var r := " " + (value + ";" + rest);
    assert r[..1 + |value|] == " " + value;
    UpToAfterChar(r, 1 + |value|, ';');
    assert r[1 + |value|..][0] == ';';
    StripAfterSpaces(" ", value);
  }

  /** The value found is the one at the first position where the pattern matches. */
  lemma ParseCssValueFirst(declarations: string, prop: string) returns (i: nat)
    requires ParseCssValue(declarations, prop).Some?
    ensures i <= |declarations| && CssValueAt(declarations[i..], prop) == ParseCssValue(declarations, prop)
    ensures forall j :: 0 <= j < i ==> CssValueAt(declarations[j..], prop).None?
  {
    var at := t => CssValueAt(t, prop);
    i := FirstValueFirst(declarations, at);
    forall j | 0 <= j < i ensures CssValueAt(declarations[j..], prop).None? {
      assert at(declarations[j..]).None?;
    }
  }

  lemma {:induction false} FirstValueFirst(s: string, at: string -> Option<string>) returns (i: nat)
    requires FirstValue(s, at).Some?
    ensures i <= |s| && at(s[i..]) == FirstValue(s, at)
    ensures forall j :: 0 <= j < i ==> at(s[j..]).None?
    decreases |s|
  {
    if at(s).Some? {
      i := 0;
      assert s[0..] == s;
    } else {
      var i' := FirstValueFirst(s[1..], at);
      i := i' + 1;
      assert s[1..][i'..] == s[i..];
      forall j | 0 <= j < i ensures at(s[j..]).None? {
        if j > 0 {
          assert s[1..][j - 1..] == s[j..];
        } else {
          assert s[0..] == s;
        }
      }
    }
  }
}

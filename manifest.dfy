/**
 * The chapter manifest (`json/toc.json`) as the downstream stages read it,
 * with the Python value semantics those stages rely on: `entry.get(key)`,
 * truthiness, `a or b`, f-string formatting and `int()`.
 */
module Manifest {
  import opened Wrappers
  import opened Strings

  /** A JSON scalar as `entry.get(key)` returns it: absent or null, an integer, or a string. */
  datatype Value = Null | Int(i: int) | Str(s: string)

  /** Python truthiness of a value. */
  predicate Truthy(v: Value) {
    match v
    case Null => false
    case Int(i) => i != 0
    case Str(s) => s != []
  }

  /** `a or b` */
  function Or(a: Value, b: Value): Value {
    if Truthy(a) then a else b
  }

  /** `f"{v}"` */
  function Format(v: Value): string {
    match v
    case Null => "None"
    case Int(i) => IntToString(i)
    case Str(s) => s
  }

  /** Truthiness of an optional string field. */
  predicate Present(s: Option<string>) {
    s.Some? && s.value != []
  }

  /**
   * One manifest row.  `order` is absent or an integer; the text fields are
   * absent or strings; `chapterNumber` may also be a string, since two stages
   * branch on that case.
   */
  datatype Entry = Entry(
    order: Option<int>,
    chapterNumber: Value,
    chapterTitle: Option<string>,
    chapterPath: Option<string>,
    markdown: Option<string>,
    audio: Option<string>,
    html: Option<string>)

  function OrderValue(e: Entry): Value {
    match e.order
    case Some(i) => Int(i)
    case None => Null
  }

  function TitleValue(e: Entry): Value {
    match e.chapterTitle
    case Some(s) => Str(s)
    case None => Null
  }

  /** `entry.get("chapter_number") or entry.get("order")` */
  function Label(e: Entry): Value {
    Or(e.chapterNumber, OrderValue(e))
  }

  /** `entry.get("chapter_title") or f"Chapter {entry.get('order')}"` */
  function ChapterTitle(e: Entry): string {
    if Present(e.chapterTitle) then e.chapterTitle.value
    else "Chapter " + Format(OrderValue(e))
  }

  /** The audio file name the pipeline gives a chapter: "{label}. {title.strip()}.m4a". */
  function AudioFileName(chapterLabel: Value, title: string): string {
    Format(chapterLabel) + ". " + Strip(title) + ".m4a"
  }

  /** A chapter number that is an int, or a string for which `str.isdigit()` holds, as an int. */
  function IntOrDigits(v: Value): Option<int> {
    match v
    case Int(i) => Some(i)
    case Str(s) => if IsDigits(s) then Some(DigitsValue(s)) else None
    case Null => None
  }

  /** The body of an integer literal: digits, single underscores only between digits. */
  predicate IsUnderscoredDigits(s: string) {
    && s != []
    && IsDigit(s[0]) && IsDigit(s[|s| - 1])
    && (forall i :: 0 <= i < |s| ==> IsDigit(s[i]) || s[i] == '_')
    && (forall i :: 0 <= i < |s| - 1 ==> !(s[i] == '_' && s[i + 1] == '_'))
  }

  function DropUnderscores(s: string): (r: string)
    ensures (forall i :: 0 <= i < |s| ==> IsDigit(s[i]) || s[i] == '_') ==> AllDigits(r)
  {
    if s == [] then [] else (if s[0] == '_' then [] else [s[0]]) + DropUnderscores(s[1..])
  }

  /** `int(s)` for a string: `None` where Python raises ValueError. */
  function ParseInt(s: string): (r: Option<int>)
    ensures IsDigits(s) ==> r == Some(DigitsValue(s))
  {
    DigitStringIsLiteral(s);
    var t := Strip(s);
    var negative := t != [] && t[0] == '-';
    var body := if t != [] && (t[0] == '-' || t[0] == '+') then t[1..] else t;
    if !IsUnderscoredDigits(body) then None
    else
      var n: int := DigitsValue(DropUnderscores(body));
      Some(if negative then -n else n)
  }

  lemma DigitStringIsLiteral(s: string)
    ensures IsDigits(s) ==> Strip(s) == s && IsUnderscoredDigits(s) && DropUnderscores(s) == s
  {
    if IsDigits(s) {
      DigitsUnstripped(s);
      DigitsAreLiteral(s);
      DropUnderscoresOfDigits(s);
    }
  }

  lemma DigitsUnstripped(s: string)
    requires IsDigits(s)
    ensures Strip(s) == s
  {
    StripClean(s);
  }

  lemma DigitsAreLiteral(s: string)
    requires IsDigits(s)
    ensures IsUnderscoredDigits(s)
  {
  }

  lemma {:induction false} DropUnderscoresOfDigits(s: string)
    requires AllDigits(s)
    ensures DropUnderscores(s) == s
    decreases |s|
  {
    if s != [] {
      DropUnderscoresOfDigits(s[1..]);
      assert s == [s[0]] + s[1..];
    }
  }
}

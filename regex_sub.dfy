/**
 * `re.sub` and `re.search` for patterns whose match at a given position is
 * unique: the text is scanned left to right, a match is replaced and
 * skipped whole, and any other character is kept.  A pattern is given as a
 * matcher that says, for the text from some position on, how long the
 * match starting there is and what replaces it.
 */
module RegexSub {
  import opened Wrappers

  /** The length of the match at the start of a text and its replacement, if the pattern matches there. */
  type Matcher = string -> Option<(nat, string)>

  /** A match is never empty and never runs past the text. */
  ghost predicate Sound(m: Matcher) {
    forall t :: m(t).Some? ==> 0 < m(t).value.0 <= |t|
  }

  /** A stretch of the scanned text: a character kept, or a match with its replacement. */
  datatype Piece = Keep(c: char) | Hit(text: string, rep: string)

  /** The scanned text, put back together. */
  function Original(ps: seq<Piece>): string {
    if ps == [] then []
    else (match ps[0] case Keep(c) => [c] case Hit(t, _) => t) + Original(ps[1..])
  }

  /** The text after substitution. */
  function Output(ps: seq<Piece>): string {
    if ps == [] then []
    else (match ps[0] case Keep(c) => [c] case Hit(_, r) => r) + Output(ps[1..])
  }

  /** The left-to-right scan `re.sub` performs. */
  function Scan(s: string, m: Matcher): seq<Piece>
    requires Sound(m)
    decreases |s|
  {
    if s == [] then []
    else
      match m(s)
      case Some(r) => [Hit(s[..r.0], r.1)] + Scan(s[r.0..], m)
      case None => [Keep(s[0])] + Scan(s[1..], m)
  }

  /** `re.sub(pattern, repl, s)` */
  function Sub(s: string, m: Matcher): string
    requires Sound(m)
  {
    Output(Scan(s, m))
  }

  /** `re.search(pattern, s)` finds something. */
  ghost predicate Matches(s: string, m: Matcher) {
    exists i :: 0 <= i <= |s| && m(s[i..]).Some?
  }

  /** The scan loses nothing: its pieces spell out the text. */
  lemma {:induction false} ScanLossless(s: string, m: Matcher)
    requires Sound(m)
    ensures Original(Scan(s, m)) == s
    decreases |s|
  {
    if s != [] {
      match m(s)
      case Some(r) => {
        var rest := Scan(s[r.0..], m);
        assert Scan(s, m) == [Hit(s[..r.0], r.1)] + rest;
        ScanLossless(s[r.0..], m);
        OriginalCons(Hit(s[..r.0], r.1), rest);
        assert s[..r.0] + s[r.0..] == s;
      }
      case None => {
        var rest := Scan(s[1..], m);
        assert Scan(s, m) == [Keep(s[0])] + rest;
        ScanLossless(s[1..], m);
        OriginalCons(Keep(s[0]), rest);
        assert [s[0]] + s[1..] == s;
      }
    }
  }

  lemma OriginalCons(p: Piece, ps: seq<Piece>)
    ensures Original([p] + ps) == (match p case Keep(c) => [c] case Hit(t, _) => t) + Original(ps)
  {
    assert ([p] + ps)[1..] == ps;
  }

  /** Every replaced stretch is a match of the pattern, replaced by that match's replacement. */
  lemma {:induction false} ScanHits(s: string, m: Matcher, i: nat)
    requires Sound(m)
    requires i < |Scan(s, m)| && Scan(s, m)[i].Hit?
    ensures exists u :: m(Scan(s, m)[i].text + u) == Some((|Scan(s, m)[i].text|, Scan(s, m)[i].rep))
    decreases |s|
  {
    var ps := Scan(s, m);
    match m(s)
    case Some(r) => {
      if i == 0 {
        assert s[..r.0] + s[r.0..] == s;
        assert m(ps[0].text + s[r.0..]) == Some((|ps[0].text|, ps[0].rep));
      } else {
        assert ps[i] == Scan(s[r.0..], m)[i - 1];
        ScanHits(s[r.0..], m, i - 1);
      }
    }
    case None => {
      assert ps[i] == Scan(s[1..], m)[i - 1];
      ScanHits(s[1..], m, i - 1);
    }
  }

  /** Where the pattern matches nowhere, substitution changes nothing. */
  lemma {:induction false} NoMatchUnchanged(s: string, m: Matcher)
    requires Sound(m)
    requires forall i :: 0 <= i <= |s| ==> m(s[i..]).None?
    ensures Sub(s, m) == s
    decreases |s|
  {
    if s != [] {
      assert m(s[0..]).None? && s[0..] == s;
      forall i | 0 <= i <= |s[1..]| ensures m(s[1..][i..]).None? {
        assert s[1..][i..] == s[i + 1..];
      }
      NoMatchUnchanged(s[1..], m);
      assert [s[0]] + s[1..] == s;
    }
  }

  /** So substituting only after a successful `re.search` is the same as substituting. */
  lemma GuardedSub(s: string, m: Matcher)
    requires Sound(m)
    ensures (if Matches(s, m) then Sub(s, m) else s) == Sub(s, m)
  {
    if !Matches(s, m) {
      NoMatchUnchanged(s, m);
    }
  }

  /** `re.sub(..., count=1)`: only the first match is replaced. */
  function SubFirst(s: string, m: Matcher): string
    requires Sound(m)
    decreases |s|
  {
    if s == [] then []
    else
      match m(s)
      case Some(r) => r.1 + s[r.0..]
      case None => [s[0]] + SubFirst(s[1..], m)
  }

  /** With no match anywhere, replacing the first match changes nothing. */
  lemma {:induction false} NoMatchFirstUnchanged(s: string, m: Matcher)
    requires Sound(m)
    requires forall i :: 0 <= i <= |s| ==> m(s[i..]).None?
    ensures SubFirst(s, m) == s
    decreases |s|
  {
    if s != [] {
      assert m(s[0..]).None? && s[0..] == s;
      forall i | 0 <= i <= |s[1..]| ensures m(s[1..][i..]).None? {
        assert s[1..][i..] == s[i + 1..];
      }
      NoMatchFirstUnchanged(s[1..], m);
      assert [s[0]] + s[1..] == s;
    }
  }

  /**
   * Replacing the first match keeps everything before the first matching
   * position and everything after that match.
   */
  lemma {:induction false} SubFirstAt(s: string, m: Matcher, i: nat, n: nat, x: string)
    requires Sound(m)
    requires i <= |s| && m(s[i..]) == Some((n, x))
    requires forall j :: 0 <= j < i ==> m(s[j..]).None?
    ensures i + n <= |s| && SubFirst(s, m) == s[..i] + x + s[i + n..]
    decreases i
  {
    if i == 0 {
      assert s[0..] == s && s[..0] == [];
    } else {
      var t := s[1..];
      assert m(s[0..]).None? && s[0..] == s;
      assert SubFirst(s, m) == [s[0]] + SubFirst(t, m);
      NoMatchShifted(s, m, i);
      assert t[i - 1..] == s[i..];
      SubFirstAt(t, m, i - 1, n, x);
      ConsSplice(s, i, n, x);
    }
  }

  lemma NoMatchShifted(s: string, m: Matcher, i: nat)
    requires 0 < i <= |s|
    requires forall j :: 0 <= j < i ==> m(s[j..]).None?
    ensures forall j :: 0 <= j < i - 1 ==> m(s[1..][j..]).None?
  {
    forall j | 0 <= j < i - 1 ensures m(s[1..][j..]).None? {
      assert s[1..][j..] == s[j + 1..];
    }
  }

  lemma ConsSplice(s: string, i: nat, n: nat, x: string)
    requires 0 < i && i + n <= |s|
    ensures [s[0]] + (s[1..][..i - 1] + x + s[1..][i - 1 + n..]) == s[..i] + x + s[i + n..]
  {
    assert [s[0]] + s[1..][..i - 1] == s[..i];
    assert s[1..][i - 1 + n..] == s[i + n..];
  }

  /** The matches among the pieces, in order. */
  function Hits(ps: seq<Piece>): (hs: seq<Piece>)
    ensures forall k :: 0 <= k < |hs| ==> hs[k].Hit?
  {
    if ps == [] then [] else (if ps[0].Hit? then [ps[0]] else []) + Hits(ps[1..])
  }

  /** `re.finditer(pattern, s)`: each match's text, with the replacement standing for its groups. */
  function FindAll(s: string, m: Matcher): seq<Piece>
    requires Sound(m)
  {
    Hits(Scan(s, m))
  }

  lemma {:induction false} HitIndex(ps: seq<Piece>, k: nat) returns (j: nat)
    requires k < |Hits(ps)|
    ensures j < |ps| && ps[j] == Hits(ps)[k]
    decreases |ps|
  {
    if ps[0].Hit? && k == 0 {
      j := 0;
    } else {
      var k' := if ps[0].Hit? then k - 1 else k;
      assert Hits(ps)[k] == Hits(ps[1..])[k'];
      var j' := HitIndex(ps[1..], k');
      j := j' + 1;
    }
  }

  /** Every match `re.finditer` yields is a match of the pattern. */
  lemma FindAllMatches(s: string, m: Matcher, k: nat)
    requires Sound(m) && k < |FindAll(s, m)|
    ensures var h := FindAll(s, m)[k]; exists u :: m(h.text + u) == Some((|h.text|, h.rep))
  {
    var j := HitIndex(Scan(s, m), k);
    ScanHits(s, m, j);
  }

  /** A pattern whose every match is replaced by its own text leaves the text as it was. */
  lemma {:induction false} SubOfOwnText(s: string, m: Matcher)
    requires Sound(m)
    requires forall t :: m(t).Some? ==> m(t).value.1 == t[..m(t).value.0]
    ensures Sub(s, m) == s
    decreases |s|
  {
    if s != [] {
      match m(s)
      case Some(r) => {
        SubOfOwnText(s[r.0..], m);
        assert s[..r.0] + s[r.0..] == s;
      }
      case None => {
        SubOfOwnText(s[1..], m);
        assert [s[0]] + s[1..] == s;
      }
    }
  }

  /** `re.search(pattern, s) is not None`, computed. */
  function Search(s: string, m: Matcher): (found: bool)
    decreases |s|
  {
    m(s).Some? || (s != [] && Search(s[1..], m))
  }

  /** A match at any position is found by the search. */
  lemma {:induction false} SearchFinds(s: string, m: Matcher, i: nat)
    requires i <= |s| && m(s[i..]).Some?
    ensures Search(s, m)
    decreases i
  {
    if i > 0 {
      assert s[1..][i - 1..] == s[i..];
      SearchFinds(s[1..], m, i - 1);
    } else {
      assert s[0..] == s;
    }
  }

  /** The search finds something exactly when the pattern matches somewhere. */
  lemma {:induction false} SearchMatches(s: string, m: Matcher)
    ensures Search(s, m) <==> Matches(s, m)
    decreases |s|
  {
    if Matches(s, m) {
      var i :| 0 <= i <= |s| && m(s[i..]).Some?;
      SearchFinds(s, m, i);
    }
    if Search(s, m) {
      if m(s).Some? {
        assert s[0..] == s;
      } else {
        SearchMatches(s[1..], m);
        var i :| 0 <= i <= |s[1..]| && m(s[1..][i..]).Some?;
        assert s[1..][i..] == s[i + 1..];
      }
    }
  }
}

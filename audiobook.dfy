/**
 * `_build_audiobook`: the manifest sorted by `order`, each entry matched
 * to an audio file by the four-tier cascade, and the two text files for
 * ffmpeg written from the matches.  The file system appears as the set of
 * paths that exist, the audio directory's listing, the cover and OPF
 * lookups' results and a duration for each audio path.
 */
module Audiobook {
  import opened Wrappers
  import opened Strings
  import Paths
  import Manifest
  import AudioIndex
  import AudioNames
  import Ffmetadata

  // ---------------------------------------------------------------------
  // `sorted(entries, key=lambda item: item.get("order", 0))`

  /** `item.get("order", 0)` */
  function OrderKey(e: Manifest.Entry): int {
    if e.order.Some? then e.order.value else 0
  }

  /** Places `e` before the first element whose key is not smaller. */
  function Insert(e: Manifest.Entry, s: seq<Manifest.Entry>): seq<Manifest.Entry> {
    if s == [] || OrderKey(e) <= OrderKey(s[0]) then [e] + s else [s[0]] + Insert(e, s[1..])
  }

  /** Python's `sorted` by the order key: an insertion sort, stable like Timsort. */
  function SortByOrder(s: seq<Manifest.Entry>): seq<Manifest.Entry> {
    if s == [] then [] else Insert(s[0], SortByOrder(s[1..]))
  }

  predicate SortedByOrder(s: seq<Manifest.Entry>) {
    forall i, j :: 0 <= i < j < |s| ==> OrderKey(s[i]) <= OrderKey(s[j])
  }

  /** The entries with order key `k`, in their order. */
  function WithKey(s: seq<Manifest.Entry>, k: int): seq<Manifest.Entry> {
    if s == [] then [] else (if OrderKey(s[0]) == k then [s[0]] else []) + WithKey(s[1..], k)
  }

  lemma {:induction false} InsertMultiset(e: Manifest.Entry, s: seq<Manifest.Entry>)
    ensures multiset(Insert(e, s)) == multiset{e} + multiset(s)
    decreases |s|
  {
    if !(s == [] || OrderKey(e) <= OrderKey(s[0])) {
      InsertMultiset(e, s[1..]);
      assert s == [s[0]] + s[1..];
    }
  }

  lemma PrependSorted(x: Manifest.Entry, t: seq<Manifest.Entry>)
    requires SortedByOrder(t)
    requires forall y :: y in t ==> OrderKey(x) <= OrderKey(y)
    ensures SortedByOrder([x] + t)
  {
    var r := [x] + t;
    forall i, j | 0 <= i < j < |r| ensures OrderKey(r[i]) <= OrderKey(r[j]) {
      assert r[j] == t[j - 1];
      if i > 0 { assert r[i] == t[i - 1]; } else { assert r[j] in t; }
    }
  }

  lemma {:induction false} InsertSorted(e: Manifest.Entry, s: seq<Manifest.Entry>)
    requires SortedByOrder(s)
    ensures SortedByOrder(Insert(e, s))
    decreases |s|
  {
    if s == [] || OrderKey(e) <= OrderKey(s[0]) {
      forall y | y in s ensures OrderKey(e) <= OrderKey(y) {
        var k :| 0 <= k < |s| && s[k] == y;
        if k > 0 { assert OrderKey(s[0]) <= OrderKey(s[k]); }
      }
      PrependSorted(e, s);
    } else {
      var t := s[1..];
      assert SortedByOrder(t) by {
        forall i, j | 0 <= i < j < |t| ensures OrderKey(t[i]) <= OrderKey(t[j]) {
          assert t[i] == s[i + 1] && t[j] == s[j + 1];
        }
      }
      InsertSorted(e, t);
      InsertMultiset(e, t);
      forall y | y in Insert(e, t) ensures OrderKey(s[0]) <= OrderKey(y) {
        assert y in multiset(Insert(e, t));
        if y != e {
          assert y in multiset(t);
          var k :| 0 <= k < |t| && t[k] == y;
          assert s[k + 1] == y;
        }
      }
      PrependSorted(s[0], Insert(e, t));
    }
  }

  lemma {:induction false} InsertWithKey(e: Manifest.Entry, s: seq<Manifest.Entry>, k: int)
    ensures WithKey(Insert(e, s), k) == (if OrderKey(e) == k then [e] else []) + WithKey(s, k)
    decreases |s|
  {
    if s == [] || OrderKey(e) <= OrderKey(s[0]) {
      WithKeyCons(e, s, k);
    } else {
      var t := Insert(e, s[1..]);
      InsertWithKey(e, s[1..], k);
      WithKeyCons(s[0], t, k);
      WithKeyCons(s[0], s[1..], k);
      assert [s[0]] + s[1..] == s;
      if OrderKey(e) == k {
        assert OrderKey(s[0]) != k;
      }
    }
  }

  lemma WithKeyCons(x: Manifest.Entry, t: seq<Manifest.Entry>, k: int)
    ensures WithKey([x] + t, k) == (if OrderKey(x) == k then [x] else []) + WithKey(t, k)
  {
    assert ([x] + t)[1..] == t;
  }

  /** The sorted manifest is ordered by key. */
  lemma {:induction false} SortSorted(s: seq<Manifest.Entry>)
    ensures SortedByOrder(SortByOrder(s))
    decreases |s|
  {
    if s != [] {
      SortSorted(s[1..]);
      InsertSorted(s[0], SortByOrder(s[1..]));
    }
  }

  /** Sorting loses and adds no entry. */
  lemma {:induction false} SortPermutes(s: seq<Manifest.Entry>)
    ensures multiset(SortByOrder(s)) == multiset(s)
    decreases |s|
  {
    if s != [] {
      SortPermutes(s[1..]);
      InsertMultiset(s[0], SortByOrder(s[1..]));
      assert s == [s[0]] + s[1..];
    }
  }

  /** Entries with equal keys keep their manifest order. */
  lemma {:induction false} SortStable(s: seq<Manifest.Entry>, k: int)
    ensures WithKey(SortByOrder(s), k) == WithKey(s, k)
    decreases |s|
  {
    if s != [] {
      SortStable(s[1..], k);
      InsertWithKey(s[0], SortByOrder(s[1..]), k);
    }
  }

  // ---------------------------------------------------------------------
  // The match cascade of `_build_audiobook`

  /** Tier 1: a truthy `audio` value, taken as is or, when relative and missing, under the audio root; only if that file exists. */
  function StoredAudio(e: Manifest.Entry, audioRoot: string, existing: set<string>): Option<string> {
    if !Manifest.Present(e.audio) then None
    else
      var p := e.audio.value;
      var q := if !Paths.IsAbsolute(p) && p !in existing then Paths.Child(audioRoot, p) else p;
      if q in existing then Some(q) else None
  }

  /** Tier 2: the chapter number, an int or a digit string, looked up among the numbered files. */
  function ByChapterNumber(e: Manifest.Entry, byNumber: map<int, string>): Option<string> {
    match e.chapterNumber
    case Int(i) => if i in byNumber then Some(byNumber[i]) else None
    case Str(s) => if IsDigits(s) && DigitsValue(s) in byNumber then Some(byNumber[DigitsValue(s)]) else None
    case Null => None
  }

  /** Tier 3: the order, looked up among the numbered files. */
  function ByOrder(e: Manifest.Entry, byNumber: map<int, string>): Option<string> {
    if e.order.Some? && e.order.value in byNumber then Some(byNumber[e.order.value]) else None
  }

  /** Tier 4: a title with some non-space character, normalised and looked up among the titled files. */
  function ByTitle(e: Manifest.Entry, byTitle: map<string, string>): Option<string> {
    if e.chapterTitle.Some? && Strip(e.chapterTitle.value) != [] && AudioNames.NormalizeTitle(e.chapterTitle.value) in byTitle
    then Some(byTitle[AudioNames.NormalizeTitle(e.chapterTitle.value)])
    else None
  }

  function OrElse(a: Option<string>, b: Option<string>): Option<string> {
    if a.Some? then a else b
  }

  /** The file an entry is narrated from: the first tier that yields one. */
  function Resolve(e: Manifest.Entry, audioRoot: string, existing: set<string>,
                   byNumber: map<int, string>, byTitle: map<string, string>): Option<string> {
    OrElse(StoredAudio(e, audioRoot, existing),
      OrElse(ByChapterNumber(e, byNumber), OrElse(ByOrder(e, byNumber), ByTitle(e, byTitle))))
  }

  /** The entries that found a file, in manifest order. */
  function UsedEntries(entries: seq<Manifest.Entry>, audioRoot: string, existing: set<string>,
                       byNumber: map<int, string>, byTitle: map<string, string>): seq<Manifest.Entry> {
    if entries == [] then []
    else
      var n := |entries| - 1;
      UsedEntries(entries[..n], audioRoot, existing, byNumber, byTitle)
        + (if Resolve(entries[n], audioRoot, existing, byNumber, byTitle).Some? then [entries[n]] else [])
  }

  /** The files they found, aligned with `UsedEntries`. */
  function AudioPaths(entries: seq<Manifest.Entry>, audioRoot: string, existing: set<string>,
                      byNumber: map<int, string>, byTitle: map<string, string>): seq<string> {
    if entries == [] then []
    else
      var n := |entries| - 1;
      var hit := Resolve(entries[n], audioRoot, existing, byNumber, byTitle);
      AudioPaths(entries[..n], audioRoot, existing, byNumber, byTitle) + (if hit.Some? then [hit.value] else [])
  }

  /** The loop of `_build_audiobook` that walks the sorted entries and keeps the matched ones. */
  method Reconcile(entries: seq<Manifest.Entry>, audioRoot: string, existing: set<string>,
                   byNumber: map<int, string>, byTitle: map<string, string>)
    returns (audioPaths: seq<string>, usedEntries: seq<Manifest.Entry>)
    ensures audioPaths == AudioPaths(entries, audioRoot, existing, byNumber, byTitle)
    ensures usedEntries == UsedEntries(entries, audioRoot, existing, byNumber, byTitle)
  {
    audioPaths := [];
    usedEntries := [];
    for i := 0 to |entries|
      invariant audioPaths == AudioPaths(entries[..i], audioRoot, existing, byNumber, byTitle)
      invariant usedEntries == UsedEntries(entries[..i], audioRoot, existing, byNumber, byTitle)
    {
      var entry := entries[i];
      var audioPath := MatchEntry(entry, audioRoot, existing, byNumber, byTitle);
      ReconcileStep(entries, audioRoot, existing, byNumber, byTitle, i);
      if audioPath.None? {
        continue;
      }
      audioPaths := audioPaths + [audioPath.value];
      usedEntries := usedEntries + [entry];
    }
    assert entries[..|entries|] == entries;
  }

  /** The body of that loop: `audio_path` is reassigned tier by tier while it is still None. */
  method MatchEntry(entry: Manifest.Entry, audioRoot: string, existing: set<string>,
                    byNumber: map<int, string>, byTitle: map<string, string>)
    returns (audioPath: Option<string>)
    ensures audioPath == Resolve(entry, audioRoot, existing, byNumber, byTitle)
  {
    var audioValue := entry.audio;
    if !(audioValue.Some? && audioValue.value != []) {
      audioPath := None;
    } else {
      var p := audioValue.value;
      if !Paths.IsAbsolute(p) && p !in existing {
        p := Paths.Child(audioRoot, p);
      }
      if p !in existing {
        audioPath := None;
      } else {
        audioPath := Some(p);
      }
    }
    assert audioPath == StoredAudio(entry, audioRoot, existing);
    if audioPath.None? {
      var chapterNumber := entry.chapterNumber;
      if chapterNumber.Int? && chapterNumber.i in byNumber {
        audioPath := Some(byNumber[chapterNumber.i]);
      } else if chapterNumber.Str? && IsDigits(chapterNumber.s) {
        var n := DigitsValue(chapterNumber.s);
        audioPath := if n in byNumber then Some(byNumber[n]) else None;
      }
      if audioPath.None? {
        var order := entry.order;
        if order.Some? && order.value in byNumber {
          audioPath := Some(byNumber[order.value]);
        }
      }
    }
    assert audioPath == OrElse(StoredAudio(entry, audioRoot, existing),
      OrElse(ByChapterNumber(entry, byNumber), ByOrder(entry, byNumber)));
    if audioPath.None? {
      var title := entry.chapterTitle;
      if title.Some? && Strip(title.value) != [] {
        var key := AudioNames.NormalizeTitle(title.value);
        audioPath := if key in byTitle then Some(byTitle[key]) else None;
      }
    }
  }

  lemma ReconcileStep(entries: seq<Manifest.Entry>, audioRoot: string, existing: set<string>,
                      byNumber: map<int, string>, byTitle: map<string, string>, i: nat)
    requires i < |entries|
    ensures var hit := Resolve(entries[i], audioRoot, existing, byNumber, byTitle);
      && AudioPaths(entries[..i + 1], audioRoot, existing, byNumber, byTitle)
         == AudioPaths(entries[..i], audioRoot, existing, byNumber, byTitle) + (if hit.Some? then [hit.value] else [])
      && UsedEntries(entries[..i + 1], audioRoot, existing, byNumber, byTitle)
         == UsedEntries(entries[..i], audioRoot, existing, byNumber, byTitle) + (if hit.Some? then [entries[i]] else [])
  {
    assert entries[..i + 1][..i] == entries[..i];
  }

  // ---------------------------------------------------------------------
  // What reconciliation promises

  /** The two lists stay aligned: the i-th used entry resolves to the i-th path. */
  lemma {:induction false} MatchesAligned(entries: seq<Manifest.Entry>, audioRoot: string, existing: set<string>,
                                          byNumber: map<int, string>, byTitle: map<string, string>)
    ensures var used := UsedEntries(entries, audioRoot, existing, byNumber, byTitle);
      var paths := AudioPaths(entries, audioRoot, existing, byNumber, byTitle);
      && |used| == |paths|
      && forall i :: 0 <= i < |used| ==> Resolve(used[i], audioRoot, existing, byNumber, byTitle) == Some(paths[i])
    decreases |entries|
  {
    if entries != [] {
      var n := |entries| - 1;
      MatchesAligned(entries[..n], audioRoot, existing, byNumber, byTitle);
    }
  }

  /** An entry is used exactly when it is in the manifest and some tier finds its file. */
  lemma {:induction false} UsedMembership(entries: seq<Manifest.Entry>, audioRoot: string, existing: set<string>,
                                          byNumber: map<int, string>, byTitle: map<string, string>, e: Manifest.Entry)
    ensures e in UsedEntries(entries, audioRoot, existing, byNumber, byTitle)
      <==> e in entries && Resolve(e, audioRoot, existing, byNumber, byTitle).Some?
    decreases |entries|
  {
    if entries != [] {
      var n := |entries| - 1;
      UsedMembership(entries[..n], audioRoot, existing, byNumber, byTitle, e);
      assert entries == entries[..n] + [entries[n]];
    }
  }

  /** `used[i]` is `entries[idx[i]]`, with `idx` strictly increasing. */
  predicate Picks(idx: seq<nat>, used: seq<Manifest.Entry>, entries: seq<Manifest.Entry>) {
    && |idx| == |used|
    && (forall i :: 0 <= i < |idx| ==> idx[i] < |entries| && used[i] == entries[idx[i]])
    && (forall i, j :: 0 <= i < j < |idx| ==> idx[i] < idx[j])
  }

  /** The used entries are a subsequence of the manifest, so they keep its order. */
  lemma {:induction false} UsedIsSubsequence(entries: seq<Manifest.Entry>, audioRoot: string, existing: set<string>,
                                             byNumber: map<int, string>, byTitle: map<string, string>)
    ensures exists idx :: Picks(idx, UsedEntries(entries, audioRoot, existing, byNumber, byTitle), entries)
    decreases |entries|
  {
    if entries == [] {
      assert Picks([], UsedEntries(entries, audioRoot, existing, byNumber, byTitle), entries);
    } else {
      var n := |entries| - 1;
      var init := entries[..n];
      UsedIsSubsequence(init, audioRoot, existing, byNumber, byTitle);
      var used := UsedEntries(init, audioRoot, existing, byNumber, byTitle);
      var idx :| Picks(idx, used, init);
      if Resolve(entries[n], audioRoot, existing, byNumber, byTitle).Some? {
        PicksExtend(idx, used, init, entries);
        assert UsedEntries(entries, audioRoot, existing, byNumber, byTitle) == used + [entries[n]];
        assert Picks(idx + [n], used + [entries[n]], entries);
      } else {
        PicksWiden(idx, used, init, entries);
        assert UsedEntries(entries, audioRoot, existing, byNumber, byTitle) == used;
      }
    }
  }

  lemma PicksWiden(idx: seq<nat>, used: seq<Manifest.Entry>, init: seq<Manifest.Entry>, entries: seq<Manifest.Entry>)
    requires Picks(idx, used, init) && |entries| > 0 && init == entries[..|entries| - 1]
    ensures Picks(idx, used, entries)
  {
    forall i | 0 <= i < |idx| ensures idx[i] < |entries| && used[i] == entries[idx[i]] {
      assert init[idx[i]] == entries[idx[i]];
    }
  }

  lemma PicksExtend(idx: seq<nat>, used: seq<Manifest.Entry>, init: seq<Manifest.Entry>, entries: seq<Manifest.Entry>)
    requires Picks(idx, used, init) && |entries| > 0 && init == entries[..|entries| - 1]
    ensures Picks(idx + [|entries| - 1], used + [entries[|entries| - 1]], entries)
  {
    PicksWiden(idx, used, init, entries);
  }

  /** Sorted entries stay sorted after the unmatched ones are dropped. */
  lemma UsedStaysSorted(entries: seq<Manifest.Entry>, audioRoot: string, existing: set<string>,
                        byNumber: map<int, string>, byTitle: map<string, string>)
    requires SortedByOrder(entries)
    ensures SortedByOrder(UsedEntries(entries, audioRoot, existing, byNumber, byTitle))
  {
    var used := UsedEntries(entries, audioRoot, existing, byNumber, byTitle);
    UsedIsSubsequence(entries, audioRoot, existing, byNumber, byTitle);
    var idx :| Picks(idx, used, entries);
    forall i, j | 0 <= i < j < |used| ensures OrderKey(used[i]) <= OrderKey(used[j]) {
      assert used[i] == entries[idx[i]] && used[j] == entries[idx[j]];
    }
  }

  /** Nothing makes the matching one-to-one: two entries naming the same chapter number share its file. */
  lemma SharedFile(e1: Manifest.Entry, e2: Manifest.Entry, audioRoot: string, existing: set<string>,
                   byNumber: map<int, string>, byTitle: map<string, string>)
    requires !Manifest.Present(e1.audio) && !Manifest.Present(e2.audio)
    requires e1.chapterNumber.Int? && e1.chapterNumber == e2.chapterNumber && e1.chapterNumber.i in byNumber
    ensures AudioPaths([e1, e2], audioRoot, existing, byNumber, byTitle)
      == [byNumber[e1.chapterNumber.i], byNumber[e1.chapterNumber.i]]
  {
    var v := byNumber[e1.chapterNumber.i];
    assert Resolve(e1, audioRoot, existing, byNumber, byTitle) == Some(v);
    assert Resolve(e2, audioRoot, existing, byNumber, byTitle) == Some(v);
    assert [e1, e2][..1] == [e1];
    assert [e1][..0] == [];
    assert AudioPaths([e1], audioRoot, existing, byNumber, byTitle) == [v];
  }

  /** The cascade never invents a file: a hit exists on disk or is one of the indexed files. */
  lemma ResolveFindsKnownFile(e: Manifest.Entry, audioRoot: string, existing: set<string>,
                              byNumber: map<int, string>, byTitle: map<string, string>)
    ensures var hit := Resolve(e, audioRoot, existing, byNumber, byTitle);
      hit.Some? ==> hit.value in existing || hit.value in byNumber.Values || hit.value in byTitle.Values
  {
    var hit := Resolve(e, audioRoot, existing, byNumber, byTitle);
    if StoredAudio(e, audioRoot, existing).None? && hit.Some? {
      var n := ByChapterNumber(e, byNumber);
      if n.Some? {
        match e.chapterNumber
        case Int(i) => assert byNumber[i] in byNumber.Values;
        case Str(s) => assert byNumber[DigitsValue(s)] in byNumber.Values;
      } else if ByOrder(e, byNumber).Some? {
        assert byNumber[e.order.value] in byNumber.Values;
      } else {
        var key := AudioNames.NormalizeTitle(e.chapterTitle.value);
        assert byTitle[key] in byTitle.Values;
      }
    }
  }

  /** Tier 1 wins: a stored `audio` path that exists is used, whatever the chapter number would find. */
  lemma StoredPathWins(e: Manifest.Entry, audioRoot: string, existing: set<string>,
                       byNumber: map<int, string>, byTitle: map<string, string>)
    requires Manifest.Present(e.audio) && e.audio.value in existing
    ensures Resolve(e, audioRoot, existing, byNumber, byTitle) == Some(e.audio.value)
  {
  }

  /** Tier 2: without a usable stored path, an integer chapter number that names a file picks it before order or title. */
  lemma ChapterNumberWins(e: Manifest.Entry, audioRoot: string, existing: set<string>,
                          byNumber: map<int, string>, byTitle: map<string, string>)
    requires !Manifest.Present(e.audio)
    requires e.chapterNumber.Int? && e.chapterNumber.i in byNumber
    ensures Resolve(e, audioRoot, existing, byNumber, byTitle) == Some(byNumber[e.chapterNumber.i])
  {
  }

  /** Tier 3: when the chapter number finds nothing, the order is tried as a file number. */
  lemma OrderFallback(e: Manifest.Entry, audioRoot: string, existing: set<string>,
                      byNumber: map<int, string>, byTitle: map<string, string>)
    requires !Manifest.Present(e.audio)
    requires ByChapterNumber(e, byNumber).None?
    requires e.order.Some? && e.order.value in byNumber
    ensures Resolve(e, audioRoot, existing, byNumber, byTitle) == Some(byNumber[e.order.value])
  {
  }

  /** Tier 4: only when no number matches is the normalised title looked up. */
  lemma TitleFallback(e: Manifest.Entry, audioRoot: string, existing: set<string>,
                      byNumber: map<int, string>, byTitle: map<string, string>)
    requires !Manifest.Present(e.audio)
    requires ByChapterNumber(e, byNumber).None? && ByOrder(e, byNumber).None?
    ensures Resolve(e, audioRoot, existing, byNumber, byTitle) ==
      if e.chapterTitle.Some? && Strip(e.chapterTitle.value) != [] && AudioNames.NormalizeTitle(e.chapterTitle.value) in byTitle
      then Some(byTitle[AudioNames.NormalizeTitle(e.chapterTitle.value)]) else None
  {
  }

  /**
   * An entry with chapter number `n` and no stored path is matched to the
   * first audio file of the sorted listing whose stem carries `n`.
   */
  lemma FirstNumberedFileMatched(e: Manifest.Entry, audioRoot: string, existing: set<string>,
                                 listing: seq<AudioIndex.DirEntry>, byTitle: map<string, string>, i: nat)
    requires !Manifest.Present(e.audio) && e.chapterNumber.Int?
    requires i < |listing| && AudioIndex.NumberKey(listing[i]) == Some(e.chapterNumber.i)
    requires forall j :: 0 <= j < i ==> AudioIndex.NumberKey(listing[j]) != Some(e.chapterNumber.i)
    ensures Resolve(e, audioRoot, existing, AudioIndex.FirstWins(AudioIndex.NumberClaims(listing)), byTitle)
      == Some(listing[i].path)
  {
    AudioIndex.ByNumberFirstWins(listing, i, e.chapterNumber.i);
  }

  // ---------------------------------------------------------------------
  // `_build_audiobook`

  /** What `_find_opf` and `_load_opf_metadata` deliver: no OPF file, one that does not parse, or its title text and creator texts. */
  datatype Opf = NoOpf | InvalidOpf | Opf(titleText: Option<string>, creatorTexts: seq<string>)

  /** `_load_opf_metadata`'s title: the stripped text, when there is any text. */
  function OpfTitle(titleText: Option<string>): Option<string> {
    if titleText.Some? && titleText.value != [] then Some(Strip(titleText.value)) else None
  }

  /** `_load_opf_metadata`'s creators: the stripped texts that are not blank, in document order. */
  function Creators(texts: seq<string>): (cs: seq<string>)
    ensures forall k :: 0 <= k < |cs| ==> cs[k] != [] && cs[k] == Strip(cs[k])
  {
    if texts == [] then []
    else
      var last := Strip(texts[|texts| - 1]);
      var init := Creators(texts[..|texts| - 1]);
      if last == [] then init
      else
        StripStripped(texts[|texts| - 1]);
        init + [last]
  }

  lemma StripStripped(s: string)
    ensures Strip(Strip(s)) == Strip(s)
  {
    var t := Strip(s);
    if t != [] {
      StripClean(t);
    }
  }

  /** The book title: the OPF title when it is not blank, else the humanised stem. */
  function BookTitle(stem: string, opf: Opf): string {
    if opf.Opf? && OpfTitle(opf.titleText).Some? && OpfTitle(opf.titleText).value != []
    then OpfTitle(opf.titleText).value
    else AudioNames.HumanizeSpec(stem)
  }

  /** The author: the creators joined by " & ", when there are any. */
  function Author(opf: Opf): Option<string> {
    if opf.Opf? && Creators(opf.creatorTexts) != [] then Some(Join(" & ", Creators(opf.creatorTexts))) else None
  }

  /** Where the audiobook goes, and the two files ffmpeg reads. */
  datatype Plan = Plan(output: string, cover: string, concatList: string, chapters: string)

  /** The file system as `_build_audiobook` consults it. */
  datatype Book = Book(
    toc: Option<seq<Manifest.Entry>>,       // toc.json, when it exists
    audioDirExists: bool,
    listing: seq<AudioIndex.DirEntry>,      // the audio directory, sorted by path
    existing: set<string>,                  // the paths that exist
    cover: Option<string>,                  // what `_find_cover` returns
    opf: Opf,
    duration: string -> nat)                // what ffprobe reports, in milliseconds

  /** The sorted manifest's matched entries and their files, as the loop collects them. */
  function Matched(book: Book, audioRoot: string): (m: (seq<Manifest.Entry>, seq<string>))
    requires book.toc.Some?
    ensures |m.0| == |m.1|
  {
    var entries := SortByOrder(book.toc.value);
    var byNumber := if book.audioDirExists then AudioIndex.FirstWins(AudioIndex.NumberClaims(book.listing)) else map[];
    var byTitle := if book.audioDirExists then AudioIndex.FirstWins(AudioIndex.TitleClaims(book.listing)) else map[];
    MatchesAligned(entries, audioRoot, book.existing, byNumber, byTitle);
    (UsedEntries(entries, audioRoot, book.existing, byNumber, byTitle),
     AudioPaths(entries, audioRoot, book.existing, byNumber, byTitle))
  }

  function Durations(paths: seq<string>, duration: string -> nat): (ds: seq<nat>)
    ensures |ds| == |paths|
  {
    seq(|paths|, i requires 0 <= i < |paths| => duration(paths[i]))
  }

  /**
   * `_build_audiobook` up to the ffmpeg call: the manifest must exist, at
   * least one entry must find audio and a cover must exist; then the
   * concat list and the chapters file are written from the matches.  The
   * concat list names each file resolved against the working directory `cwd`.
   */
  method BuildAudiobook(stem: string, baseDir: string, output: Option<string>, book: Book, cwd: string)
    returns (r: Result<Plan>)
    ensures book.toc.None? ==> r == Failure(FileNotFound("toc.json"))
    ensures book.toc.Some? && Matched(book, Paths.Child(Paths.Child(baseDir, stem), "audio")).1 == [] ==>
      r == Failure(FileNotFound("audio files"))
    ensures book.toc.Some? && Matched(book, Paths.Child(Paths.Child(baseDir, stem), "audio")).1 != [] && book.cover.None? ==>
      r == Failure(FileNotFound("cover image"))
    ensures r.Success? ==>
      var audioRoot := Paths.Child(Paths.Child(baseDir, stem), "audio");
      var (used, paths) := Matched(book, audioRoot);
      var title := BookTitle(stem, book.opf);
      && book.toc.Some? && paths != [] && book.cover.Some?
      && r.value.cover == book.cover.value
      && r.value.output == (if output.Some? then output.value else Paths.Child(audioRoot, title + ".m4b"))
      && r.value.concatList == Join("\n", Ffmetadata.ConcatLines(Ffmetadata.Resolved(paths, cwd))) + "\n"
      && r.value.chapters == Join("\n", Ffmetadata.HeaderLines(title, Author(book.opf))
           + Ffmetadata.RenderChapters(Ffmetadata.Chapters(used, paths, Durations(paths, book.duration)))) + "\n"
    ensures book.toc.Some? && Matched(book, Paths.Child(Paths.Child(baseDir, stem), "audio")).1 != [] && book.cover.Some? ==>
      r.Success?
  {
    var bookDir := Paths.Child(baseDir, stem);
    if book.toc.None? {
      return Failure(FileNotFound("toc.json"));
    }
    var entries := SortByOrder(book.toc.value);
    var audioRoot := Paths.Child(bookDir, "audio");
    var byNumber, byTitle := AudioIndex.IndexAudioFiles(book.audioDirExists, book.listing);
    var audioPaths, usedEntries := Reconcile(entries, audioRoot, book.existing, byNumber, byTitle);
    if audioPaths == [] {
      return Failure(FileNotFound("audio files"));
    }
    var bookTitle := AudioNames.HumanizeStem(stem);
    if book.cover.None? {
      return Failure(FileNotFound("cover image"));
    }
    var author: Option<string> := None;
    match book.opf {
      case NoOpf =>
      case InvalidOpf =>
      case Opf(titleText, creatorTexts) =>
        var opfTitle := OpfTitle(titleText);
        var creators := Creators(creatorTexts);
        if opfTitle.Some? && opfTitle.value != [] {
          bookTitle := opfTitle.value;
        }
        if creators != [] {
          author := Some(Join(" & ", creators));
        }
    }
    assert bookTitle == BookTitle(stem, book.opf);
    assert author == Author(book.opf);
    var out := if output.Some? then output.value else Paths.Child(audioRoot, bookTitle + ".m4b");
    var concat := Ffmetadata.BuildConcatList(audioPaths, cwd);
    var durations := Durations(audioPaths, book.duration);
    MatchesAligned(entries, audioRoot, book.existing, byNumber, byTitle);
    var chapters := Ffmetadata.BuildFfmetadata(usedEntries, audioPaths, durations, bookTitle, author);
    return Success(Plan(out, book.cover.value, concat, chapters.value));
  }
}

/** The last two steps of `processSpeechText`: placing pause markers at sentence and
    word boundaries of the marked-up text, and cutting the result into sentences. */
module SpeechText {
  import opened JsText
  import Sorting

  /** A pause of the analysis: its start time and the attribute text of its span
      (`data-timestamp`, `data-type`, `data-duration`), whose number formatting is not
      part of this model. */
  datatype Pause = Pause(start: real, attributes: string)

  /** The span inserted for the i-th pause by start time. */
  function PauseMarkup(i: nat, p: Pause): string
  {
    "<span class=\"highlight highlight-pause pause" + NatToString(i + 1) + "\"" + p.attributes + ">...</span>"
  }

  predicate Ascending(ps: seq<nat>)
  {
    forall i, j :: 0 <= i < j < |ps| ==> ps[i] < ps[j]
  }

  // ---------------------------------------------------------------------------
  // Candidate offsets
  // ---------------------------------------------------------------------------

  /** The offset just past the i-th separator when pieces are joined with separators of
      length `sepLen`. */
  function PrefixLen(parts: seq<string>, sepLen: nat, i: nat): (r: nat)
    requires i <= |parts|
    ensures i > 0 ==> r >= sepLen
  {
    if i == 0 then 0 else PrefixLen(parts, sepLen, i - 1) + |parts[i - 1]| + sepLen
  }

  lemma {:induction false} PrefixLenGrows(parts: seq<string>, sepLen: nat, i: nat, j: nat)
    requires sepLen > 0 && i < j <= |parts|
    ensures PrefixLen(parts, sepLen, i) < PrefixLen(parts, sepLen, j)
    decreases j
  {
    if i < j - 1 {
      PrefixLenGrows(parts, sepLen, i, j - 1);
    }
  }

  lemma {:induction false} PrefixLenCons(a: string, parts: seq<string>, sepLen: nat, i: nat)
    requires i <= |parts|
    ensures PrefixLen([a] + parts, sepLen, i + 1) == |a| + sepLen + PrefixLen(parts, sepLen, i)
  {
    if i > 0 {
      PrefixLenCons(a, parts, sepLen, i - 1);
      assert ([a] + parts)[i] == parts[i - 1];
    }
  }

  /** In a string split on `sep`, the k-th separator ends exactly at the prefix length
      of the first k + 1 pieces. */
  lemma {:induction false} SeparatorAt(s: string, sep: string, k: nat)
    requires |sep| > 0 && k < |Split(s, sep)| - 1
    ensures PrefixLen(Split(s, sep), |sep|, k + 1) <= |s|
    ensures s[PrefixLen(Split(s, sep), |sep|, k + 1) - |sep|..PrefixLen(Split(s, sep), |sep|, k + 1)] == sep
    decreases |s|
  {
    var i, tail := SplitHead(s, sep);
    var tparts := Split(tail, sep);
    assert |tparts| == |Split(s, sep)| - 1;
    if k > 0 {
      SeparatorAt(tail, sep, k - 1);
    }
    SeparatorCons(s, sep, i, tparts, k);
  }

  lemma SplitHead(s: string, sep: string) returns (i: nat, tail: string)
    requires |sep| > 0 && |Split(s, sep)| > 1
    ensures OccursAt(s, sep, i) && tail == s[i + |sep|..] && |tail| < |s|
    ensures Split(s, sep) == [s[..i]] + Split(tail, sep)
  {
    i := IndexOf(s, sep, 0);
    tail := s[i + |sep|..];
  }

  lemma SeparatorCons(s: string, sep: string, i: nat, tparts: seq<string>, k: nat)
    requires OccursAt(s, sep, i) && k <= |tparts|
    requires k > 0 ==> PrefixLen(tparts, |sep|, k) <= |s| - i - |sep|
    requires k > 0 ==> s[i + |sep|..][PrefixLen(tparts, |sep|, k) - |sep|..PrefixLen(tparts, |sep|, k)] == sep
    ensures PrefixLen([s[..i]] + tparts, |sep|, k + 1) <= |s|
    ensures s[PrefixLen([s[..i]] + tparts, |sep|, k + 1) - |sep|..PrefixLen([s[..i]] + tparts, |sep|, k + 1)] == sep
  {
    PrefixLenCons(s[..i], tparts, |sep|, k);
    if k > 0 {
      var e := PrefixLen(tparts, |sep|, k);
      SliceOfSuffix(s, i + |sep|, e - |sep|, e);
    }
  }

  lemma SliceOfSuffix(s: string, d: nat, a: nat, b: nat)
    requires d <= |s| && a <= b <= |s| - d
    ensures s[d..][a..b] == s[d + a..d + b]
  {
  }

  /** `text[p - 1] == '.'` and `text[p] == ' '`: right after the period of a ". ". */
  predicate SentenceBoundary(text: string, p: nat)
  {
    0 < p < |text| && text[p - 1] == '.' && text[p] == ' '
  }

  /** Right after a space. */
  predicate WordBoundary(text: string, p: nat)
  {
    0 < p <= |text| && text[p - 1] == ' '
  }

  /** The k-th sentence candidate: one before the end of the k-th ". ". */
  function SentenceOffset(text: string, k: nat): nat
    requires k < |Split(text, ". ")| - 1
  {
    PrefixLen(Split(text, ". "), 2, k + 1) - 1
  }

  /** The k-th word candidate: the end of the k-th " ". */
  function WordOffset(text: string, k: nat): nat
    requires k < |Split(text, " ")| - 1
  {
    PrefixLen(Split(text, " "), 1, k + 1)
  }

  lemma SentenceOffsetBoundary(text: string, k: nat)
    requires k < |Split(text, ". ")| - 1
    ensures SentenceBoundary(text, SentenceOffset(text, k))
  {
    SeparatorAt(text, ". ", k);
    var e := PrefixLen(Split(text, ". "), 2, k + 1);
    assert text[e - 2..e][0] == '.' && text[e - 2..e][1] == ' ';
  }

  lemma WordOffsetBoundary(text: string, k: nat)
    requires k < |Split(text, " ")| - 1
    ensures WordBoundary(text, WordOffset(text, k))
  {
    SeparatorAt(text, " ", k);
    var e := PrefixLen(Split(text, " "), 1, k + 1);
    assert text[e - 1..e][0] == ' ';
  }

  function MinNat(a: nat, b: nat): nat
  {
    if a <= b then a else b
  }

  /** The sentence pass: one offset per ". " and no more than there are pauses. */
  method SentenceOffsets(text: string, pauseCount: nat) returns (positions: seq<nat>)
    ensures |positions| == MinNat(|Split(text, ". ")| - 1, pauseCount)
    ensures forall k :: 0 <= k < |positions| ==> positions[k] == SentenceOffset(text, k)
  {
    var chunks := Split(text, ". ");
    var current := 0;
    positions := [];
    var i := 0;
    while i < |chunks| - 1 && i < pauseCount
      invariant 0 <= i <= MinNat(|chunks| - 1, pauseCount)
      invariant current == PrefixLen(chunks, 2, i)
      invariant |positions| == i
      invariant forall k :: 0 <= k < i ==> positions[k] == SentenceOffset(text, k)
    {
      current := current + |chunks[i]| + 2;
      positions := positions + [current - 1];
      i := i + 1;
    }
  }

  /** The word pass from candidate k on: the candidate is taken unless the offset just
      before it is already taken, until there are as many offsets as pauses. */
  function Extend(text: string, positions: seq<nat>, k: nat, pauseCount: nat): seq<nat>
    decreases |Split(text, " ")| - k
  {
    if k >= |Split(text, " ")| - 1 || |positions| >= pauseCount then positions
    else
      var c := WordOffset(text, k);
      Extend(text, if c - 1 in positions then positions else positions + [c], k + 1, pauseCount)
  }

  method WordOffsets(text: string, positions: seq<nat>, pauseCount: nat) returns (result: seq<nat>)
    ensures result == Extend(text, positions, 0, pauseCount)
  {
    var words := Split(text, " ");
    var current := 0;
    result := positions;
    var i := 0;
    while i < |words| - 1 && |result| < pauseCount
      invariant 0 <= i <= |words|
      invariant current == PrefixLen(words, 1, i)
      invariant Extend(text, result, i, pauseCount) == Extend(text, positions, 0, pauseCount)
    {
      current := current + |words[i]| + 1;
      if current - 1 !in result {
        result := result + [current];
      }
      i := i + 1;
    }
  }

  /** `[...new Set(s)]`: first occurrences, in order. */
  function Dedupe(s: seq<nat>): seq<nat>
  {
    if s == [] then []
    else
      var d := Dedupe(s[..|s| - 1]);
      if s[|s| - 1] in d then d else d + [s[|s| - 1]]
  }

  lemma {:induction false} DedupeFacts(s: seq<nat>)
    ensures forall x :: x in Dedupe(s) <==> x in s
    ensures Sorting.Unique(Dedupe(s))
    ensures |Dedupe(s)| <= |s|
  {
    if s != [] {
      DedupeFacts(s[..|s| - 1]);
      assert s == s[..|s| - 1] + [s[|s| - 1]];
    }
  }

  function NatKey(p: nat): real
  {
    p as real
  }

  /** The first sentence candidates, at most one per pause. */
  function SentencePass(text: string, pauseCount: nat): (r: seq<nat>)
    ensures |r| == MinNat(|Split(text, ". ")| - 1, pauseCount)
    ensures forall k :: 0 <= k < |r| ==> r[k] == SentenceOffset(text, k)
  {
    var n := MinNat(|Split(text, ". ")| - 1, pauseCount);
    seq(n, k requires 0 <= k < n => SentenceOffset(text, k))
  }

  /** The sentence candidates followed by the word candidates, when those are needed. */
  function RawOffsets(text: string, pauseCount: nat): seq<nat>
  {
    var sentencePass := SentencePass(text, pauseCount);
    if |sentencePass| < pauseCount then Extend(text, sentencePass, 0, pauseCount) else sentencePass
  }

  /** The offsets of `processSpeechText` before insertion: collected, de-duplicated,
      sorted and truncated to the number of pauses. */
  function PlannedOffsets(text: string, pauseCount: nat): seq<nat>
  {
    var sorted := Sorting.SortByKey(Dedupe(RawOffsets(text, pauseCount)), NatKey);
    sorted[..MinNat(|sorted|, pauseCount)]
  }

  method PauseOffsets(text: string, pauseCount: nat) returns (positions: seq<nat>)
    ensures positions == PlannedOffsets(text, pauseCount)
  {
    positions := SentenceOffsets(text, pauseCount);
    assert positions == SentencePass(text, pauseCount);
    if |positions| < pauseCount {
      positions := WordOffsets(text, positions, pauseCount);
    }
    positions := Dedupe(positions);
    positions := Sorting.SortByKey(positions, NatKey);
    positions := positions[..MinNat(|positions|, pauseCount)];
  }

  lemma SentencePassFacts(text: string, pauseCount: nat)
    ensures Ascending(SentencePass(text, pauseCount))
    ensures forall p :: p in SentencePass(text, pauseCount) ==> SentenceBoundary(text, p)
  {
    var sp := SentencePass(text, pauseCount);
    forall i, j | 0 <= i < j < |sp| ensures sp[i] < sp[j] {
      PrefixLenGrows(Split(text, ". "), 2, i + 1, j + 1);
    }
    forall p | p in sp ensures SentenceBoundary(text, p) {
      var k :| 0 <= k < |sp| && sp[k] == p;
      SentenceOffsetBoundary(text, k);
    }
  }

  lemma {:induction false} ExtendLength(text: string, positions: seq<nat>, k: nat, pauseCount: nat)
    requires |positions| <= pauseCount
    ensures |positions| <= |Extend(text, positions, k, pauseCount)| <= pauseCount
    decreases |Split(text, " ")| - k
  {
    if !(k >= |Split(text, " ")| - 1 || |positions| >= pauseCount) {
      var c := WordOffset(text, k);
      ExtendLength(text, if c - 1 in positions then positions else positions + [c], k + 1, pauseCount);
    }
  }

  /** The word pass keeps the offsets it was given, and adds only offsets right after a
      space whose preceding offset was not taken before. */
  lemma {:induction false} ExtendAdds(text: string, positions: seq<nat>, k: nat, pauseCount: nat)
    ensures |positions| <= |Extend(text, positions, k, pauseCount)|
    ensures Extend(text, positions, k, pauseCount)[..|positions|] == positions
    ensures forall j :: |positions| <= j < |Extend(text, positions, k, pauseCount)| ==>
      WordBoundary(text, Extend(text, positions, k, pauseCount)[j]) &&
      Extend(text, positions, k, pauseCount)[j] - 1 !in positions
    decreases |Split(text, " ")| - k
  {
    if !(k >= |Split(text, " ")| - 1 || |positions| >= pauseCount) {
      var c := WordOffset(text, k);
      if c - 1 in positions {
        ExtendAdds(text, positions, k + 1, pauseCount);
      } else {
        ExtendAddsOne(text, positions, k, pauseCount, c);
      }
    }
  }

  lemma ExtendAddsOne(text: string, positions: seq<nat>, k: nat, pauseCount: nat, c: nat)
    requires k < |Split(text, " ")| - 1 && |positions| < pauseCount
    requires c == WordOffset(text, k) && c - 1 !in positions
    ensures |positions| <= |Extend(text, positions, k, pauseCount)|
    ensures Extend(text, positions, k, pauseCount)[..|positions|] == positions
    ensures forall j :: |positions| <= j < |Extend(text, positions, k, pauseCount)| ==>
      WordBoundary(text, Extend(text, positions, k, pauseCount)[j]) &&
      Extend(text, positions, k, pauseCount)[j] - 1 !in positions
    decreases |Split(text, " ")| - k, 0
  {
    var next := positions + [c];
    ExtendAdds(text, next, k + 1, pauseCount);
    WordOffsetBoundary(text, k);
    var e := Extend(text, next, k + 1, pauseCount);
    assert e[..|next|][..|positions|] == positions;
    forall j | |next| <= j < |e| ensures e[j] - 1 !in positions {
      assert e[j] - 1 !in next;
    }
    assert e[..|next|][|positions|] == c;
  }

  lemma RawOffsetsFacts(text: string, pauseCount: nat)
    ensures |RawOffsets(text, pauseCount)| <= pauseCount
    ensures forall p :: p in SentencePass(text, pauseCount) ==> p in RawOffsets(text, pauseCount)
    ensures forall p :: p in RawOffsets(text, pauseCount) ==>
      p in SentencePass(text, pauseCount) ||
      (WordBoundary(text, p) && p - 1 !in SentencePass(text, pauseCount))
  {
    var sp := SentencePass(text, pauseCount);
    if |sp| < pauseCount {
      ExtendLength(text, sp, 0, pauseCount);
      ExtendAdds(text, sp, 0, pauseCount);
      var raw := Extend(text, sp, 0, pauseCount);
      forall p | p in sp ensures p in raw {
        var k :| 0 <= k < |sp| && sp[k] == p;
        assert raw[..|sp|][k] == p;
      }
      forall p | p in raw ensures p in sp || (WordBoundary(text, p) && p - 1 !in sp) {
        var j :| 0 <= j < |raw| && raw[j] == p;
        if j < |sp| {
          assert raw[..|sp|][j] == p;
        }
      }
    }
  }

  lemma RawMember(text: string, pauseCount: nat, p: nat)
    requires p in RawOffsets(text, pauseCount) && p !in SentencePass(text, pauseCount)
    ensures WordBoundary(text, p) && p - 1 !in SentencePass(text, pauseCount)
  {
    RawOffsetsFacts(text, pauseCount);
  }

  /** Sorting the de-duplicated offsets gives them in ascending order without repetition. */
  lemma SortedAscending(raw: seq<nat>)
    ensures Ascending(Sorting.SortByKey(Dedupe(raw), NatKey))
  {
    var d := Dedupe(raw);
    var r := Sorting.SortByKey(d, NatKey);
    DedupeFacts(raw);
    Sorting.SortSorted(d, NatKey);
    Sorting.SortPermutation(d, NatKey);
    Sorting.UniquePermutation(d, r);
    forall i, j | 0 <= i < j < |r| ensures r[i] < r[j] {
      assert NatKey(r[i]) <= NatKey(r[j]);
    }
  }

  /** ... and keeps exactly the collected offsets. */
  lemma SortedMembers(raw: seq<nat>)
    ensures |Sorting.SortByKey(Dedupe(raw), NatKey)| <= |raw|
    ensures forall p :: p in Sorting.SortByKey(Dedupe(raw), NatKey) <==> p in raw
  {
    var d := Dedupe(raw);
    var r := Sorting.SortByKey(d, NatKey);
    DedupeFacts(raw);
    Sorting.SortPermutation(d, NatKey);
    assert |r| == |multiset(r)| == |multiset(d)| == |d|;
    forall p ensures p in r <==> p in d {
      assert p in r <==> p in multiset(r);
      assert p in d <==> p in multiset(d);
    }
  }

  lemma PlannedIsSorted(text: string, pauseCount: nat)
    ensures PlannedOffsets(text, pauseCount) == Sorting.SortByKey(Dedupe(RawOffsets(text, pauseCount)), NatKey)
  {
    RawOffsetsFacts(text, pauseCount);
    SortedMembers(RawOffsets(text, pauseCount));
  }

  /** The pause offsets are ascending without repetition and never more than the
      pauses; every sentence candidate that fits among the pauses is taken, and every
      other offset lies right after a space whose preceding offset is not a sentence
      offset. */
  lemma PlannedOffsetsMeaning(text: string, pauseCount: nat)
    ensures Ascending(PlannedOffsets(text, pauseCount))
    ensures |PlannedOffsets(text, pauseCount)| <= pauseCount
    ensures forall p :: p in SentencePass(text, pauseCount) ==> p in PlannedOffsets(text, pauseCount)
    ensures forall p :: p in PlannedOffsets(text, pauseCount) ==>
      SentenceBoundary(text, p) ||
      (WordBoundary(text, p) && p - 1 !in SentencePass(text, pauseCount))
  {
    PlannedIsSorted(text, pauseCount);
    RawOffsetsFacts(text, pauseCount);
    SortedAscending(RawOffsets(text, pauseCount));
    SortedMembers(RawOffsets(text, pauseCount));
    SentencePassFacts(text, pauseCount);
    forall p | p in PlannedOffsets(text, pauseCount)
      ensures SentenceBoundary(text, p) || (WordBoundary(text, p) && p - 1 !in SentencePass(text, pauseCount))
    {
      assert p in RawOffsets(text, pauseCount);
      if p in SentencePass(text, pauseCount) {
        assert SentenceBoundary(text, p);
      } else {
        RawMember(text, pauseCount, p);
      }
    }
  }

  /** Sentence boundaries are taken first: a text with at least as many ". " as there
      are pauses gets exactly its first sentence offsets. */
  lemma SentencesFirst(text: string, pauseCount: nat)
    requires |Split(text, ". ")| - 1 >= pauseCount
    ensures PlannedOffsets(text, pauseCount) == SentencePass(text, pauseCount)
  {
    PlannedIsSorted(text, pauseCount);
    var sp := SentencePass(text, pauseCount);
    SentencePassFacts(text, pauseCount);
    DedupeOfUnique(sp);
    Sorting.SortOfSorted(sp, NatKey);
  }

  lemma {:induction false} DedupeOfUnique(s: seq<nat>)
    requires Ascending(s)
    ensures Dedupe(s) == s
  {
    if s != [] {
      DedupeOfUnique(s[..|s| - 1]);
    }
  }

  // ---------------------------------------------------------------------------
  // Insertion from the highest offset down
  // ---------------------------------------------------------------------------

  /** Where the piece of text after the j-th inserted marker begins. */
  function Start(ps: seq<nat>, j: nat): nat
    requires j <= |ps|
  {
    if j == 0 then 0 else ps[j - 1]
  }

  /** How many leading offsets lie inside the text; with ascending offsets these are
      exactly the offsets that receive a marker. */
  function Leading(ps: seq<nat>, n: nat, j: nat): (r: nat)
    requires j <= |ps|
    ensures r <= |ps| - j
    decreases |ps| - j
  {
    if j < |ps| && ps[j] < n then 1 + Leading(ps, n, j + 1) else 0
  }

  /** The text from `Start(ps, j)` on with the markers j, j + 1, ... placed, read front
      to back: the reference for the insertion loop. */
  function Tail(text: string, ps: seq<nat>, ms: seq<string>, j: nat): (r: string)
    requires Ascending(ps) && |ms| >= |ps| && j <= |ps|
    requires j > 0 ==> ps[j - 1] < |text|
    ensures |r| >= |text| - Start(ps, j)
    decreases |ps| - j
  {
    if j < |ps| && ps[j] < |text| then text[Start(ps, j)..ps[j]] + ms[j] + Tail(text, ps, ms, j + 1)
    else text[Start(ps, j)..]
  }

  /** The text with marker i placed at offset `ps[i]` for every offset inside it. */
  function Spliced(text: string, ps: seq<nat>, ms: seq<string>): string
    requires Ascending(ps) && |ms| >= |ps|
  {
    Tail(text, ps, ms, 0)
  }

  function Marks(pauses: seq<Pause>, n: nat): (ms: seq<string>)
    requires n <= |pauses|
    ensures |ms| == n
  {
    seq(n, i requires 0 <= i < n => PauseMarkup(i, pauses[i]))
  }

  lemma {:induction false} LeadingBelow(ps: seq<nat>, n: nat, j: nat)
    requires Ascending(ps) && j <= |ps|
    ensures forall i :: j <= i < j + Leading(ps, n, j) ==> ps[i] < n
    ensures forall i :: j + Leading(ps, n, j) <= i < |ps| ==> ps[i] >= n
    decreases |ps| - j
  {
    if j < |ps| && ps[j] < n {
      LeadingBelow(ps, n, j + 1);
    }
  }

  lemma TailAtLeading(text: string, ps: seq<nat>, ms: seq<string>, j: nat)
    requires Ascending(ps) && |ms| >= |ps| && j <= |ps|
    requires j > 0 ==> ps[j - 1] < |text|
    requires j == |ps| || ps[j] >= |text|
    ensures text[..Start(ps, j)] + Tail(text, ps, ms, j) == text
  {
  }

  lemma TailStep(text: string, ps: seq<nat>, ms: seq<string>, i: nat)
    requires Ascending(ps) && |ms| >= |ps| && i < |ps|
    requires ps[i] < |text|
    ensures text[..Start(ps, i)] + Tail(text, ps, ms, i) == text[..ps[i]] + ms[i] + Tail(text, ps, ms, i + 1)
  {
    var before, piece, after := text[..Start(ps, i)], text[Start(ps, i)..ps[i]], Tail(text, ps, ms, i + 1);
    assert Tail(text, ps, ms, i) == piece + ms[i] + after;
    assert before + piece == text[..ps[i]];
    assert before + (piece + ms[i] + after) == (before + piece) + ms[i] + after;
  }

  lemma InsertAt(out: string, text: string, p: nat, m: string, rest: string)
    requires p <= |text| && out == text[..p] + rest
    ensures out[..p] + m + out[p..] == text[..p] + m + rest
  {
    assert out[..p] == text[..p];
    assert out[p..] == rest;
  }

  /** The insertion loop: offset i receives the marker of the i-th pause, from the
      highest offset down, and only while the offset lies inside the growing text. */
  method InsertPauses(text: string, positions: seq<nat>, pauses: seq<Pause>) returns (out: string)
    requires Ascending(positions) && |positions| <= |pauses|
    ensures out == Spliced(text, positions, Marks(pauses, |positions|))
  {
    var ms := Marks(pauses, |positions|);
    var k := Leading(positions, |text|, 0);
    LeadingBelow(positions, |text|, 0);
    out := text;
    var i := |positions| - 1;
    while i >= 0
      invariant -1 <= i < |positions|
      invariant i + 1 > k ==> out == text
      invariant i + 1 <= k ==> out == text[..Start(positions, i + 1)] + Tail(text, positions, ms, i + 1)
    {
      var position := positions[i];
      if position < |out| {
        InsertAt(out, text, position, PauseMarkup(i, pauses[i]), Tail(text, positions, ms, i + 1));
        out := out[..position] + PauseMarkup(i, pauses[i]) + out[position..];
        TailStep(text, positions, ms, i);
      } else if i == k {
        TailAtLeading(text, positions, ms, k);
      }
      i := i - 1;
    }
  }

  // ---------------------------------------------------------------------------
  // What the insertion keeps
  // ---------------------------------------------------------------------------

  function Concat(pieces: seq<string>): string
  {
    if pieces == [] then "" else pieces[0] + Concat(pieces[1..])
  }

  /** Pieces separated by markers. */
  function Weave(pieces: seq<string>, ms: seq<string>): string
    requires |pieces| >= 1 && |ms| >= |pieces| - 1
  {
    if |pieces| == 1 then pieces[0] else pieces[0] + ms[0] + Weave(pieces[1..], ms[1..])
  }

  /** The text cut at the offsets that lie inside it. */
  function Pieces(text: string, ps: seq<nat>, j: nat): (r: seq<string>)
    requires Ascending(ps) && j <= |ps|
    requires j > 0 ==> ps[j - 1] < |text|
    ensures |r| == Leading(ps, |text|, j) + 1
    decreases |ps| - j
  {
    if j < |ps| && ps[j] < |text| then [text[Start(ps, j)..ps[j]]] + Pieces(text, ps, j + 1)
    else [text[Start(ps, j)..]]
  }

  lemma {:induction false} TailWeave(text: string, ps: seq<nat>, ms: seq<string>, j: nat)
    requires Ascending(ps) && |ms| >= |ps| && j <= |ps|
    requires j > 0 ==> ps[j - 1] < |text|
    ensures Tail(text, ps, ms, j) == Weave(Pieces(text, ps, j), ms[j..])
    decreases |ps| - j
  {
    if j < |ps| && ps[j] < |text| {
      TailWeave(text, ps, ms, j + 1);
      var rest := Pieces(text, ps, j + 1);
      assert ([text[Start(ps, j)..ps[j]]] + rest)[1..] == rest;
      assert ms[j..][1..] == ms[j + 1..];
    }
  }

  lemma {:induction false} PiecesConcat(text: string, ps: seq<nat>, j: nat)
    requires Ascending(ps) && j <= |ps|
    requires j > 0 ==> ps[j - 1] < |text|
    ensures Concat(Pieces(text, ps, j)) == text[Start(ps, j)..]
    decreases |ps| - j
  {
    if j < |ps| && ps[j] < |text| {
      PiecesConcat(text, ps, j + 1);
      var rest := Pieces(text, ps, j + 1);
      assert ([text[Start(ps, j)..ps[j]]] + rest)[1..] == rest;
      assert text[Start(ps, j)..ps[j]] + text[ps[j]..] == text[Start(ps, j)..];
    } else {
      assert [text[Start(ps, j)..]][1..] == [];
      assert text[Start(ps, j)..] + "" == text[Start(ps, j)..];
    }
  }

  /** The i-th piece (counted from j) runs from `Start(ps, j + i)` to the next offset, or
      to the end of the text for the last piece. */
  lemma {:induction false} PiecesBetweenOffsets(text: string, ps: seq<nat>, j: nat, i: nat)
    requires Ascending(ps) && j <= |ps|
    requires j > 0 ==> ps[j - 1] < |text|
    requires i <= Leading(ps, |text|, j)
    ensures j + i <= |ps|
    ensures forall m :: j <= m < j + Leading(ps, |text|, j) ==> ps[m] < |text|
    ensures i < Leading(ps, |text|, j) ==> Pieces(text, ps, j)[i] == text[Start(ps, j + i)..ps[j + i]]
    ensures i == Leading(ps, |text|, j) ==> Pieces(text, ps, j)[i] == text[Start(ps, j + i)..]
    decreases |ps| - j
  {
    LeadingBelow(ps, |text|, j);
    if i > 0 {
      PiecesBetweenOffsets(text, ps, j + 1, i - 1);
    }
  }

  /** Deleting the inserted markers gives back the text: the output is the text cut at
      the offsets that lie inside it, with the i-th pause's marker after the i-th cut,
      in order. */
  lemma SplicedKeepsText(text: string, ps: seq<nat>, ms: seq<string>)
    requires Ascending(ps) && |ms| >= |ps|
    ensures Spliced(text, ps, ms) == Weave(Pieces(text, ps, 0), ms)
    ensures Concat(Pieces(text, ps, 0)) == text
    ensures |Pieces(text, ps, 0)| == Leading(ps, |text|, 0) + 1
    ensures forall m :: 0 <= m < Leading(ps, |text|, 0) ==> ps[m] < |text|
    ensures forall i :: 0 <= i < Leading(ps, |text|, 0) ==> Pieces(text, ps, 0)[i] == text[Start(ps, i)..ps[i]]
  {
    TailWeave(text, ps, ms, 0);
    PiecesConcat(text, ps, 0);
    LeadingBelow(ps, |text|, 0);
    assert ms[0..] == ms;
    forall i | 0 <= i < Leading(ps, |text|, 0)
      ensures Pieces(text, ps, 0)[i] == text[Start(ps, i)..ps[i]]
    {
      PiecesBetweenOffsets(text, ps, 0, i);
    }
  }

  // ---------------------------------------------------------------------------
  // Sentence splitting with /\.(?:\s+|$)(?![^<]*>)/g
  // ---------------------------------------------------------------------------

  /** The end of the whitespace run that starts at j (greedy `\s+`). */
  function RunEnd(text: string, j: nat): (e: nat)
    requires j <= |text|
    ensures j <= e <= |text|
    decreases |text| - j
  {
    if j < |text| && IsSpace(text[j]) then RunEnd(text, j + 1) else j
  }

  /** `[^<]*>` matches at j: the first angle bracket from j on is a `>`. */
  predicate InsideTag(text: string, j: nat)
    decreases |text| - j
  {
    j < |text| && (text[j] == '>' || (text[j] != '<' && InsideTag(text, j + 1)))
  }

  /** The pattern matches at i: a period followed either by the end of the text, or by
      whitespace after which no `>` closes a tag before the next `<`. */
  predicate PeriodAt(text: string, i: nat)
    requires i < |text|
  {
    text[i] == '.' &&
    (i + 1 == |text| || (IsSpace(text[i + 1]) && !InsideTag(text, RunEnd(text, i + 1))))
  }

  /** Where the match at i ends (`match.index + match[0].length`). */
  function MatchEnd(text: string, i: nat): (e: nat)
    requires i < |text|
    ensures i < e <= |text|
  {
    if i + 1 == |text| then i + 1 else RunEnd(text, i + 1)
  }

  /** The next match at or after `from`, or -1 (`periodRegex.exec`). */
  function NextPeriod(text: string, from: nat): (r: int)
    ensures r == -1 || (from <= r < |text| && PeriodAt(text, r))
    decreases |text| - from
  {
    if from >= |text| then -1
    else if PeriodAt(text, from) then from
    else NextPeriod(text, from + 1)
  }

  /** The sentences cut from `text[last..]`: each up to and including a matched period,
      then the remainder, blank pieces dropped. */
  function SentencesFrom(text: string, last: nat): seq<string>
    requires last <= |text|
    decreases |text| - last
  {
    var i := NextPeriod(text, last);
    if i < 0 then
      (if last < |text| && !IsBlank(text[last..]) then [text[last..]] else [])
    else
      (if !IsBlank(text[last..i + 1]) then [text[last..i + 1]] else []) + SentencesFrom(text, MatchEnd(text, i))
  }

  /** The splitter's result, falling back to the whole text. */
  function Sentences(text: string): seq<string>
  {
    var s := SentencesFrom(text, 0);
    if s == [] then [text] else s
  }

  method SplitSentences(text: string) returns (sentences: seq<string>)
    ensures sentences == Sentences(text)
  {
    sentences := [];
    var lastIndex := 0;
    var m := NextPeriod(text, 0);
    while m >= 0
      invariant lastIndex <= |text|
      invariant m == NextPeriod(text, lastIndex)
      invariant sentences + SentencesFrom(text, lastIndex) == SentencesFrom(text, 0)
      decreases |text| - lastIndex
    {
      var sentence := text[lastIndex..m + 1];
      var kept := if !IsBlank(sentence) then [sentence] else [];
      var next := MatchEnd(text, m);
      SentencesStep(text, lastIndex, sentences);
      sentences := sentences + kept;
      lastIndex := next;
      m := NextPeriod(text, lastIndex);
    }
    if lastIndex < |text| {
      var lastSentence := text[lastIndex..];
      if !IsBlank(lastSentence) {
        sentences := sentences + [lastSentence];
      }
    }
    if sentences == [] {
      sentences := [text];
    }
  }

  lemma SentencesStep(text: string, last: nat, done: seq<string>)
    requires last <= |text| && NextPeriod(text, last) >= 0
    ensures var i := NextPeriod(text, last);
      done + SentencesFrom(text, last) ==
      (done + (if !IsBlank(text[last..i + 1]) then [text[last..i + 1]] else [])) + SentencesFrom(text, MatchEnd(text, i))
  {
  }

  /** Backtracking `\s+` cannot rescue a rejected period: from any point inside the
      whitespace run the lookahead sees the same first angle bracket. */
  lemma {:induction false} LookaheadInsideRun(text: string, j: nat)
    requires j <= |text|
    ensures InsideTag(text, j) == InsideTag(text, RunEnd(text, j))
    decreases |text| - j
  {
    if j < |text| && IsSpace(text[j]) {
      LookaheadInsideRun(text, j + 1);
    }
  }

  lemma {:induction false} RunIsBlank(text: string, j: nat)
    requires j <= |text|
    ensures IsBlank(text[j..RunEnd(text, j)])
    decreases |text| - j
  {
    if j < |text| && IsSpace(text[j]) {
      RunIsBlank(text, j + 1);
      assert text[j..RunEnd(text, j)] == [text[j]] + text[j + 1..RunEnd(text, j)];
    }
  }

  /** Every sentence has a visible character. */
  lemma {:induction false} SentencesNotBlank(text: string, last: nat)
    requires last <= |text|
    ensures forall k :: 0 <= k < |SentencesFrom(text, last)| ==> !IsBlank(SentencesFrom(text, last)[k])
    decreases |text| - last
  {
    var i := NextPeriod(text, last);
    if i >= 0 {
      SentencesNotBlank(text, MatchEnd(text, i));
    }
  }

  /** Every sentence but the last ends with its period. */
  lemma {:induction false} SentencesEndWithPeriod(text: string, last: nat)
    requires last <= |text|
    ensures forall k :: 0 <= k < |SentencesFrom(text, last)| - 1 ==>
      |SentencesFrom(text, last)[k]| > 0 && SentencesFrom(text, last)[k][|SentencesFrom(text, last)[k]| - 1] == '.'
    decreases |text| - last
  {
    var i := NextPeriod(text, last);
    if i >= 0 {
      SentencesEndWithPeriod(text, MatchEnd(text, i));
    }
  }

  /** The characters outside whitespace, in order. */
  function Visible(s: string): string
  {
    if s == [] then [] else (if IsSpace(s[0]) then [] else [s[0]]) + Visible(s[1..])
  }

  lemma {:induction false} VisibleAppend(a: string, b: string)
    ensures Visible(a + b) == Visible(a) + Visible(b)
  {
    if a != [] {
      VisibleAppend(a[1..], b);
      assert (a + b)[1..] == a[1..] + b;
    } else {
      assert a + b == b;
    }
  }

  lemma {:induction false} VisibleBlank(s: string)
    requires IsBlank(s)
    ensures Visible(s) == []
  {
    if s != [] {
      VisibleBlank(s[1..]);
    }
  }

  lemma {:induction false} ConcatAppend(a: seq<string>, b: seq<string>)
    ensures Concat(a + b) == Concat(a) + Concat(b)
  {
    if a != [] {
      ConcatAppend(a[1..], b);
      assert (a + b)[1..] == a[1..] + b;
    } else {
      assert a + b == b;
    }
  }

  /** Splitting loses and duplicates no visible character: only whitespace between
      sentences and blank pieces are dropped. */
  lemma {:induction false} SentencesKeepText(text: string, last: nat)
    requires last <= |text|
    ensures Visible(Concat(SentencesFrom(text, last))) == Visible(text[last..])
    decreases |text| - last
  {
    var i := NextPeriod(text, last);
    if i < 0 {
      if last < |text| && !IsBlank(text[last..]) {
        assert Concat([text[last..]]) == text[last..];
      } else if last < |text| {
        VisibleBlank(text[last..]);
      }
    } else {
      var e := MatchEnd(text, i);
      var head := text[last..i + 1];
      var kept := if !IsBlank(head) then [head] else [];
      SentencesKeepText(text, e);
      ConcatAppend(kept, SentencesFrom(text, e));
      VisibleAppend(Concat(kept), Concat(SentencesFrom(text, e)));
      SplitVisible(text, last, i, e, !IsBlank(head));
    }
  }

  lemma SplitVisible(text: string, last: nat, i: nat, e: nat, keep: bool)
    requires last <= i < |text| && e == MatchEnd(text, i)
    requires keep == !IsBlank(text[last..i + 1])
    ensures Visible(text[last..]) == Visible(Concat(if keep then [text[last..i + 1]] else [])) + Visible(text[e..])
  {
    GapInvisible(text, last, i, e);
    if keep {
      assert Concat([text[last..i + 1]]) == text[last..i + 1];
    } else {
      VisibleBlank(text[last..i + 1]);
    }
  }

  /** The whitespace after a period shows nothing. */
  lemma GapInvisible(text: string, last: nat, i: nat, e: nat)
    requires last <= i < |text| && e == MatchEnd(text, i)
    ensures Visible(text[last..]) == Visible(text[last..i + 1]) + Visible(text[e..])
  {
    var head, gap, rest := text[last..i + 1], text[i + 1..e], text[e..];
    assert text[last..e] == head + gap;
    assert text[last..] == text[last..e] + rest;
    if e > i + 1 {
      RunIsBlank(text, i + 1);
    }
    VisibleBlank(gap);
    VisibleAppend(head + gap, rest);
    VisibleAppend(head, gap);
  }

  // ---------------------------------------------------------------------------
  // processSpeechText after the annotation passes
  // ---------------------------------------------------------------------------

  function PauseStart(p: Pause): real
  {
    p.start
  }

  /** The text with the pauses placed, sorted by start time, one per planned offset. */
  function WithPauses(text: string, pauses: seq<Pause>): string
  {
    if pauses == [] then text
    else
      var sorted := Sorting.SortByKey(pauses, PauseStart);
      Sorting.SortLength(pauses, PauseStart);
      var ps := PlannedOffsets(text, |sorted|);
      PlannedOffsetsMeaning(text, |sorted|);
      Spliced(text, ps, Marks(sorted, |ps|))
  }

  function SpeechSentences(marked: string, hasIssues: bool, pauses: seq<Pause>): seq<string>
  {
    if marked == "" || !hasIssues then [marked] else Sentences(WithPauses(marked, pauses))
  }

  /** `processSpeechText` from the point where the annotation passes have produced
      `marked` (empty exactly when the given text is); `hasIssues` says whether an issue
      record was given. */
  method ProcessSpeechText(marked: string, hasIssues: bool, pauses: seq<Pause>) returns (sentences: seq<string>)
    ensures sentences == SpeechSentences(marked, hasIssues, pauses)
  {
    if marked == "" || !hasIssues {
      return [marked];
    }
    var processed := marked;
    if |pauses| > 0 {
      var sorted := Sorting.SortByKey(pauses, PauseStart);
      Sorting.SortLength(pauses, PauseStart);
      var positions := PauseOffsets(processed, |sorted|);
      PlannedOffsetsMeaning(processed, |sorted|);
      processed := InsertPauses(processed, positions, sorted);
    }
    sentences := SplitSentences(processed);
  }

  /** The result is never empty, and unless it is the whole text as a fallback, every
      sentence shows something. */
  lemma SpeechSentencesShape(marked: string, hasIssues: bool, pauses: seq<Pause>)
    ensures |SpeechSentences(marked, hasIssues, pauses)| >= 1
    ensures marked != "" && hasIssues && SentencesFrom(WithPauses(marked, pauses), 0) != [] ==>
      forall k :: 0 <= k < |SpeechSentences(marked, hasIssues, pauses)| ==> !IsBlank(SpeechSentences(marked, hasIssues, pauses)[k])
  {
    if marked != "" && hasIssues {
      SentencesNotBlank(WithPauses(marked, pauses), 0);
    }
  }
}

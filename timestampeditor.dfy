/** The save path of the transcript edit popup: the timestamp rows the user filled in
    are collected, then laid over the plain text of the edited bubble, each at its next
    case-insensitive occurrence, left to right. */
module TimestampEditor {
  import opened JsText
  import Sorting

  /** One row of the popup: the four input values. */
  datatype Row = Row(text: string, start: string, end: string, kind: string)

  /** A collected timestamp: its text, `start:end`, and its annotation type. */
  datatype Entry = Entry(text: string, timestamp: string, kind: string)

  /** A piece of the rebuilt bubble: untouched text, a word-timestamp span, or a
      highlight span of the given type. */
  datatype Segment = Plain(text: string) | WordStamp(timestamp: string, text: string) | Mark(kind: string, timestamp: string, text: string)

  // ---------------------------------------------------------------------------
  // collectTimestamps
  // ---------------------------------------------------------------------------

  predicate Complete(r: Row)
  {
    r.text != "" && r.start != "" && r.end != ""
  }

  function EntryOf(r: Row): Entry
  {
    Entry(r.text, r.start + ":" + r.end, r.kind)
  }

  /** The rows that become entries: those with text, start and end all filled in. */
  function Collected(rows: seq<Row>): seq<Entry>
  {
    if rows == [] then []
    else Collected(rows[..|rows| - 1]) + (if Complete(rows[|rows| - 1]) then [EntryOf(rows[|rows| - 1])] else [])
  }

  method CollectTimestamps(rows: seq<Row>) returns (timestamps: seq<Entry>)
    ensures timestamps == Collected(rows)
  {
    timestamps := [];
    for i := 0 to |rows|
      invariant timestamps == Collected(rows[..i])
    {
      assert rows[..i + 1][..i] == rows[..i];
      var item := rows[i];
      if item.text != "" && item.start != "" && item.end != "" {
        timestamps := timestamps + [Entry(item.text, item.start + ":" + item.end, item.kind)];
      }
    }
    assert rows[..|rows|] == rows;
  }

  function CountComplete(rows: seq<Row>): nat
  {
    if rows == [] then 0 else CountComplete(rows[..|rows| - 1]) + (if Complete(rows[|rows| - 1]) then 1 else 0)
  }

  /** One entry per complete row, each with non-empty text drawn from some complete row. */
  lemma {:induction false} CollectedRows(rows: seq<Row>)
    ensures |Collected(rows)| == CountComplete(rows)
    ensures forall e :: e in Collected(rows) ==> e.text != "" && exists r :: r in rows && Complete(r) && e == EntryOf(r)
  {
    if rows != [] {
      var init := rows[..|rows| - 1];
      CollectedRows(init);
      forall e | e in Collected(rows) ensures e.text != "" && exists r :: r in rows && Complete(r) && e == EntryOf(r) {
        if e in Collected(init) {
          var r :| r in init && Complete(r) && e == EntryOf(r);
          assert r in rows;
        } else {
          assert rows[|rows| - 1] in rows;
        }
      }
    }
  }

  lemma {:induction false} NoColonIndex(s: string, from: nat)
    requires forall i :: 0 <= i < |s| ==> s[i] != ':'
    ensures IndexOf(s, ":", from) == -1
    decreases |s| + 1 - from
  {
    if from + 1 <= |s| {
      assert s[from..from + 1] == [s[from]];
      NoColonIndex(s, from + 1);
    }
  }

  /** `const [start, end] = ts.timestamp.split(':')` gives back the row's start and end
      when neither of them contains a colon. */
  lemma TimestampDecodes(start: string, end: string)
    requires forall i :: 0 <= i < |start| ==> start[i] != ':'
    requires forall i :: 0 <= i < |end| ==> end[i] != ':'
    ensures Split(start + ":" + end, ":") == [start, end]
  {
    var s := start + ":" + end;
    ColonAfter(start, end, 0);
    assert s[..|start|] == start;
    assert s[|start| + 1..] == end;
    NoColonIndex(end, 0);
    SplitFree(end, ":");
    assert Split(s, ":") == [s[..|start|]] + Split(s[|start| + 1..], ":");
  }

  lemma {:induction false} ColonAfter(start: string, end: string, from: nat)
    requires from <= |start|
    requires forall i :: 0 <= i < |start| ==> start[i] != ':'
    ensures IndexOf(start + ":" + end, ":", from) == |start|
    decreases |start| - from
  {
    var s := start + ":" + end;
    if from < |start| {
      assert s[from..from + 1] == [start[from]];
      ColonAfter(start, end, from + 1);
    } else {
      assert s[from..from + 1] == ":";
    }
  }

  // ---------------------------------------------------------------------------
  // applyTimestampsToContent
  // ---------------------------------------------------------------------------

  function SegmentText(g: Segment): string
  {
    match g
    case Plain(t) => t
    case WordStamp(_, t) => t
    case Mark(_, _, t) => t
  }

  /** The text content of the rebuilt bubble. */
  function Flatten(segments: seq<Segment>): string
  {
    if segments == [] then "" else SegmentText(segments[0]) + Flatten(segments[1..])
  }

  /** Type `word` or no type gives a word-timestamp span; any other type a highlight. */
  function SpanFor(e: Entry, original: string): Segment
  {
    if e.kind != "" && e.kind != "word" then Mark(e.kind, e.timestamp, original) else WordStamp(e.timestamp, original)
  }

  /** The sort key: the first case-insensitive occurrence of the entry's text, -1 when
      it does not occur. */
  function FirstOccurrence(plain: string): Entry -> real
  {
    (e: Entry) => Find(plain, e.text, 0) as real
  }

  /** Whether `a` and `b` agree once lower-cased, compared character by character. */
  predicate SameLower(a: string, b: string)
  {
    |a| == |b| && (a == [] || (LowerChar(a[0]) == LowerChar(b[0]) && SameLower(a[1..], b[1..])))
  }

  /** The case-insensitive search `plain.toLowerCase().indexOf(t.toLowerCase(), from)`
      (FindIsIndexOf shows the two agree). */
  function Find(plain: string, t: string, from: nat): (r: int)
    ensures r == -1 || (from <= r && r + |t| <= |plain|)
    decreases |plain| + 1 - from
  {
    if from + |t| > |plain| then -1
    else if SameLower(plain[from..from + |t|], t) then from
    else Find(plain, t, from + 1)
  }

  lemma {:induction false} SameLowerMeaning(a: string, b: string)
    ensures SameLower(a, b) <==> Lower(a) == Lower(b)
    decreases |a|
  {
    if |a| == |b| && a != [] {
      SameLowerMeaning(a[1..], b[1..]);
      LowerSlice(a, 1, |a|);
      LowerSlice(b, 1, |b|);
      assert Lower(a) == [Lower(a)[0]] + Lower(a)[1..];
      assert Lower(b) == [Lower(b)[0]] + Lower(b)[1..];
    }
  }

  lemma {:induction false} FindIsIndexOf(plain: string, t: string, from: nat)
    ensures Find(plain, t, from) == IndexOf(Lower(plain), Lower(t), from)
    decreases |plain| + 1 - from
  {
    if from + |t| <= |plain| {
      LowerSlice(plain, from, from + |t|);
      SameLowerMeaning(plain[from..from + |t|], t);
      if !SameLower(plain[from..from + |t|], t) {
        FindIsIndexOf(plain, t, from + 1);
      }
    }
  }

  lemma {:induction false} FindLeast(plain: string, t: string, from: nat, k: nat)
    requires from <= k && k + |t| <= |plain|
    requires Find(plain, t, from) == -1 || k < Find(plain, t, from)
    ensures !SameLower(plain[k..k + |t|], t)
    decreases k - from
  {
    if from < k {
      FindLeast(plain, t, from + 1, k);
    }
  }

  /** An entry typed `word`, or not typed, gives a word-timestamp span; any other type
      gives a highlight carrying that type; both carry the entry's timestamp and the
      matched text in its original casing. */
  lemma SpanKind(e: Entry, original: string)
    ensures SpanFor(e, original).WordStamp? <==> e.kind == "" || e.kind == "word"
    ensures SpanFor(e, original).Mark? ==> SpanFor(e, original) == Mark(e.kind, e.timestamp, original)
    ensures SpanFor(e, original).WordStamp? ==> SpanFor(e, original) == WordStamp(e.timestamp, original)
  {
  }

  /** What one entry contributes to the scan: the segments it emits and the cursor
      after it. */
  datatype Emitted = Emitted(pieces: seq<Segment>, next: nat)

  /** One entry's turn: it is looked up at or after the cursor `last`; a blank or
      unfound entry emits nothing and leaves the cursor, a found one emits the text
      before it and its span, and the cursor moves past the match. */
  function Step(plain: string, e: Entry, last: nat): (r: Emitted)
    requires last <= |plain|
    ensures last <= r.next <= |plain|
  {
    var index := Find(plain, e.text, last);
    if IsBlank(e.text) || index == -1 then Emitted([], last)
    else Emitted([Plain(plain[last..index]), SpanFor(e, plain[index..index + |e.text|])], index + |e.text|)
  }

  /** The reference scan: each entry takes its turn from the cursor the previous one
      left, and the text after the last cursor closes the bubble. */
  function ScanFrom(plain: string, es: seq<Entry>, last: nat): seq<Segment>
    requires last <= |plain|
    decreases |es|
  {
    if es == [] then [Plain(plain[last..])]
    else
      var r := Step(plain, es[0], last);
      r.pieces + ScanFrom(plain, es[1..], r.next)
  }

  /** The rebuilt bubble for the plain text of the edited content. */
  function Rebuilt(plain: string, timestamps: seq<Entry>): seq<Segment>
  {
    ScanFrom(plain, Sorting.SortByKey(timestamps, FirstOccurrence(plain)), 0)
  }

  /** The loop's step at entry `i`. */
  lemma StepAt(plain: string, es: seq<Entry>, i: nat, last: nat, done: seq<Segment>)
    requires i < |es| && last <= |plain|
    ensures var r := Step(plain, es[i], last);
      done + ScanFrom(plain, es[i..], last) == (done + r.pieces) + ScanFrom(plain, es[i + 1..], r.next)
  {
    assert es[i..][1..] == es[i + 1..];
  }

  method ApplyTimestamps(plain: string, timestamps: seq<Entry>) returns (segments: seq<Segment>)
    ensures segments == Rebuilt(plain, timestamps)
  {
    var sorted := Sorting.SortByKey(timestamps, FirstOccurrence(plain));
    segments := ScanSorted(plain, sorted);
  }

  /** The loop of `applyTimestamps` over the entries once they are sorted. */
  method ScanSorted(plain: string, sorted: seq<Entry>) returns (segments: seq<Segment>)
    ensures segments == ScanFrom(plain, sorted, 0)
  {
    segments := [];
    var lastIndex: nat := 0;
    for i := 0 to |sorted|
      invariant lastIndex <= |plain|
      invariant segments + ScanFrom(plain, sorted[i..], lastIndex) == ScanFrom(plain, sorted, 0)
    {
      var step := Step(plain, sorted[i], lastIndex);
      StepAt(plain, sorted, i, lastIndex, segments);
      segments := segments + step.pieces;
      lastIndex := step.next;
    }
    assert sorted[|sorted|..] == [];
    segments := segments + [Plain(plain[lastIndex..])];
  }

  // ---------------------------------------------------------------------------
  // What the scan keeps
  // ---------------------------------------------------------------------------

  lemma SpanText(e: Entry, original: string)
    ensures SegmentText(SpanFor(e, original)) == original
  {
  }

  lemma SliceThree(s: string, a: nat, b: nat, c: nat)
    requires a <= b <= c <= |s|
    ensures s[a..] == s[a..b] + s[b..c] + s[c..]
  {
  }

  lemma {:induction false} FlattenPair(a: Segment, b: Segment)
    ensures Flatten([a, b]) == SegmentText(a) + SegmentText(b)
  {
    assert [a, b][1..] == [b];
    assert [b][1..] == [];
    assert Flatten([b]) == SegmentText(b) + "";
    assert SegmentText(b) + "" == SegmentText(b);
  }

  lemma {:induction false} FlattenAppend(a: seq<Segment>, b: seq<Segment>)
    ensures Flatten(a + b) == Flatten(a) + Flatten(b)
  {
    if a == [] {
      assert a + b == b;
    } else {
      assert (a + b)[1..] == a[1..] + b;
      FlattenAppend(a[1..], b);
    }
  }

  /** One entry's turn emits exactly the text between the old and the new cursor. */
  lemma StepKeepsText(plain: string, e: Entry, last: nat)
    requires last <= |plain|
    ensures var r := Step(plain, e, last); Flatten(r.pieces) + plain[r.next..] == plain[last..]
  {
    var index := Find(plain, e.text, last);
    if !IsBlank(e.text) && index != -1 {
      var stop := index + |e.text|;
      FlattenPair(Plain(plain[last..index]), SpanFor(e, plain[index..stop]));
      SpanText(e, plain[index..stop]);
      SliceThree(plain, last, index, stop);
    }
  }

  /** The untouched text and the span contents, read in order, are the plain text. */
  lemma {:induction false} ScanKeepsText(plain: string, es: seq<Entry>, last: nat)
    requires last <= |plain|
    ensures Flatten(ScanFrom(plain, es, last)) == plain[last..]
    decreases |es|
  {
    if es == [] {
      assert Flatten([Plain(plain[last..])]) == plain[last..] + Flatten([]);
    } else {
      var r := Step(plain, es[0], last);
      ScanKeepsText(plain, es[1..], r.next);
      FlattenAppend(r.pieces, ScanFrom(plain, es[1..], r.next));
      StepKeepsText(plain, es[0], last);
    }
  }

  /** `t` occurs at `k` in `plain` up to case. */
  predicate MatchesAt(plain: string, t: string, k: nat)
  {
    k + |t| <= |plain| && Lower(plain[k..k + |t|]) == Lower(t)
  }

  /** Each span holds the case-insensitive match of its entry, found at its first
      occurrence at or after the cursor. */
  lemma MatchIsFirstOccurrence(plain: string, e: Entry, last: nat)
    requires last <= |plain| && !IsBlank(e.text)
    requires Find(plain, e.text, last) != -1
    ensures var index := Find(plain, e.text, last);
      last <= index && MatchesAt(plain, e.text, index) &&
      forall k :: last <= k < index ==> !MatchesAt(plain, e.text, k)
  {
    var index := Find(plain, e.text, last);
    FoundMatches(plain, e.text, last);
    forall k | last <= k < index ensures !MatchesAt(plain, e.text, k) {
      NoMatchBefore(plain, e.text, last, k);
    }
  }

  lemma FoundMatches(plain: string, t: string, from: nat)
    requires Find(plain, t, from) != -1
    ensures MatchesAt(plain, t, Find(plain, t, from))
  {
    var index := Find(plain, t, from);
    MatchFound(plain, t, from);
    SameLowerMeaning(plain[index..index + |t|], t);
  }

  lemma NoMatchBefore(plain: string, t: string, from: nat, k: nat)
    requires from <= k && Find(plain, t, from) != -1 && k < Find(plain, t, from)
    ensures !MatchesAt(plain, t, k)
  {
    if k + |t| <= |plain| {
      FindLeast(plain, t, from, k);
      SameLowerMeaning(plain[k..k + |t|], t);
    }
  }

  lemma {:induction false} MatchFound(plain: string, t: string, from: nat)
    requires Find(plain, t, from) != -1
    ensures SameLower(plain[Find(plain, t, from)..Find(plain, t, from) + |t|], t)
    decreases |plain| + 1 - from
  {
    if !SameLower(plain[from..from + |t|], t) {
      MatchFound(plain, t, from + 1);
    }
  }

  /** A blank entry, or one that no longer occurs after the cursor, is passed over. */
  lemma SkippedEntries(plain: string, es: seq<Entry>, last: nat)
    requires last <= |plain| && es != []
    requires IsBlank(es[0].text) || Find(plain, es[0].text, last) == -1
    ensures ScanFrom(plain, es, last) == ScanFrom(plain, es[1..], last)
  {
  }

  function Offset(segments: seq<Segment>, j: nat): nat
    requires j <= |segments|
  {
    |Flatten(segments[..j])|
  }

  lemma {:induction false} FlattenSplit(segments: seq<Segment>, j: nat)
    requires j < |segments|
    ensures Flatten(segments) == Flatten(segments[..j]) + SegmentText(segments[j]) + Flatten(segments[j + 1..])
  {
    if j > 0 {
      FlattenSplit(segments[1..], j - 1);
      assert segments[1..][..j - 1] == segments[..j][1..];
      assert segments[1..][j - 1] == segments[j];
      assert segments[1..][j..] == segments[j + 1..];
    } else {
      assert segments[..0] == [];
      assert segments[1..] == segments[j + 1..];
    }
  }

  /** Matches are disjoint and strictly left to right: every piece of the rebuilt bubble
      is the plain text at its own offset, and the offsets grow by the pieces' lengths, so
      a later entry with the same text lands after the earlier one. */
  lemma PiecesInPlace(plain: string, timestamps: seq<Entry>, j: nat)
    requires j < |Rebuilt(plain, timestamps)|
    ensures var segs := Rebuilt(plain, timestamps);
      Offset(segs, j) + |SegmentText(segs[j])| <= |plain| &&
      plain[Offset(segs, j)..Offset(segs, j) + |SegmentText(segs[j])|] == SegmentText(segs[j]) &&
      (j + 1 < |segs| ==> Offset(segs, j + 1) == Offset(segs, j) + |SegmentText(segs[j])|)
  {
    ScanKeepsText(plain, Sorting.SortByKey(timestamps, FirstOccurrence(plain)), 0);
    PieceAt(plain, Rebuilt(plain, timestamps), j);
  }

  /** Any list of segments whose text reads as `plain` places each piece at its offset. */
  lemma PieceAt(plain: string, segs: seq<Segment>, j: nat)
    requires j < |segs| && Flatten(segs) == plain
    ensures Offset(segs, j) + |SegmentText(segs[j])| <= |plain|
    ensures plain[Offset(segs, j)..Offset(segs, j) + |SegmentText(segs[j])|] == SegmentText(segs[j])
    ensures j + 1 < |segs| ==> Offset(segs, j + 1) == Offset(segs, j) + |SegmentText(segs[j])|
  {
    FlattenSplit(segs, j);
    if j + 1 < |segs| {
      assert segs[..j + 1] == segs[..j] + [segs[j]];
      FlattenSnoc(segs[..j], segs[j]);
    }
  }

  lemma {:induction false} FlattenSnoc(segments: seq<Segment>, g: Segment)
    ensures Flatten(segments + [g]) == Flatten(segments) + SegmentText(g)
  {
    if segments != [] {
      FlattenSnoc(segments[1..], g);
      assert (segments + [g])[1..] == segments[1..] + [g];
    } else {
      assert Flatten([g]) == SegmentText(g) + Flatten([]);
    }
  }

  /** Entries are considered in the order of their first occurrence, ties in the order
      the rows were given. */
  lemma EntriesByFirstOccurrence(plain: string, timestamps: seq<Entry>, k: real)
    ensures Sorting.SortedBy(Sorting.SortByKey(timestamps, FirstOccurrence(plain)), FirstOccurrence(plain))
    ensures multiset(Sorting.SortByKey(timestamps, FirstOccurrence(plain))) == multiset(timestamps)
    ensures Sorting.WithKey(Sorting.SortByKey(timestamps, FirstOccurrence(plain)), FirstOccurrence(plain), k) ==
      Sorting.WithKey(timestamps, FirstOccurrence(plain), k)
  {
    Sorting.SortSorted(timestamps, FirstOccurrence(plain));
    Sorting.SortPermutation(timestamps, FirstOccurrence(plain));
    Sorting.SortStable(timestamps, FirstOccurrence(plain), k);
  }
}

/** The audio player's controls and the issue list beside it: skip buttons, the seek
    bar, the default total duration, the speech-rate badge and the issue filter. */
module PlayerControls {
  import opened JsText
  import opened JsNumber

  // ---------------------------------------------------------------------------
  // Skip buttons and the seek bar
  // ---------------------------------------------------------------------------

  /** `Math.max(a, b)`. */
  function Max(a: Number, b: Number): (r: Number)
    ensures a.NaN? || b.NaN? ==> r.NaN?
    ensures !a.NaN? && !b.NaN? ==> (r == a || r == b) && AtMost(a, r) && AtMost(b, r)
  {
    if a.NaN? || b.NaN? then NaN else if AtMost(a, b) then b else a
  }

  /** `a * b`. */
  function Mul(a: Number, b: Number): Number
  {
    match (a, b)
    case (Finite(x), Finite(y)) => Finite(x * y)
    case (Infinity(n), Finite(y)) => if y == 0.0 then NaN else Infinity(n != (y < 0.0))
    case (Finite(x), Infinity(n)) => if x == 0.0 then NaN else Infinity(n != (x < 0.0))
    case (Infinity(n), Infinity(m)) => Infinity(n != m)
    case _ => NaN
  }

  /** `skipPrevious`: `Math.max(0, currentTime - 10)`. */
  function SkipBack(t: real): real
  {
    if t - 10.0 > 0.0 then t - 10.0 else 0.0
  }

  /** `skipNext`: `Math.min(duration, currentTime + 10)`. */
  function SkipForward(t: real, duration: Number): Number
  {
    Min(duration, Finite(t + 10.0))
  }

  /** `updateProgressBar`'s `Math.max(0, Math.min(100, percent))`. */
  function ProgressPercent(p: Number): Number
  {
    Max(Finite(0.0), Min(Finite(100.0), p))
  }

  /** `seekAudio`'s offset, held inside the bar. */
  function ClampOffset(x: real, width: real): real
  {
    var low := if x < 0.0 then 0.0 else x;
    if low > width then width else low
  }

  /** `(offsetX / rect.width) * 100`; a bar of width 0 gives `0 / 0`. */
  function SeekPercent(x: real, width: real): Number
    requires width >= 0.0
  {
    var offset := ClampOffset(x, width);
    if width == 0.0 then NaN else Finite(offset / width * 100.0)
  }

  /** The time `seekAudio` moves to: nothing while the duration is not known
      (`!audioPlayer.duration`), else `(percent / 100) * duration`. */
  function SeekTime(x: real, width: real, duration: Number): Option<Number>
    requires width >= 0.0
  {
    if !Truthy(duration) then None
    else Some(Mul(DivBy(SeekPercent(x, width), 100.0), duration))
  }

  /** Skipping back never goes before the start and goes back 10 seconds when it can. */
  lemma SkipBackMeaning(t: real)
    requires t >= 0.0
    ensures 0.0 <= SkipBack(t) <= t && t - SkipBack(t) <= 10.0
    ensures SkipBack(t) == 0.0 <==> t <= 10.0
    ensures t >= 10.0 ==> SkipBack(t) == t - 10.0
  {
  }

  /** Skipping forward never passes the end and goes 10 seconds ahead when it can; an
      unknown duration yields NaN and an endless stream a plain 10-second step. */
  lemma SkipForwardMeaning(t: real, duration: Number)
    ensures duration.Finite? && t <= duration.value ==>
      var r := SkipForward(t, duration);
      r.Finite? && t <= r.value <= duration.value && r.value - t <= 10.0 &&
      (r.value == duration.value <==> duration.value <= t + 10.0)
    ensures duration.NaN? ==> SkipForward(t, duration).NaN?
    ensures duration == Infinity(false) ==> SkipForward(t, duration) == Finite(t + 10.0)
  {
  }

  /** The progress bar shows a finite percentage within [0, 100], unchanged when it
      already lies there; NaN passes through, and clamping twice is clamping once. */
  lemma ProgressClamp(p: Number)
    ensures p.Finite? ==> ProgressPercent(p).Finite? && 0.0 <= ProgressPercent(p).value <= 100.0
    ensures p.Finite? && 0.0 <= p.value <= 100.0 ==> ProgressPercent(p) == p
    ensures p.NaN? ==> ProgressPercent(p).NaN?
    ensures !p.NaN? ==> ProgressPercent(p).Finite?
    ensures ProgressPercent(ProgressPercent(p)) == ProgressPercent(p)
  {
  }

  lemma RatioBounds(offset: real, width: real)
    requires 0.0 <= offset <= width && width > 0.0
    ensures 0.0 <= offset / width <= 1.0
  {
  }

  /** A click on a bar of positive width gives a percentage in [0, 100] proportional to
      the clamped offset; a bar of width 0 gives NaN. */
  lemma SeekPercentMeaning(x: real, width: real)
    requires width >= 0.0
    ensures width > 0.0 ==> var p := SeekPercent(x, width);
      p.Finite? && 0.0 <= p.value <= 100.0 && p.value == ClampOffset(x, width) / width * 100.0
    ensures width == 0.0 ==> SeekPercent(x, width).NaN?
    ensures 0.0 <= ClampOffset(x, width) <= width
    ensures 0.0 <= x <= width ==> ClampOffset(x, width) == x
  {
    if width > 0.0 {
      RatioBounds(ClampOffset(x, width), width);
    }
  }

  /** With a known positive duration the seek lands on the clicked fraction of it, within
      [0, duration]; without a duration nothing moves. */
  lemma SeekTimeMeaning(x: real, width: real, duration: Number)
    requires width >= 0.0
    ensures !Truthy(duration) ==> SeekTime(x, width, duration).None?
    ensures width > 0.0 && duration.Finite? && duration.value > 0.0 ==>
      var r := SeekTime(x, width, duration);
      r.Some? && r.value.Finite? &&
      r.value.value == ClampOffset(x, width) / width * duration.value &&
      0.0 <= r.value.value <= duration.value
  {
    if width > 0.0 && duration.Finite? && duration.value > 0.0 {
      SeekTimeValue(x, width, duration.value);
      SeekPercentMeaning(x, width);
      RatioBounds(ClampOffset(x, width), width);
      ScaledBelow(ClampOffset(x, width) / width, duration.value);
    }
  }

  lemma SeekTimeValue(x: real, width: real, d: real)
    requires width > 0.0 && d > 0.0
    ensures SeekTime(x, width, Finite(d)) == Some(Finite(ClampOffset(x, width) / width * d))
  {
    var f := ClampOffset(x, width) / width;
    assert SeekPercent(x, width) == Finite(f * 100.0);
    HundredBack(f);
    assert DivBy(Finite(f * 100.0), 100.0) == Finite(f);
    assert Mul(Finite(f), Finite(d)) == Finite(f * d);
    assert Truthy(Finite(d));
    assert SeekTime(x, width, Finite(d)) == Some(Finite(f * d));
    var e := ClampOffset(x, width) / width * d;
    assert e == f * d;
    assert Finite(e) == Finite(f * d);
    assert Some(Finite(e)) == Some(Finite(f * d));
  }

  lemma HundredBack(f: real)
    ensures f * 100.0 / 100.0 == f
  {
  }

  lemma ScaledBelow(f: real, d: real)
    requires 0.0 <= f <= 1.0 && d > 0.0
    ensures 0.0 <= f * d <= d
  {
    assert f * d <= 1.0 * d;
  }

  // ---------------------------------------------------------------------------
  // Total duration
  // ---------------------------------------------------------------------------

  /** An issue of the analysis result; `end` is None when the field is missing. */
  datatype Issue = Issue(end: Option<real>)

  /** The end times present in a group of issues, in order. */
  function GroupEnds(issues: seq<Issue>): seq<real>
  {
    if issues == [] then []
    else GroupEnds(issues[..|issues| - 1]) + (if issues[|issues| - 1].end.Some? then [issues[|issues| - 1].end.value] else [])
  }

  /** The end times of every present group (fillers, pauses, repetitions,
      mispronunciation, grammar), in order. */
  function AllEnds(groups: seq<Option<seq<Issue>>>): seq<real>
  {
    if groups == [] then []
    else AllEnds(groups[..|groups| - 1]) + (if groups[|groups| - 1].Some? then GroupEnds(groups[|groups| - 1].value) else [])
  }

  /** `calculateTotalDuration`: the largest end time, or 60 seconds when no end time is
      positive. */
  method TotalDuration(groups: seq<Option<seq<Issue>>>) returns (r: real)
    ensures r > 0.0
    ensures (r == 60.0 && forall e :: e in AllEnds(groups) ==> e <= 0.0) ||
            (r in AllEnds(groups) && forall e :: e in AllEnds(groups) ==> e <= r)
  {
    var maxEnd := 0.0;
    for g := 0 to |groups|
      invariant maxEnd >= 0.0
      invariant forall e :: e in AllEnds(groups[..g]) ==> e <= maxEnd
      invariant maxEnd == 0.0 || maxEnd in AllEnds(groups[..g])
    {
      AllEndsSnoc(groups, g);
      if groups[g].Some? {
        var issues := groups[g].value;
        ghost var before := AllEnds(groups[..g]);
        for i := 0 to |issues|
          invariant maxEnd >= 0.0
          invariant forall e :: e in before ==> e <= maxEnd
          invariant forall e :: e in GroupEnds(issues[..i]) ==> e <= maxEnd
          invariant maxEnd == 0.0 || maxEnd in before || maxEnd in GroupEnds(issues[..i])
        {
          GroupEndsSnoc(issues, i);
          var end := issues[i].end;
          if end.Some? && end.value != 0.0 && end.value > maxEnd {
            maxEnd := end.value;
          }
        }
        assert issues[..|issues|] == issues;
      }
    }
    assert groups[..|groups|] == groups;
    if maxEnd > 0.0 {
      r := maxEnd;
    } else {
      r := 60.0;
    }
  }

  lemma GroupEndsSnoc(issues: seq<Issue>, i: nat)
    requires i < |issues|
    ensures GroupEnds(issues[..i + 1]) == GroupEnds(issues[..i]) + (if issues[i].end.Some? then [issues[i].end.value] else [])
  {
    assert issues[..i + 1][..i] == issues[..i];
  }

  lemma AllEndsSnoc(groups: seq<Option<seq<Issue>>>, g: nat)
    requires g < |groups|
    ensures AllEnds(groups[..g + 1]) == AllEnds(groups[..g]) + (if groups[g].Some? then GroupEnds(groups[g].value) else [])
  {
    assert groups[..g + 1][..g] == groups[..g];
  }

  // ---------------------------------------------------------------------------
  // Speech rate badge
  // ---------------------------------------------------------------------------

  datatype Quality = Slow | Average | Good | Fast

  /** The rate shown: `results.speechRate || 100`. */
  function EffectiveRate(rate: Option<real>): real
  {
    if rate.Some? && rate.value != 0.0 then rate.value else 100.0
  }

  /** The badge: Good strictly between 90 and 110, Fast from 110, Slow up to 70, and
      Average otherwise. */
  function RateQuality(rate: Option<real>): Quality
  {
    var r := EffectiveRate(rate);
    if 90.0 < r < 110.0 then Good
    else if r >= 110.0 then Fast
    else if r <= 70.0 then Slow
    else Average
  }

  function Rank(q: Quality): nat
  {
    match q
    case Slow => 0
    case Average => 1
    case Good => 2
    case Fast => 3
  }

  /** Each badge covers one band of rates, and a missing rate counts as 100. */
  lemma QualityBands(rate: Option<real>)
    ensures var r := EffectiveRate(rate);
      (RateQuality(rate) == Slow <==> r <= 70.0) &&
      (RateQuality(rate) == Average <==> 70.0 < r <= 90.0) &&
      (RateQuality(rate) == Good <==> 90.0 < r < 110.0) &&
      (RateQuality(rate) == Fast <==> r >= 110.0)
    ensures rate.None? || rate == Some(0.0) ==> RateQuality(rate) == Good
  {
  }

  /** A faster rate never gets a slower badge. */
  lemma QualityMonotone(a: real, b: real)
    requires a != 0.0 && b != 0.0 && a <= b
    ensures Rank(RateQuality(Some(a))) <= Rank(RateQuality(Some(b)))
  {
  }

  // ---------------------------------------------------------------------------
  // Issue list
  // ---------------------------------------------------------------------------

  /** The filter value: the active filter's type, `all` when none is active. */
  function FilterValue(active: Option<string>): string
  {
    if active.Some? then active.value else "all"
  }

  predicate Passes(filter: string, itemType: string)
  {
    filter == "all" || filter == itemType
  }

  function CountPassing(filter: string, items: seq<string>): (n: nat)
    ensures n <= |items|
  {
    if items == [] then 0
    else CountPassing(filter, items[..|items| - 1]) + (if Passes(filter, items[|items| - 1]) then 1 else 0)
  }

  /** `applyIssueFilter`: which items are shown, how many, whether the empty-state message
      shows, and which legend entries are dimmed. */
  method ApplyIssueFilter(active: Option<string>, items: seq<string>, legend: seq<string>)
    returns (shown: seq<bool>, count: nat, emptyState: bool, dimmed: seq<bool>)
    ensures |shown| == |items| && forall i :: 0 <= i < |items| ==> shown[i] == Passes(FilterValue(active), items[i])
    ensures count == CountPassing(FilterValue(active), items)
    ensures emptyState <==> count == 0
    ensures |dimmed| == |legend| && forall i :: 0 <= i < |legend| ==> dimmed[i] == !Passes(FilterValue(active), legend[i])
  {
    var filter := FilterValue(active);
    shown := [];
    count := 0;
    for i := 0 to |items|
      invariant |shown| == i && forall k :: 0 <= k < i ==> shown[k] == Passes(filter, items[k])
      invariant count == CountPassing(filter, items[..i])
    {
      assert items[..i + 1][..i] == items[..i];
      if Passes(filter, items[i]) {
        shown := shown + [true];
        count := count + 1;
      } else {
        shown := shown + [false];
      }
    }
    assert items[..|items|] == items;
    dimmed := [];
    for i := 0 to |legend|
      invariant |dimmed| == i && forall k :: 0 <= k < i ==> dimmed[k] == !Passes(filter, legend[k])
    {
      dimmed := dimmed + [!Passes(filter, legend[i])];
    }
    emptyState := count == 0;
  }

  /** The count is zero exactly when no item passes, and is every item under `all`. */
  lemma {:induction false} CountMeaning(filter: string, items: seq<string>)
    ensures CountPassing(filter, items) == 0 <==> forall i :: 0 <= i < |items| ==> !Passes(filter, items[i])
    ensures filter == "all" ==> CountPassing(filter, items) == |items|
  {
    if items != [] {
      var init := items[..|items| - 1];
      CountMeaning(filter, init);
      assert forall i :: 0 <= i < |init| ==> init[i] == items[i];
    }
  }

  // ---------------------------------------------------------------------------
  // Issue item click
  // ---------------------------------------------------------------------------

  /** The highlight `handleIssueItemClick` settles on, as written: the `forEach`
      callback's `return` only ends one call, so every later match overwrites the
      earlier one and the last highlight with the same `data-timestamp` wins. */
  function LastMatching(timestamp: Option<string>, highlights: seq<Option<string>>): (r: Option<nat>)
    ensures r.Some? ==> r.value < |highlights| && highlights[r.value] == timestamp
    ensures r.Some? ==> forall j :: r.value < j < |highlights| ==> highlights[j] != timestamp
    ensures r.None? ==> timestamp.None? || timestamp == Some("") || forall j :: 0 <= j < |highlights| ==> highlights[j] != timestamp
  {
    if timestamp.None? || timestamp == Some("") || highlights == [] then None
    else if highlights[|highlights| - 1] == timestamp then Some(|highlights| - 1)
    else LastMatching(timestamp, highlights[..|highlights| - 1])
  }

  /** The `forEach` loop of `handleIssueItemClick`. */
  method FindMatching(timestamp: Option<string>, highlights: seq<Option<string>>) returns (matching: Option<nat>)
    ensures matching == LastMatching(timestamp, highlights)
  {
    if timestamp.None? || timestamp == Some("") {
      return None;
    }
    matching := None;
    for i := 0 to |highlights|
      invariant matching == LastMatching(timestamp, highlights[..i])
    {
      assert highlights[..i + 1][..i] == highlights[..i];
      if highlights[i] == timestamp {
        matching := Some(i);
      }
    }
    assert highlights[..|highlights|] == highlights;
  }

  /** The evidently intended lookup: the first highlight with the item's timestamp. */
  function FirstMatching(timestamp: Option<string>, highlights: seq<Option<string>>): (r: Option<nat>)
    ensures r.Some? ==> r.value < |highlights| && highlights[r.value] == timestamp
    ensures r.Some? ==> forall j :: 0 <= j < r.value ==> highlights[j] != timestamp
    ensures r.None? ==> timestamp.None? || timestamp == Some("") || forall j :: 0 <= j < |highlights| ==> highlights[j] != timestamp
  {
    if timestamp.None? || timestamp == Some("") || highlights == [] then None
    else if highlights[0] == timestamp then Some(0)
    else match FirstMatching(timestamp, highlights[1..]) {
      case None => None
      case Some(k) => Some(k + 1)
    }
  }

  /** Two highlights with the same range: the page scrolls to the second, the first
      would be expected. */
  lemma LastNotFirst()
    ensures LastMatching(Some("1.5:2.0"), [Some("1.5:2.0"), Some("1.5:2.0")]) == Some(1)
    ensures FirstMatching(Some("1.5:2.0"), [Some("1.5:2.0"), Some("1.5:2.0")]) == Some(0)
  {
    var h := [Some("1.5:2.0"), Some("1.5:2.0")];
    assert h[..1] == [Some("1.5:2.0")];
  }

  /** The two lookups agree whenever the timestamp occurs at most once. */
  lemma MatchingAgreeWhenUnique(timestamp: Option<string>, highlights: seq<Option<string>>)
    requires forall i, j :: 0 <= i < j < |highlights| && highlights[i] == timestamp ==> highlights[j] != timestamp
    ensures LastMatching(timestamp, highlights) == FirstMatching(timestamp, highlights)
  {
  }
}

/** The annotation filter of the transcript view: the list of active filters held by
    the control bar, the visibility rule it imposes on the highlights of a patient
    bubble, and the per-bubble counter that summarises how many highlights are shown. */
module AnnotationFilter {
  import opened JsText

  /** The two sentinel entries of the filter list. */
  const All: string := "all"
  const HideAll: string := "hide_all"

  predicate Distinct(s: seq<string>)
  {
    forall i, j :: 0 <= i < j < |s| ==> s[i] != s[j]
  }

  /** The states the control bar can reach: one sentinel alone, or a list of distinct,
      non-empty type names that is never empty while an All button exists. */
  predicate WellFormed(fs: seq<string>, hasAllButton: bool)
  {
    fs == [All] || fs == [HideAll] ||
    (All !in fs && HideAll !in fs && "" !in fs && Distinct(fs) && (hasAllButton ==> fs != []))
  }

  // ---------------------------------------------------------------------------
  // The filter list as a state machine
  // ---------------------------------------------------------------------------

  /** `list.filter(f => f !== v)`. */
  function Without(s: seq<string>, v: string): (r: seq<string>)
    ensures |r| <= |s|
  {
    if s == [] then []
    else Without(s[..|s| - 1], v) + (if s[|s| - 1] == v then [] else [s[|s| - 1]])
  }

  /** The Show All / Hide All button: a list showing everything switches to hiding
      everything, and any other list switches to showing everything. */
  function ToggledAll(fs: seq<string>): seq<string>
  {
    if All in fs then [HideAll] else [All]
  }

  /** A type button: a sentinel list is first emptied; the type is then added when
      absent and removed when present; a list left empty falls back to `['all']`
      provided the All button exists. */
  function ToggledType(fs: seq<string>, t: string, hasAllButton: bool): seq<string>
  {
    var base := if All in fs || HideAll in fs then [] else fs;
    var next := if t in base then Without(base, t) else base + [t];
    if next == [] && hasAllButton then [All] else next
  }

  /** One click on a filter button whose `data-type` is `value` (empty when absent). */
  function Pressed(fs: seq<string>, value: string, hasAllButton: bool): seq<string>
  {
    if value == "" then fs
    else if value == All then ToggledAll(fs)
    else ToggledType(fs, value, hasAllButton)
  }

  /** The filter list of the page together with the presence of its All button. */
  class FilterBar {
    var active: seq<string>
    const hasAllButton: bool

    /** Start-up: the list shows every annotation when the All button exists; without
        one it starts empty, so the first application of the filters hides every
        highlight. */
    constructor (hasAllButton: bool)
      ensures active == (if hasAllButton then [All] else []) && this.hasAllButton == hasAllButton
      ensures WellFormed(active, hasAllButton)
    {
      active := if hasAllButton then [All] else [];
      this.hasAllButton := hasAllButton;
    }

    /** The click handler of a filter button. */
    method Press(value: string)
      modifies this
      ensures active == Pressed(old(active), value, hasAllButton)
    {
      if value == "" {
        return;
      }
      if value == All {
        if All in active {
          active := [HideAll];
        } else {
          active := [All];
        }
        return;
      }
      if All in active || HideAll in active {
        active := [];
      }
      if value in active {
        var kept: seq<string> := [];
        var i := 0;
        while i < |active|
          invariant 0 <= i <= |active|
          invariant kept == Without(active[..i], value)
        {
          assert active[..i + 1][..i] == active[..i];
          if active[i] != value {
            kept := kept + [active[i]];
          }
          i := i + 1;
        }
        assert active[..|active|] == active;
        active := kept;
      } else {
        active := active + [value];
      }
      if active == [] && hasAllButton {
        active := [All];
      }
    }

    /** A click on a bubble's annotation counter: an all-hidden or mixed counter clicks
        the All button, an all-visible one clicks it only while `'all'` is active. */
    method ClickCounter(c: Counter)
      modifies this
      ensures active == AfterCounterClick(old(active), c, hasAllButton)
    {
      match c
      case NoCounter =>
      case AllVisible(_) =>
        if hasAllButton && All in active {
          Press(All);
        }
      case _ =>
        if hasAllButton {
          Press(All);
        }
    }
  }

  function AfterCounterClick(fs: seq<string>, c: Counter, hasAllButton: bool): seq<string>
  {
    match c
    case NoCounter => fs
    case AllVisible(_) => if hasAllButton && All in fs then Pressed(fs, All, hasAllButton) else fs
    case _ => if hasAllButton then Pressed(fs, All, hasAllButton) else fs
  }

  // ---------------------------------------------------------------------------
  // Properties of the state machine
  // ---------------------------------------------------------------------------

  lemma {:induction false} WithoutMembers(s: seq<string>, v: string, x: string)
    ensures x in Without(s, v) <==> x in s && x != v
  {
    if s != [] {
      WithoutMembers(s[..|s| - 1], v, x);
      assert s == s[..|s| - 1] + [s[|s| - 1]];
    }
  }

  lemma DistinctAppend(a: seq<string>, x: string)
    requires Distinct(a) && x !in a
    ensures Distinct(a + [x])
  {
  }

  lemma {:induction false} WithoutDistinct(s: seq<string>, v: string)
    requires Distinct(s)
    ensures Distinct(Without(s, v))
  {
    if s != [] {
      var init := s[..|s| - 1];
      WithoutDistinct(init, v);
      WithoutMembers(init, v, s[|s| - 1]);
      if s[|s| - 1] != v {
        DistinctAppend(Without(init, v), s[|s| - 1]);
      }
    }
  }

  /** Pressing Show/Hide All alternates between the two sentinels, so two presses from
      a list showing everything come back to `['all']`. */
  lemma ShowHideAll(fs: seq<string>, hasAllButton: bool)
    ensures All in fs ==> Pressed(fs, All, hasAllButton) == [HideAll]
    ensures All !in fs ==> Pressed(fs, All, hasAllButton) == [All]
    ensures Pressed(Pressed([All], All, hasAllButton), All, hasAllButton) == [All]
  {
  }

  /** A type pressed while a sentinel is active becomes the only filter. */
  lemma TypeFromSentinel(fs: seq<string>, t: string, hasAllButton: bool)
    requires All in fs || HideAll in fs
    requires t != "" && t != All
    ensures Pressed(fs, t, hasAllButton) == [t]
  {
  }

  /** In a partial list a type is appended when absent and removed when present, every
      other type keeping its membership; only a list emptied this way with an All button
      present falls back to `['all']`. */
  lemma TypeToggle(fs: seq<string>, t: string, hasAllButton: bool)
    requires All !in fs && HideAll !in fs
    requires t != "" && t != All
    ensures t !in fs ==> Pressed(fs, t, hasAllButton) == fs + [t]
    ensures t in fs && hasAllButton && (forall u :: u in fs ==> u == t) ==>
      Pressed(fs, t, hasAllButton) == [All]
    ensures t in fs && !(hasAllButton && (forall u :: u in fs ==> u == t)) ==>
      t !in Pressed(fs, t, hasAllButton) &&
      forall u :: u != t ==> (u in Pressed(fs, t, hasAllButton) <==> u in fs)
  {
    if t in fs {
      forall u ensures u in Without(fs, t) <==> u in fs && u != t {
        WithoutMembers(fs, t, u);
      }
      if Without(fs, t) == [] {
        forall u | u in fs ensures u == t {
          WithoutMembers(fs, t, u);
        }
      } else {
        WithoutMembers(fs, t, Without(fs, t)[0]);
      }
    }
  }

  /** Every click keeps the list in a reachable state; in particular a type toggle never
      leaves the list empty while the All button exists, and never duplicates a type. */
  lemma PressKeepsWellFormed(fs: seq<string>, v: string, hasAllButton: bool)
    requires WellFormed(fs, hasAllButton)
    requires v != HideAll
    ensures WellFormed(Pressed(fs, v, hasAllButton), hasAllButton)
  {
    if v != "" && v != All {
      var base := if All in fs || HideAll in fs then [] else fs;
      if v in base {
        WithoutDistinct(base, v);
        forall u ensures u in Without(base, v) <==> u in base && u != v {
          WithoutMembers(base, v, u);
        }
      } else {
        DistinctAppend(base, v);
      }
    }
  }

  // ---------------------------------------------------------------------------
  // Visibility of the highlights in one bubble
  // ---------------------------------------------------------------------------

  /** A highlight span: its `data-type` attribute (None when absent) and the names X of
      its `highlight-X` classes other than the `highlight-hidden` marker. */
  datatype Highlight = Highlight(dataType: Option<string>, classTypes: seq<string>)

  /** Filter `f` reaches the highlight through its `data-type`, through a `highlight-f`
      class, or, for `f == "hidden"`, through the `highlight-hidden` marker that every
      highlight carries at that moment. */
  predicate Matches(f: string, h: Highlight)
  {
    h.dataType == Some(f) || f in h.classTypes || f == "hidden"
  }

  predicate MatchesAny(gs: seq<string>, h: Highlight)
  {
    |gs| > 0 && (MatchesAny(gs[..|gs| - 1], h) || Matches(gs[|gs| - 1], h))
  }

  /** Whether `applyFilters` leaves the highlight visible. */
  predicate Shown(fs: seq<string>, h: Highlight)
  {
    All in fs || (HideAll !in fs && MatchesAny(fs, h))
  }

  lemma {:induction false} MatchesAnyExists(gs: seq<string>, h: Highlight)
    ensures MatchesAny(gs, h) <==> exists f :: f in gs && Matches(f, h)
  {
    if gs != [] {
      var init := gs[..|gs| - 1];
      MatchesAnyExists(init, h);
      assert gs == init + [gs[|gs| - 1]];
    }
  }

  /** With `'all'` every highlight is shown, with `'hide_all'` (and no `'all'`) every one
      is hidden, and otherwise a highlight is shown exactly when some active filter
      reaches it. */
  lemma Visibility(fs: seq<string>, h: Highlight)
    ensures All in fs ==> Shown(fs, h)
    ensures All !in fs && HideAll in fs ==> !Shown(fs, h)
    ensures All !in fs && HideAll !in fs ==> (Shown(fs, h) <==> exists f :: f in fs && Matches(f, h))
  {
    MatchesAnyExists(fs, h);
  }

  /** `applyFilters` on one bubble: `hidden[j]` is the `highlight-hidden` class of the
      j-th highlight. */
  method ApplyFilters(fs: seq<string>, hs: seq<Highlight>, hidden: array<bool>)
    requires hidden.Length == |hs|
    modifies hidden
    ensures forall j :: 0 <= j < |hs| ==> hidden[j] == !Shown(fs, hs[j])
  {
    if hidden.Length == 0 {
      return;
    }
    if All in fs {
      SetAll(hidden, false);
      return;
    }
    SetAll(hidden, true);
    if HideAll in fs {
      return;
    }
    var k := 0;
    while k < |fs|
      invariant 0 <= k <= |fs|
      invariant forall j :: 0 <= j < |hs| ==> hidden[j] == !MatchesAny(fs[..k], hs[j])
    {
      var f := fs[k];
      assert fs[..k + 1][..k] == fs[..k];
      var j := 0;
      while j < |hs|
        invariant 0 <= j <= |hs|
        invariant forall q :: 0 <= q < j ==> hidden[q] == !MatchesAny(fs[..k + 1], hs[q])
        invariant forall q :: j <= q < |hs| ==> hidden[q] == !MatchesAny(fs[..k], hs[q])
      {
        if hs[j].dataType == Some(f) || f in hs[j].classTypes || (f == "hidden" && hidden[j]) {
          hidden[j] := false;
        }
        j := j + 1;
      }
      k := k + 1;
    }
    assert fs[..|fs|] == fs;
  }

  method SetAll(a: array<bool>, b: bool)
    modifies a
    ensures forall j :: 0 <= j < a.Length ==> a[j] == b
  {
    var j := 0;
    while j < a.Length
      invariant 0 <= j <= a.Length
      invariant forall q :: 0 <= q < j ==> a[q] == b
    {
      a[j] := b;
      j := j + 1;
    }
  }

  // ---------------------------------------------------------------------------
  // The annotation counter of one bubble
  // ---------------------------------------------------------------------------

  /** The type a highlight is counted under: a present, non-empty `data-type`. */
  predicate IsTyped(h: Highlight)
  {
    h.dataType.Some? && h.dataType.value != ""
  }

  /** The counter does not look at classes: a type is hidden under `'hide_all'`, and
      otherwise when `'all'` is inactive and the type is not in the list. */
  predicate TypeHidden(fs: seq<string>, t: string)
  {
    HideAll in fs || (All !in fs && t !in fs)
  }

  /** The number of highlights counted under type `t`. */
  function CountType(hs: seq<Highlight>, t: string): nat
  {
    if hs == [] then 0
    else CountType(hs[..|hs| - 1], t) + (if IsTyped(hs[|hs| - 1]) && hs[|hs| - 1].dataType.value == t then 1 else 0)
  }

  /** The number of counted highlights. */
  function Typed(hs: seq<Highlight>): nat
  {
    if hs == [] then 0
    else Typed(hs[..|hs| - 1]) + (if IsTyped(hs[|hs| - 1]) then 1 else 0)
  }

  /** The number of counted highlights whose type is hidden. */
  function HiddenTyped(fs: seq<string>, hs: seq<Highlight>): (n: nat)
    ensures n <= Typed(hs)
  {
    if hs == [] then 0
    else
      var h := hs[|hs| - 1];
      HiddenTyped(fs, hs[..|hs| - 1]) + (if IsTyped(h) && TypeHidden(fs, h.dataType.value) then 1 else 0)
  }

  datatype Counter = NoCounter | AllHidden(total: nat) | AllVisible(total: nat) | Mixed(visible: nat, total: nat)

  /** The counter's three looks; `'hide_all'` is tested before `'all'`. */
  function Classify(fs: seq<string>, total: nat, hidden: nat): Counter
    requires hidden <= total
  {
    if total == 0 then NoCounter
    else if HideAll in fs || hidden == total then AllHidden(total)
    else if All in fs || hidden == 0 then AllVisible(total)
    else Mixed(total - hidden, total)
  }

  /** The per-type tally: the types in first-appearance order, the count of each, and
      the number of counted highlights. */
  method CountByType(hs: seq<Highlight>) returns (keys: seq<string>, stats: map<string, nat>, total: nat)
    ensures Distinct(keys)
    ensures forall t :: t in stats <==> t in keys
    ensures forall t :: t in keys <==> CountType(hs, t) > 0
    ensures forall t :: t in stats ==> stats[t] == CountType(hs, t)
    ensures total == Typed(hs)
  {
    keys, stats, total := [], map[], 0;
    var i := 0;
    while i < |hs|
      invariant 0 <= i <= |hs|
      invariant Distinct(keys)
      invariant forall t :: t in stats <==> t in keys
      invariant forall t :: t in keys <==> CountType(hs[..i], t) > 0
      invariant forall t :: t in stats ==> stats[t] == CountType(hs[..i], t)
      invariant total == Typed(hs[..i])
    {
      assert hs[..i + 1][..i] == hs[..i];
      var h := hs[i];
      if IsTyped(h) {
        var t := h.dataType.value;
        if t !in stats {
          DistinctAppend(keys, t);
          stats := stats[t := 0];
          keys := keys + [t];
        }
        stats := stats[t := stats[t] + 1];
        total := total + 1;
      }
      i := i + 1;
    }
    assert hs[..|hs|] == hs;
  }

  function SumCounts(ts: seq<string>, hs: seq<Highlight>): nat
  {
    if ts == [] then 0 else SumCounts(ts[..|ts| - 1], hs) + CountType(hs, ts[|ts| - 1])
  }

  /** `updateAnnotationVisibilityIndicators` for one bubble: the counter to show and the
      visible and hidden types; the hidden count is the sum of the hidden types' tallies. */
  method Indicator(fs: seq<string>, hs: seq<Highlight>) returns (c: Counter, visibleTypes: seq<string>, hiddenTypes: seq<string>)
    ensures c == Classify(fs, Typed(hs), HiddenTyped(fs, hs))
    ensures Typed(hs) > 0 ==> forall t :: t in hiddenTypes <==> CountType(hs, t) > 0 && TypeHidden(fs, t)
    ensures Typed(hs) > 0 ==> forall t :: t in visibleTypes <==> CountType(hs, t) > 0 && !TypeHidden(fs, t)
  {
    var keys, stats, total := CountByType(hs);
    if total == 0 {
      return NoCounter, [], [];
    }
    visibleTypes, hiddenTypes := PartitionTypes(fs, keys);
    var hiddenCount := SumHidden(hiddenTypes, stats, hs);
    SumOfHidden(fs, hiddenTypes, hs);
    c := Classify(fs, total, hiddenCount);
  }

  /** The counted types split into visible and hidden ones under the active filters. */
  method PartitionTypes(fs: seq<string>, keys: seq<string>) returns (visibleTypes: seq<string>, hiddenTypes: seq<string>)
    requires Distinct(keys)
    ensures Distinct(hiddenTypes)
    ensures forall t :: t in hiddenTypes <==> t in keys && TypeHidden(fs, t)
    ensures forall t :: t in visibleTypes <==> t in keys && !TypeHidden(fs, t)
  {
    var hideAll := HideAll in fs;
    var showAll := All in fs;
    visibleTypes, hiddenTypes := [], [];
    if hideAll {
      hiddenTypes := keys;
    } else if showAll {
      visibleTypes := keys;
    } else {
      var i := 0;
      while i < |keys|
        invariant 0 <= i <= |keys|
        invariant Distinct(hiddenTypes)
        invariant forall t :: t in hiddenTypes <==> t in keys[..i] && TypeHidden(fs, t)
        invariant forall t :: t in visibleTypes <==> t in keys[..i] && !TypeHidden(fs, t)
      {
        assert keys[..i + 1] == keys[..i] + [keys[i]];
        if keys[i] in fs {
          visibleTypes := visibleTypes + [keys[i]];
        } else {
          DistinctAppend(hiddenTypes, keys[i]);
          hiddenTypes := hiddenTypes + [keys[i]];
        }
        i := i + 1;
      }
      assert keys[..|keys|] == keys;
    }
  }

  /** The hidden count: the tallies of the hidden types added up. */
  method SumHidden(hiddenTypes: seq<string>, stats: map<string, nat>, hs: seq<Highlight>) returns (hiddenCount: nat)
    requires forall t :: t in hiddenTypes ==> t in stats && stats[t] == CountType(hs, t)
    ensures hiddenCount == SumCounts(hiddenTypes, hs)
  {
    hiddenCount := 0;
    var j := 0;
    while j < |hiddenTypes|
      invariant 0 <= j <= |hiddenTypes|
      invariant hiddenCount == SumCounts(hiddenTypes[..j], hs)
    {
      assert hiddenTypes[..j + 1][..j] == hiddenTypes[..j];
      hiddenCount := hiddenCount + stats[hiddenTypes[j]];
      j := j + 1;
    }
    assert hiddenTypes[..|hiddenTypes|] == hiddenTypes;
  }

  lemma {:induction false} CountTypeSnoc(hs: seq<Highlight>, h: Highlight, t: string)
    ensures CountType(hs + [h], t) == CountType(hs, t) + (if IsTyped(h) && h.dataType.value == t then 1 else 0)
  {
    assert (hs + [h])[..|hs|] == hs;
  }

  lemma {:induction false} SumCountsSnoc(ts: seq<string>, hs: seq<Highlight>, h: Highlight)
    requires Distinct(ts)
    ensures SumCounts(ts, hs + [h]) == SumCounts(ts, hs) + (if IsTyped(h) && h.dataType.value in ts then 1 else 0)
  {
    if ts != [] {
      var init := ts[..|ts| - 1];
      assert Distinct(init);
      SumCountsSnoc(init, hs, h);
      CountTypeSnoc(hs, h, ts[|ts| - 1]);
      assert ts == init + [ts[|ts| - 1]];
    }
  }

  /** Summing the tallies of a list of distinct hidden types that includes every hidden
      type present gives the number of hidden highlights. */
  lemma {:induction false} SumOfHidden(fs: seq<string>, ts: seq<string>, hs: seq<Highlight>)
    requires Distinct(ts)
    requires forall t :: t in ts ==> TypeHidden(fs, t)
    requires forall t :: CountType(hs, t) > 0 && TypeHidden(fs, t) ==> t in ts
    ensures SumCounts(ts, hs) == HiddenTyped(fs, hs)
  {
    if hs == [] {
      SumCountsEmpty(ts);
    } else {
      var init := hs[..|hs| - 1];
      var h := hs[|hs| - 1];
      assert hs == init + [h];
      forall t | CountType(init, t) > 0 && TypeHidden(fs, t) ensures t in ts {
        CountTypeSnoc(init, h, t);
      }
      SumOfHidden(fs, ts, init);
      SumCountsSnoc(ts, init, h);
      if IsTyped(h) {
        CountTypeSnoc(init, h, h.dataType.value);
      }
    }
  }

  lemma {:induction false} SumCountsEmpty(ts: seq<string>)
    ensures SumCounts(ts, []) == 0
  {
    if ts != [] {
      SumCountsEmpty(ts[..|ts| - 1]);
    }
  }

  /** Under `'hide_all'` every counted highlight is hidden; under `'all'` alone none is. */
  lemma {:induction false} HiddenUnderSentinels(fs: seq<string>, hs: seq<Highlight>)
    ensures HideAll in fs ==> HiddenTyped(fs, hs) == Typed(hs)
    ensures All in fs && HideAll !in fs ==> HiddenTyped(fs, hs) == 0
  {
    if hs != [] {
      HiddenUnderSentinels(fs, hs[..|hs| - 1]);
    }
  }

  /** What the counter says: all hidden under `'hide_all'`, all visible under `'all'`,
      and a mixed counter only for a partial list, with some but not all shown. */
  lemma CounterMeaning(fs: seq<string>, hs: seq<Highlight>)
    requires Typed(hs) > 0
    ensures HideAll in fs ==> Classify(fs, Typed(hs), HiddenTyped(fs, hs)) == AllHidden(Typed(hs))
    ensures All in fs && HideAll !in fs ==> Classify(fs, Typed(hs), HiddenTyped(fs, hs)) == AllVisible(Typed(hs))
    ensures Classify(fs, Typed(hs), HiddenTyped(fs, hs)).Mixed? ==>
      All !in fs && HideAll !in fs &&
      0 < Classify(fs, Typed(hs), HiddenTyped(fs, hs)).visible < Typed(hs)
  {
    HiddenUnderSentinels(fs, hs);
  }

  /** For a highlight marked only by its `data-type`, the counter's notion of a hidden
      type agrees with `applyFilters`, unless a filter named `hidden` is active. */
  lemma CounterAgreesWithVisibility(fs: seq<string>, h: Highlight)
    requires IsTyped(h) && h.classTypes == []
    requires "hidden" !in fs
    requires !(All in fs && HideAll in fs)
    ensures TypeHidden(fs, h.dataType.value) <==> !Shown(fs, h)
  {
    MatchesAnyExists(fs, h);
    if All !in fs && HideAll !in fs && h.dataType.value in fs {
      assert Matches(h.dataType.value, h);
    }
  }

  /** Clicking the counter of a reachable list with the All button present: an
      all-hidden or mixed counter restores `['all']`, and an all-visible counter under
      `'all'` switches to `['hide_all']`. */
  lemma CounterClickEffect(fs: seq<string>, hs: seq<Highlight>)
    requires WellFormed(fs, true)
    requires Typed(hs) > 0
    ensures var c := Classify(fs, Typed(hs), HiddenTyped(fs, hs));
      (c.AllHidden? || c.Mixed?) ==> AfterCounterClick(fs, c, true) == [All]
    ensures var c := Classify(fs, Typed(hs), HiddenTyped(fs, hs));
      c.AllVisible? && All in fs ==> AfterCounterClick(fs, c, true) == [HideAll]
  {
    HiddenUnderSentinels(fs, hs);
  }
}

/** The playback synchroniser: on every tick of the audio player the transcript marks
    the spans whose time range contains the current time, word timestamps first and
    annotation highlights only when no word matched, and scrolls the first marked span
    into view when it lies outside the transcript pane. */
module Playback {
  import opened JsText

  datatype Kind = WordSpan | AnnotationSpan

  /** A `data-timestamp="start:end"` range, already read as numbers. */
  datatype Range = Range(start: real, end: real)

  /** Top and bottom of a bounding rectangle, in pixels. */
  datatype Rect = Rect(top: int, bottom: int)

  /** One span of the transcript, in document order. `range` is None when the span has
      no usable timestamp; `bubble` is the patient bubble holding it (None outside
      patient bubbles, which the synchroniser ignores); `parent` is the annotation
      highlight that encloses a word; `frame` is the rectangle of the element scrolled
      to for this span (its bubble's container, the bubble, or the span itself). */
  datatype Span = Span(kind: Kind, range: Option<Range>, bubble: Option<nat>, parent: Option<nat>, frame: Rect)

  /** Indices point at existing bubbles and spans. */
  predicate WellFormed(spans: seq<Span>, bubbles: nat)
  {
    forall i :: 0 <= i < |spans| ==>
      (spans[i].bubble.Some? ==> spans[i].bubble.value < bubbles) &&
      (spans[i].parent.Some? ==> spans[i].parent.value < |spans|)
  }

  predicate Contains(s: Span, t: real)
  {
    s.bubble.Some? && s.range.Some? && s.range.value.start <= t <= s.range.value.end
  }

  /** A span the word pass (`words`) or the annotation pass (`!words`) marks at `t`. */
  predicate Hit(s: Span, t: real, words: bool)
  {
    Contains(s, t) && (if words then s.kind == WordSpan else s.kind == AnnotationSpan)
  }

  predicate AnyWordHit(spans: seq<Span>, t: real)
  {
    exists i :: 0 <= i < |spans| && Hit(spans[i], t, true)
  }

  /** Whether span `i` is marked as currently playing at time `t`. */
  predicate Marked(spans: seq<Span>, t: real, i: nat)
    requires i < |spans|
  {
    Hit(spans[i], t, AnyWordHit(spans, t))
  }

  function Marks(spans: seq<Span>, t: real): (r: seq<bool>)
    ensures |r| == |spans|
  {
    seq(|spans|, i requires 0 <= i < |spans| => Marked(spans, t, i))
  }

  /** Among the first `n` spans, a word span hit at `t` lies inside highlight `k`. */
  predicate ParentLit(spans: seq<Span>, t: real, n: nat, k: nat)
    requires n <= |spans|
  {
    exists j :: 0 <= j < n && Hit(spans[j], t, true) && spans[j].parent == Some(k)
  }

  /** Among the first `n` spans, one hit by the pass lies in bubble `b`. */
  predicate BubbleLit(spans: seq<Span>, t: real, words: bool, n: nat, b: nat)
    requires n <= |spans|
  {
    exists j :: 0 <= j < n && Hit(spans[j], t, words) && spans[j].bubble == Some(b)
  }

  /** The first `true` in `bs`: what `querySelector('.currently-playing')` picks. */
  function First(bs: seq<bool>): (r: Option<nat>)
    ensures r.Some? ==> r.value < |bs| && bs[r.value] && forall j :: 0 <= j < r.value ==> !bs[j]
    ensures r.None? ==> forall j :: 0 <= j < |bs| ==> !bs[j]
  {
    if bs == [] then None
    else if bs[0] then Some(0)
    else match First(bs[1..]) {
      case None => None
      case Some(k) => Some(k + 1)
    }
  }

  predicate Outside(e: Rect, pane: Rect)
  {
    e.top < pane.top || e.bottom > pane.bottom
  }

  /** The span scrolled into view, if any: the first marked one, when the pane exists
      and the span's frame is not fully inside it. */
  function ScrollTarget(spans: seq<Span>, t: real, pane: Option<Rect>): Option<nat>
  {
    match First(Marks(spans, t)) {
      case None => None
      case Some(i) => if pane.Some? && Outside(spans[i].frame, pane.value) then Some(i) else None
    }
  }

  /** The page's playback classes: `currently-playing`, `highlight-hidden` and
      `highlight-active` per span, `active-bubble` per patient bubble. */
  datatype View = View(playing: seq<bool>, hidden: seq<bool>, highlightActive: seq<bool>, activeBubble: seq<bool>)

  predicate Fits(v: View, spans: seq<Span>, bubbles: nat)
  {
    |v.playing| == |spans| && |v.hidden| == |spans| && |v.highlightActive| == |spans| && |v.activeBubble| == bubbles
  }

  function Falses(n: nat): (r: seq<bool>)
    ensures |r| == n && forall i :: 0 <= i < n ==> !r[i]
  {
    seq(n, i => false)
  }

  /** `clearActiveHighlights`: every playback mark removed, the filter's hiding kept. */
  function Cleared(spans: seq<Span>, bubbles: nat, hidden: seq<bool>): View
  {
    View(Falses(|spans|), hidden, Falses(|spans|), Falses(bubbles))
  }

  /** One span of a pass: a hit span is marked and un-hidden and its bubble activated;
      in the word pass its enclosing highlight is activated and un-hidden too. */
  function Visit(spans: seq<Span>, t: real, words: bool, v: View, i: nat): (r: View)
    requires i < |spans| && WellFormed(spans, |v.activeBubble|) && Fits(v, spans, |v.activeBubble|)
    ensures Fits(r, spans, |v.activeBubble|)
  {
    var s := spans[i];
    if !Hit(s, t, words) then v
    else
      var marked := View(v.playing[i := true], v.hidden[i := false], v.highlightActive, v.activeBubble[s.bubble.value := true]);
      if words && s.parent.Some? then
        View(marked.playing, marked.hidden[s.parent.value := false], marked.highlightActive[s.parent.value := true], marked.activeBubble)
      else marked
  }

  /** The view after a pass has visited the first `n` spans. */
  function PassUpTo(spans: seq<Span>, t: real, words: bool, v: View, n: nat): (r: View)
    requires n <= |spans| && WellFormed(spans, |v.activeBubble|) && Fits(v, spans, |v.activeBubble|)
    ensures Fits(r, spans, |v.activeBubble|)
  {
    if n == 0 then v else Visit(spans, t, words, PassUpTo(spans, t, words, v, n - 1), n - 1)
  }

  /** `highlightCurrentTranscriptSection`'s marks: clear, the word pass, and the
      annotation pass only when the word pass hit nothing. */
  function Ticked(spans: seq<Span>, t: real, bubbles: nat, hidden: seq<bool>): (r: View)
    requires WellFormed(spans, bubbles) && |hidden| == |spans|
    ensures Fits(r, spans, bubbles)
  {
    var w := PassUpTo(spans, t, true, Cleared(spans, bubbles, hidden), |spans|);
    if AnyWordHit(spans, t) then w else PassUpTo(spans, t, false, w, |spans|)
  }

  // ---------------------------------------------------------------------------
  // What a pass does, span by span
  // ---------------------------------------------------------------------------

  lemma {:induction false} PassPlaying(spans: seq<Span>, t: real, words: bool, v: View, n: nat, k: nat)
    requires n <= |spans| && WellFormed(spans, |v.activeBubble|) && Fits(v, spans, |v.activeBubble|)
    requires k < |spans|
    ensures PassUpTo(spans, t, words, v, n).playing[k] == (v.playing[k] || (k < n && Hit(spans[k], t, words)))
  {
    if n > 0 {
      PassPlaying(spans, t, words, v, n - 1, k);
    }
  }

  lemma {:induction false} PassHighlight(spans: seq<Span>, t: real, words: bool, v: View, n: nat, k: nat)
    requires n <= |spans| && WellFormed(spans, |v.activeBubble|) && Fits(v, spans, |v.activeBubble|)
    requires k < |spans|
    ensures PassUpTo(spans, t, words, v, n).highlightActive[k] == (v.highlightActive[k] || (words && ParentLit(spans, t, n, k)))
  {
    if n > 0 {
      PassHighlight(spans, t, words, v, n - 1, k);
      ParentStep(spans, t, n - 1, k);
    }
  }

  lemma {:induction false} PassHidden(spans: seq<Span>, t: real, words: bool, v: View, n: nat, k: nat)
    requires n <= |spans| && WellFormed(spans, |v.activeBubble|) && Fits(v, spans, |v.activeBubble|)
    requires k < |spans|
    ensures PassUpTo(spans, t, words, v, n).hidden[k] ==
      (v.hidden[k] && !(k < n && Hit(spans[k], t, words)) && !(words && ParentLit(spans, t, n, k)))
  {
    if n > 0 {
      PassHidden(spans, t, words, v, n - 1, k);
      ParentStep(spans, t, n - 1, k);
    }
  }

  lemma {:induction false} PassBubble(spans: seq<Span>, t: real, words: bool, v: View, n: nat, b: nat)
    requires n <= |spans| && WellFormed(spans, |v.activeBubble|) && Fits(v, spans, |v.activeBubble|)
    requires b < |v.activeBubble|
    ensures PassUpTo(spans, t, words, v, n).activeBubble[b] == (v.activeBubble[b] || BubbleLit(spans, t, words, n, b))
  {
    if n > 0 {
      PassBubble(spans, t, words, v, n - 1, b);
      BubbleStep(spans, t, words, n - 1, b);
    }
  }

  lemma ParentStep(spans: seq<Span>, t: real, i: nat, k: nat)
    requires i < |spans|
    ensures ParentLit(spans, t, i + 1, k) <==> ParentLit(spans, t, i, k) || (Hit(spans[i], t, true) && spans[i].parent == Some(k))
  {
  }

  lemma BubbleStep(spans: seq<Span>, t: real, words: bool, i: nat, b: nat)
    requires i < |spans|
    ensures BubbleLit(spans, t, words, i + 1, b) <==> BubbleLit(spans, t, words, i, b) || (Hit(spans[i], t, words) && spans[i].bubble == Some(b))
  {
  }

  /** A pass that hits nothing changes nothing. */
  lemma {:induction false} PassMissing(spans: seq<Span>, t: real, words: bool, v: View, n: nat)
    requires n <= |spans| && WellFormed(spans, |v.activeBubble|) && Fits(v, spans, |v.activeBubble|)
    requires forall j :: 0 <= j < n ==> !Hit(spans[j], t, words)
    ensures PassUpTo(spans, t, words, v, n) == v
  {
    if n > 0 {
      PassMissing(spans, t, words, v, n - 1);
    }
  }

  // ---------------------------------------------------------------------------
  // What a tick does
  // ---------------------------------------------------------------------------

  /** The spans marked after a tick are exactly those `Marked` describes. */
  lemma TickedPlaying(spans: seq<Span>, t: real, bubbles: nat, hidden: seq<bool>)
    requires WellFormed(spans, bubbles) && |hidden| == |spans|
    ensures Ticked(spans, t, bubbles, hidden).playing == Marks(spans, t)
  {
    var c := Cleared(spans, bubbles, hidden);
    var w := PassUpTo(spans, t, true, c, |spans|);
    var r := Ticked(spans, t, bubbles, hidden);
    forall k | 0 <= k < |spans| ensures r.playing[k] == Marks(spans, t)[k] {
      PassPlaying(spans, t, true, c, |spans|, k);
      if !AnyWordHit(spans, t) {
        PassPlaying(spans, t, false, w, |spans|, k);
      }
    }
  }

  /** After a tick a highlight is active exactly when a marked word inside it plays;
      words take precedence, so no highlight is activated by the annotation pass. */
  lemma TickedHighlight(spans: seq<Span>, t: real, bubbles: nat, hidden: seq<bool>, k: nat)
    requires WellFormed(spans, bubbles) && |hidden| == |spans| && k < |spans|
    ensures Ticked(spans, t, bubbles, hidden).highlightActive[k] == ParentLit(spans, t, |spans|, k)
  {
    var c := Cleared(spans, bubbles, hidden);
    var w := PassUpTo(spans, t, true, c, |spans|);
    PassHighlight(spans, t, true, c, |spans|, k);
    if !AnyWordHit(spans, t) {
      PassHighlight(spans, t, false, w, |spans|, k);
    }
  }

  /** A tick un-hides a span that is marked or holds a marked word, and otherwise keeps
      the hiding it started from: nothing in a tick hides a span again. */
  lemma TickedHidden(spans: seq<Span>, t: real, bubbles: nat, hidden: seq<bool>, k: nat)
    requires WellFormed(spans, bubbles) && |hidden| == |spans| && k < |spans|
    ensures Ticked(spans, t, bubbles, hidden).hidden[k] ==
      (hidden[k] && !Marked(spans, t, k) && !ParentLit(spans, t, |spans|, k))
  {
    var c := Cleared(spans, bubbles, hidden);
    var w := PassUpTo(spans, t, true, c, |spans|);
    PassHidden(spans, t, true, c, |spans|, k);
    if !AnyWordHit(spans, t) {
      PassMissing(spans, t, true, c, |spans|);
      PassHidden(spans, t, false, w, |spans|, k);
      assert !ParentLit(spans, t, |spans|, k);
    }
  }

  /** A bubble is active exactly when it holds a marked span. */
  lemma TickedBubble(spans: seq<Span>, t: real, bubbles: nat, hidden: seq<bool>, b: nat)
    requires WellFormed(spans, bubbles) && |hidden| == |spans| && b < bubbles
    ensures Ticked(spans, t, bubbles, hidden).activeBubble[b] == BubbleLit(spans, t, AnyWordHit(spans, t), |spans|, b)
  {
    var c := Cleared(spans, bubbles, hidden);
    var w := PassUpTo(spans, t, true, c, |spans|);
    PassBubble(spans, t, true, c, |spans|, b);
    if !AnyWordHit(spans, t) {
      PassMissing(spans, t, true, c, |spans|);
      PassBubble(spans, t, false, w, |spans|, b);
      assert !BubbleLit(spans, t, true, |spans|, b);
    }
  }

  // ---------------------------------------------------------------------------
  // Hiding across ticks
  // ---------------------------------------------------------------------------

  /** As written, a tick never hides a span: it only removes `highlight-hidden`, and
      `clearActiveHighlights` does not put it back. */
  lemma TicksNeverHide(spans: seq<Span>, t: real, bubbles: nat, hidden: seq<bool>, k: nat)
    requires WellFormed(spans, bubbles) && |hidden| == |spans| && k < |spans|
    ensures Ticked(spans, t, bubbles, hidden).hidden[k] ==> hidden[k]
  {
    TickedHidden(spans, t, bubbles, hidden, k);
  }

  /** As written, a span marked at one tick stays shown at every later tick, whether it
      still plays or not. */
  lemma StaysShownAfterPlayback(spans: seq<Span>, t1: real, t2: real, bubbles: nat, hidden: seq<bool>, k: nat)
    requires WellFormed(spans, bubbles) && |hidden| == |spans| && k < |spans|
    requires Marked(spans, t1, k)
    ensures !Ticked(spans, t2, bubbles, Ticked(spans, t1, bubbles, hidden).hidden).hidden[k]
  {
    var after := Ticked(spans, t1, bubbles, hidden).hidden;
    TickedHidden(spans, t1, bubbles, hidden, k);
    TickedHidden(spans, t2, bubbles, after, k);
  }

  /** One word hidden by the filter, playing from 1 to 2 seconds: after a tick at 1.5
      and another at 3.0 it no longer plays, yet it is still shown. */
  lemma ShownAfterPlaybackExample()
    ensures var spans := [Span(WordSpan, Some(Range(1.0, 2.0)), Some(0), None, Rect(0, 0))];
      var first := Ticked(spans, 1.5, 1, [true]);
      !Marked(spans, 3.0, 0) && !Ticked(spans, 3.0, 1, first.hidden).hidden[0]
  {
    var spans := [Span(WordSpan, Some(Range(1.0, 2.0)), Some(0), None, Rect(0, 0))];
    assert Hit(spans[0], 1.5, true);
    StaysShownAfterPlayback(spans, 1.5, 3.0, 1, [true], 0);
  }

  /** With the filter's hiding put back before each tick, a span that neither plays nor
      holds a playing word is hidden exactly when the filter hides it. */
  lemma RestoredHidingReturns(spans: seq<Span>, t: real, bubbles: nat, filterHidden: seq<bool>, k: nat)
    requires WellFormed(spans, bubbles) && |filterHidden| == |spans| && k < |spans|
    requires !Marked(spans, t, k) && !ParentLit(spans, t, |spans|, k)
    ensures Ticked(spans, t, bubbles, filterHidden).hidden[k] == filterHidden[k]
  {
    TickedHidden(spans, t, bubbles, filterHidden, k);
  }

  /** Every word span containing `t` is marked; an annotation is marked only when it
      contains `t` and no word does. */
  lemma MarkedMeaning(spans: seq<Span>, t: real, i: nat)
    requires i < |spans|
    ensures Hit(spans[i], t, true) ==> Marked(spans, t, i)
    ensures Marked(spans, t, i) && spans[i].kind == AnnotationSpan ==> Contains(spans[i], t) && !AnyWordHit(spans, t)
    ensures Marked(spans, t, i) ==> Contains(spans[i], t)
  {
  }

  /** The scroll target is the first marked span, and it is scrolled to only when the
      pane exists and the span sticks out above or below it. */
  lemma ScrollTargetIsFirst(spans: seq<Span>, t: real, pane: Option<Rect>)
    requires ScrollTarget(spans, t, pane).Some?
    ensures var i := ScrollTarget(spans, t, pane).value;
      i < |spans| && Marked(spans, t, i) && pane.Some? && Outside(spans[i].frame, pane.value) &&
      forall j :: 0 <= j < i ==> !Marked(spans, t, j)
  {
    var ms := Marks(spans, t);
    var i := First(ms).value;
    assert ms[i] == Marked(spans, t, i);
    forall j | 0 <= j < i ensures !Marked(spans, t, j) {
      assert ms[j] == Marked(spans, t, j);
    }
  }

  /** The first marked span is scrolled to exactly when the pane exists and the span
      lies outside it; with nothing marked there is no scrolling. */
  lemma ScrollTargetWhen(spans: seq<Span>, t: real, pane: Option<Rect>, i: nat)
    requires i < |spans| && Marked(spans, t, i)
    requires forall j :: 0 <= j < i ==> !Marked(spans, t, j)
    ensures ScrollTarget(spans, t, pane).Some? <==> pane.Some? && Outside(spans[i].frame, pane.value)
    ensures ScrollTarget(spans, t, pane).Some? ==> ScrollTarget(spans, t, pane).value == i
  {
    var ms := Marks(spans, t);
    assert ms[i];
  }

  lemma NoMarkNoScroll(spans: seq<Span>, t: real, pane: Option<Rect>)
    requires forall j :: 0 <= j < |spans| ==> !Marked(spans, t, j)
    ensures ScrollTarget(spans, t, pane).None?
  {
    var ms := Marks(spans, t);
    forall j | 0 <= j < |spans| ensures !ms[j] {
      assert ms[j] == Marked(spans, t, j);
    }
  }

  /** The transcript's playback classes, changed in place on every tick. */
  class Overlay {
    const spans: seq<Span>
    const bubbles: nat
    /** The hiding the annotation filter imposed when the overlay was set up. */
    const filterHidden: seq<bool>
    var playing: seq<bool>
    var hidden: seq<bool>
    var highlightActive: seq<bool>
    var activeBubble: seq<bool>

    function Current(): View
      reads this
    {
      View(playing, hidden, highlightActive, activeBubble)
    }

    predicate Valid()
      reads this
    {
      WellFormed(spans, bubbles) && Fits(Current(), spans, bubbles) && |filterHidden| == |spans|
    }

    constructor (spans: seq<Span>, bubbles: nat, hidden: seq<bool>)
      requires WellFormed(spans, bubbles) && |hidden| == |spans|
      ensures Valid() && this.spans == spans && this.bubbles == bubbles && filterHidden == hidden
      ensures Current() == Cleared(spans, bubbles, hidden)
    {
      this.spans := spans;
      this.bubbles := bubbles;
      this.filterHidden := hidden;
      this.hidden := hidden;
      playing := Falses(|spans|);
      highlightActive := Falses(|spans|);
      activeBubble := Falses(bubbles);
    }

    method Clear()
      requires Valid()
      modifies this
      ensures Valid() && Current() == Cleared(spans, bubbles, old(hidden))
    {
      playing := Falses(|spans|);
      highlightActive := Falses(|spans|);
      activeBubble := Falses(bubbles);
    }

    /** One `forEach` pass over the spans; reports whether anything was hit. */
    method Pass(t: real, words: bool) returns (found: bool)
      requires Valid()
      modifies this
      ensures Valid()
      ensures Current() == PassUpTo(spans, t, words, old(Current()), |spans|)
      ensures found <==> exists j :: 0 <= j < |spans| && Hit(spans[j], t, words)
    {
      found := false;
      var i := 0;
      while i < |spans|
        invariant 0 <= i <= |spans| && Valid()
        invariant Current() == PassUpTo(spans, t, words, old(Current()), i)
        invariant found <==> exists j :: 0 <= j < i && Hit(spans[j], t, words)
      {
        var s := spans[i];
        if Hit(s, t, words) {
          playing := playing[i := true];
          hidden := hidden[i := false];
          found := true;
          activeBubble := activeBubble[s.bubble.value := true];
          if words && s.parent.Some? {
            highlightActive := highlightActive[s.parent.value := true];
            hidden := hidden[s.parent.value := false];
          }
        }
        i := i + 1;
      }
    }

    /** `highlightCurrentTranscriptSection` at time `t`; returns the span scrolled into
        view, if any. */
    method Tick(t: real, pane: Option<Rect>) returns (scrollTo: Option<nat>)
      requires Valid()
      modifies this
      ensures Valid()
      ensures Current() == Ticked(spans, t, bubbles, old(hidden))
      ensures scrollTo == ScrollTarget(spans, t, pane)
    {
      Clear();
      var found := Pass(t, true);
      if !found {
        found := Pass(t, false);
      }
      TickedPlaying(spans, t, bubbles, old(hidden));
      var target := First(playing);
      scrollTo := None;
      if target.Some? && pane.Some? && Outside(spans[target.value].frame, pane.value) {
        scrollTo := target;
      }
    }

    /** The evidently intended tick: the filter's hiding is put back first, so a span
        the filter hides is shown only while it, or a word inside it, plays. */
    method TickRestoring(t: real, pane: Option<Rect>) returns (scrollTo: Option<nat>)
      requires Valid()
      modifies this
      ensures Valid()
      ensures Current() == Ticked(spans, t, bubbles, filterHidden)
      ensures scrollTo == ScrollTarget(spans, t, pane)
    {
      hidden := filterHidden;
      scrollTo := Tick(t, pane);
    }
  }
}

# Transcript viewer core, modelled in Dafny

The viewer shows speech transcripts for a speech therapist. Patient bubbles are
annotated with highlights for fillers, repetitions, mispronunciations, grammar
issues and pauses, and an audio player keeps the playing word marked as it
goes. Everything runs in one browser script, `public/js/main.js`. This project
models the rule sets buried under its event handlers, each as plain data:

- `AnnotationFilter` (annotationfilter.dfy) holds the annotation filter list:
  - the list is either the sentinel `'all'`, the sentinel `'hide_all'`, or a
    partial list of type names;
  - the three-regime click handler that updates it is a class `FilterBar`;
  - `applyFilters` hides the highlights of one bubble, and is a method over an
    array of `highlight-hidden` flags;
  - the per-bubble annotation counter tallies the highlights by type and shows
    one of three looks: all hidden, all visible or mixed.
- `SpeechText` (speechtext.dfy) is the end of `processSpeechText`:
  - the pause offsets, taken from sentence boundaries first and word boundaries
    after;
  - inserting the pause spans from the highest offset down;
  - cutting the marked-up text into sentences at a period followed by
    whitespace or the end, unless a tag closes after it.
- `TimestampEditor` (timestampeditor.dfy) is the save path of the transcript
  edit popup:
  - `collectTimestamps` keeps the complete rows;
  - `applyTimestampsToContent` sorts the entries stably by their first
    case-insensitive occurrence;
  - it then scans the plain text left to right with a cursor, emitting
    untouched text and one span per found entry.
- `EditHistory` (edithistory.dfy) is the bounded undo/redo history of the
  editor: a class whose entry list and cursor change in place.
- `Playback` (playback.dfy) is the playback synchroniser:
  - on a tick, the marks are cleared;
  - every word span containing the current time is marked;
  - annotation spans are marked only when no word matched;
  - marked spans are un-hidden and their bubble activated, and they stay
    un-hidden after playback moves on;
  - the first marked span is scrolled to when it lies outside the pane.
- `PlayerControls` (playercontrols.dfy) covers the audio player's controls and
  the issue list:
  - the skip buttons, the progress and seek clamps;
  - the default total duration;
  - the speech-rate badge;
  - the issue filter, and the issue-item lookup.
- `TimeFormat` (timeformat.dfy) covers the clock texts:
  - the editor's `MM:SS.mmm` fields and their parser;
  - the recording clock;
  - the player clock and the detail popup clock.
- Three support modules stand for run-time behaviour the script relies on:
  - `JsText` covers `split`, `indexOf`, ASCII `toLowerCase`, `trim`
    emptiness, `toString`, `padStart` and `parseInt`;
  - `JsNumber` covers JavaScript numbers with NaN and the infinities;
  - `Sorting` is the stable sort of `Array.prototype.sort`, written as an
    insertion sort with its properties proved.

Inputs the browser supplies become parameters:
- the plain text of an edited bubble;
- the spans of the transcript in document order, with their parsed ranges and
  rectangles;
- the current time, the duration and the pane rectangle.

Two behaviours of `main.js` are worth stating outright, since a reader might
expect otherwise:
- A playback tick marks every span that contains the current time, and then
  scrolls only to the first marked one; it does not keep a single active span.
- On save, a timestamp entry that is no longer found in the edited text is
  passed over silently; no warning is logged.

## Model

| member | source | states |
|---|---|---|
| AnnotationFilter.FilterBar.constructor | public/js/main.js:1714-1745 | After start-up the list is `['all']` when the All button exists and empty otherwise, which hides every highlight; either way it is well formed. |
| AnnotationFilter.FilterBar.Press | public/js/main.js:225-354 | A click leaves the list equal to `Pressed(old list, data-type, hasAllButton)`; the in-place `filter` loop computes `Without`. |
| AnnotationFilter.ShowHideAll | public/js/main.js:240-284 | Show/Hide All turns a list holding `'all'` into `['hide_all']` and any other list into `['all']`, so two presses from `['all']` come back to `['all']`. |
| AnnotationFilter.TypeFromSentinel | public/js/main.js:289-323 | A type pressed while a sentinel is active becomes the only filter, `[type]`. |
| AnnotationFilter.TypeToggle | public/js/main.js:313-347 | In a partial list an absent type is appended, a present one removed with every other membership kept, and only a list emptied this way (with the All button present) collapses to `['all']`. |
| AnnotationFilter.PressKeepsWellFormed | public/js/main.js:225-354 | Every click keeps the list reachable: one sentinel alone, or distinct non-empty types never left empty while the All button exists. |
| AnnotationFilter.WithoutMembers | public/js/main.js:329 | `filter(f => f !== v)` keeps exactly the members other than `v`. |
| AnnotationFilter.WithoutDistinct | public/js/main.js:329 | Filtering a list of distinct types keeps them distinct. |
| AnnotationFilter.MatchesAnyExists | public/js/main.js:577-594 | The un-hiding pass reaches a highlight exactly when some active filter matches its `data-type` or a `highlight-` class. |
| AnnotationFilter.Visibility | public/js/main.js:541-595 | With `'all'` every highlight is shown, with `'hide_all'` every one is hidden, otherwise a highlight is shown iff some active filter reaches it. |
| AnnotationFilter.ApplyFilters | public/js/main.js:541-595 | After the passes over the bubble, each highlight's hidden flag is exactly `!Shown(filters, highlight)`. |
| AnnotationFilter.CountByType | public/js/main.js:385-398 | The tally holds exactly the present types, in first-appearance order without repetition, each with its count, and the total of typed highlights. |
| AnnotationFilter.PartitionTypes | public/js/main.js:415-434 | The counted types split into hidden ones (under `'hide_all'`, or absent from a list without `'all'`) and visible ones, the hidden ones distinct. |
| AnnotationFilter.SumHidden | public/js/main.js:444 | The hidden count is the sum of the hidden types' tallies. |
| AnnotationFilter.SumOfHidden | public/js/main.js:444-445 | That sum equals the number of typed highlights whose type is hidden. |
| AnnotationFilter.Indicator | public/js/main.js:374-471 | The counter is `Classify(filters, typed highlights, hidden ones)`, and the visible and hidden type lists are exactly the present types on each side. |
| AnnotationFilter.HiddenUnderSentinels | public/js/main.js:419-424 | Under `'hide_all'` every counted highlight is hidden; under `'all'` alone none is. |
| AnnotationFilter.CounterMeaning | public/js/main.js:442-471 | The counter reads all hidden under `'hide_all'`, all visible under `'all'`, and mixed only for a partial list showing some but not all. |
| AnnotationFilter.CounterAgreesWithVisibility | public/js/main.js:419-434 | For a highlight marked only by its `data-type`, the counter's hidden types agree with what `applyFilters` hides. |
| AnnotationFilter.FilterBar.ClickCounter | public/js/main.js:507-532 | Clicking the counter clicks the All button as the handler does: always for all-hidden or mixed, for all-visible only while `'all'` is active. |
| AnnotationFilter.CounterClickEffect | public/js/main.js:507-532 | With the All button present, an all-hidden or mixed counter restores `['all']`, and an all-visible counter under `'all'` switches to `['hide_all']`. |
| SpeechText.SentenceOffsetBoundary | public/js/main.js:1116-1118 | The k-th sentence offset lies right after the period of the k-th `". "`. |
| SpeechText.WordOffsetBoundary | public/js/main.js:1126-1130 | The k-th word offset lies right after the k-th space. |
| SpeechText.SentenceOffsets | public/js/main.js:1109-1119 | The sentence pass yields one offset per `". "`, no more than the pauses, the k-th being the k-th sentence offset. |
| SpeechText.WordOffsets | public/js/main.js:1121-1133 | The word pass equals the reference `Extend` over the word candidates. |
| SpeechText.ExtendLength | public/js/main.js:1126 | The word pass never takes more offsets than there are pauses and drops none it was given. |
| SpeechText.ExtendAdds | public/js/main.js:1126-1132 | The word pass keeps the sentence offsets as a prefix and adds only offsets right after a space whose preceding offset is not already taken. |
| SpeechText.DedupeFacts | public/js/main.js:1136 | `[...new Set(ps)]` keeps exactly the members, without repetition. |
| SpeechText.SortedAscending | public/js/main.js:1136 | Sorting the de-duplicated offsets gives them strictly ascending. |
| SpeechText.SortedMembers | public/js/main.js:1136 | The sorted offsets are exactly the collected ones, no more of them. |
| SpeechText.RawOffsetsFacts | public/js/main.js:1112-1133 | Every sentence candidate is collected; every other collected offset follows a space and is not right after a sentence offset; no more offsets than pauses. |
| SpeechText.PauseOffsets | public/js/main.js:1104-1139 | The computed offsets equal `PlannedOffsets(text, pauses)`. |
| SpeechText.PlannedOffsetsMeaning | public/js/main.js:1104-1139 | The offsets are ascending and unique, no more than the pauses, include every sentence candidate, and every other offset is a word boundary not right after a sentence offset. |
| SpeechText.SentencesFirst | public/js/main.js:1115-1122 | With at least as many `". "` as pauses, exactly the first sentence offsets are used. |
| SpeechText.InsertPauses | public/js/main.js:1141-1154 | Inserting from the last offset down puts the i-th pause's span at the i-th offset for every offset inside the text: the result is `Spliced(text, offsets, markers)`. |
| SpeechText.TailWeave | public/js/main.js:1143-1154 | The text after the first j cuts, with its markers, is its pieces interleaved with the markers. |
| SpeechText.PiecesConcat | public/js/main.js:1143-1154 | The pieces between cuts read back as the text. |
| SpeechText.PiecesBetweenOffsets | public/js/main.js:1148-1153 | Each piece runs from one offset inside the text to the next, the last to the end. |
| SpeechText.SplicedKeepsText | public/js/main.js:1141-1154 | Deleting the inserted pause spans gives back the text: the output is the text cut at its in-range offsets with the i-th marker after the i-th cut. |
| SpeechText.NextPeriod | public/js/main.js:1163-1166 | `periodRegex.exec` returns -1 or the next position at or after the cursor where the pattern matches. |
| SpeechText.LookaheadInsideRun | public/js/main.js:1163 | Backtracking the `\s+` cannot turn a rejected period into a match: the `(?![^<]*>)` lookahead sees the same bracket from anywhere in the run. |
| SpeechText.SplitSentences | public/js/main.js:1157-1186 | The `while` loop over the matches yields `Sentences(text)`. |
| SpeechText.SentencesNotBlank | public/js/main.js:1167-1179 | No sentence the loop keeps is blank. |
| SpeechText.SentencesEndWithPeriod | public/js/main.js:1166-1172 | Every sentence but the last ends with its period. |
| SpeechText.SentencesKeepText | public/js/main.js:1166-1180 | Splitting drops only whitespace: the visible characters of the sentences, in order, are those of the text. |
| SpeechText.ProcessSpeechText | public/js/main.js:1063-1189 | From the annotated text on, the result equals `SpeechSentences`: pauses placed, then split, with the whole text as the fallback. |
| SpeechText.SpeechSentencesShape | public/js/main.js:1182-1188 | The result is never empty, and unless it is the fallback every sentence shows something. |
| TimestampEditor.CollectTimestamps | public/js/main.js:2548-2568 | The loop yields `Collected(rows)`. |
| TimestampEditor.CollectedRows | public/js/main.js:2558-2564 | One entry per row with text, start and end filled in, each built from such a row with `timestamp == start:end`. |
| TimestampEditor.TimestampDecodes | public/js/main.js:2561 | `split(':')` of the stored timestamp gives back start and end when neither holds a colon. |
| TimestampEditor.EntriesByFirstOccurrence | public/js/main.js:2617-2621 | The entries are ordered by their first case-insensitive occurrence, as a permutation, ties keeping the rows' order. |
| TimestampEditor.Find | public/js/main.js:2628 | A found position lies at or after the cursor, with the whole entry text inside the plain text. |
| TimestampEditor.FindIsIndexOf | public/js/main.js:2628 | The search is `plain.toLowerCase().indexOf(text.toLowerCase(), from)`. |
| TimestampEditor.Step | public/js/main.js:2624-2658 | One entry's turn never moves the cursor back nor past the text. |
| TimestampEditor.StepAt | public/js/main.js:2624-2659 | The scan from entry i is that entry's pieces followed by the scan of the rest from the cursor it leaves. |
| TimestampEditor.ScanSorted | public/js/main.js:2613-2662 | The `for` loop with its `lastIndex` cursor yields `ScanFrom(plain, sorted, 0)`. |
| TimestampEditor.ApplyTimestamps | public/js/main.js:2606-2662 | The rebuilt bubble equals `Rebuilt(plain, timestamps)`: sort, then scan. |
| TimestampEditor.SkippedEntries | public/js/main.js:2625-2629 | A blank entry, or one not found after the cursor, is dropped and the cursor stays. |
| TimestampEditor.SpanKind | public/js/main.js:2640-2655 | Type `word` or no type gives a word-timestamp span; any other type gives a highlight carrying that type; both keep the timestamp and the original casing. |
| TimestampEditor.StepKeepsText | public/js/main.js:2631-2658 | One entry's pieces spell exactly the plain text between the old and the new cursor. |
| TimestampEditor.ScanKeepsText | public/js/main.js:2613-2662 | The untouched text and the span contents, concatenated in order, equal the plain text. |
| TimestampEditor.MatchIsFirstOccurrence | public/js/main.js:2628-2635 | A span holds the case-insensitive match of its entry at the first occurrence at or after the cursor. |
| TimestampEditor.PiecesInPlace | public/js/main.js:2624-2662 | Each piece is the plain text at its own offset and the next piece starts where it ends, so matches are disjoint and left to right. |
| EditHistory.History.constructor | public/js/main.js:3919-3921 | The history starts empty with the cursor at -1. |
| EditHistory.History.Open | public/js/main.js:4234-4236 | Opening the editor leaves the initial content as the only entry, current. |
| EditHistory.History.Save | public/js/main.js:3924-3949 | The in-place push/slice/shift leaves the state `Saved(old state, content)`. |
| EditHistory.History.Undo | public/js/main.js:3952-3958 | The state becomes `Undone(old state)`. |
| EditHistory.History.Redo | public/js/main.js:3961-3967 | The state becomes `Redone(old state)`. |
| EditHistory.OpenedValid | public/js/main.js:4234-4236 | The opened history is well formed with both buttons disabled. |
| EditHistory.OperationsKeepValid | public/js/main.js:3924-3967 | Save, undo and redo keep the list within 20 entries and the cursor on an entry. |
| EditHistory.SaveSameIsNoop | public/js/main.js:3927-3930 | Saving the content under the cursor changes nothing. |
| EditHistory.SaveMeaning | public/js/main.js:3932-3945 | A real save keeps the entries up to the cursor, appends the content and keeps the last 20, the content current and nothing left to redo. |
| EditHistory.SaveEnablesUndo | public/js/main.js:3938-3945 | After a real save onto a non-empty history undo is enabled. |
| EditHistory.ButtonsMatchOperations | public/js/main.js:3970-3985 | The undo (redo) button is disabled exactly when undo (redo) would change nothing. |
| EditHistory.UndoRedoInverse | public/js/main.js:3952-3967 | Undo then redo, and redo then undo, restore the same state when enabled. |
| EditHistory.UndoShowsPrevious | public/js/main.js:3952-3958 | Undo keeps the entries and shows the one saved before the current one. |
| Playback.Overlay.constructor | public/js/main.js:2099-2106 | A new overlay holds no playback marks, takes the filter's hiding as its own and records it for restoring. |
| Playback.Overlay.Clear | public/js/main.js:2099-2106 | `clearActiveHighlights` removes every playback mark and keeps the hiding. |
| Playback.Overlay.Pass | public/js/main.js:2024-2074 | One `forEach` pass leaves the view `PassUpTo(..., all spans)` and reports whether any span was hit. |
| Playback.Overlay.Tick | public/js/main.js:2017-2096 | The new view is `Ticked(spans, t, bubbles, old hiding)` and the scroll target is `ScrollTarget(spans, t, pane)`. |
| Playback.PassPlaying | public/js/main.js:2025-2034 | After a pass over n spans, a span plays iff it played before or is among them and hit. |
| Playback.PassHighlight | public/js/main.js:2041-2047 | A highlight is activated by the word pass iff a hit word inside it was visited. |
| Playback.PassHidden | public/js/main.js:2032-2046 | A span stays hidden unless it was hit or, in the word pass, a hit word inside it was visited. |
| Playback.PassBubble | public/js/main.js:2036-2040 | A bubble becomes active iff a visited hit span lies in it. |
| Playback.PassMissing | public/js/main.js:2053-2054 | A pass that hits nothing changes nothing. |
| Playback.TickedPlaying | public/js/main.js:2021-2074 | After a tick the playing spans are exactly `Marks(spans, t)`. |
| Playback.TickedHighlight | public/js/main.js:2041-2047 | After a tick a highlight is active exactly when a playing word lies inside it. |
| Playback.TickedHidden | public/js/main.js:2030-2064 | A tick un-hides every marked span and every highlight holding a marked word, and keeps every other span's hiding as it found it; since `clearActiveHighlights` never restores `highlight-hidden`, a span the filter hides stays shown once it has played. |
| Playback.TicksNeverHide | public/js/main.js:2030-2106 | As written, no tick hides a span that was shown before it. |
| Playback.StaysShownAfterPlayback | public/js/main.js:2030-2106 | As written, a span marked at one tick is still shown at any later tick, whether it plays then or not. |
| Playback.ShownAfterPlaybackExample | public/js/main.js:2030-2106 | A filtered word playing from 1 to 2 seconds, ticked at 1.5 and then at 3.0, no longer plays but is still shown. |
| Playback.RestoredHidingReturns | public/js/main.js:2032 | With the filter's hiding put back before the tick, a span that neither plays nor holds a playing word is hidden exactly when the filter hides it. |
| Playback.Overlay.TickRestoring | public/js/main.js:2017-2096 | The intended tick: the view is `Ticked` computed from the filter's own hiding rather than the previous tick's, with the same scroll target. |
| Playback.TickedBubble | public/js/main.js:2036-2070 | A bubble is active exactly when it holds a span hit by the pass that ran last. |
| Playback.MarkedMeaning | public/js/main.js:2024-2074 | Every word span containing t is marked; an annotation is marked only when it contains t and no word does. |
| Playback.First | public/js/main.js:2077 | `querySelector('.currently-playing')` picks the first marked span, or none when none is marked. |
| Playback.ScrollTargetIsFirst | public/js/main.js:2076-2095 | The scroll target is the first marked span, and only when the pane exists and that span's frame sticks out of it. |
| Playback.ScrollTargetWhen | public/js/main.js:2084-2093 | The first marked span is scrolled to exactly when the pane exists and the span lies outside it. |
| Playback.NoMarkNoScroll | public/js/main.js:2077-2078 | With nothing marked nothing scrolls. |
| PlayerControls.Max | public/js/main.js:1380 | `Math.max` is NaN when an argument is, otherwise the larger argument. |
| PlayerControls.SkipBackMeaning | public/js/main.js:2003 | Skipping back never goes before 0, goes back 10 seconds when it can, and lands on 0 iff the time was at most 10. |
| PlayerControls.SkipForwardMeaning | public/js/main.js:2011 | Skipping forward stays within the duration, goes 10 seconds ahead when it can, gives NaN for an unknown duration and a plain step for an endless one. |
| PlayerControls.ProgressClamp | public/js/main.js:1380 | The bar percentage lies in [0, 100], is kept when already there, NaN passes through, and clamping is idempotent. |
| PlayerControls.SeekPercentMeaning | public/js/main.js:1360-1364 | The clamped offset lies in the bar; a bar of positive width gives the offset's fraction times 100 within [0, 100], width 0 gives NaN. |
| PlayerControls.SeekTimeMeaning | public/js/main.js:1367-1370 | Without a duration nothing moves; with a positive duration the seek lands on the clicked fraction of it, within [0, duration]. |
| PlayerControls.TotalDuration | public/js/main.js:1977-1998 | The result is positive: the largest end time when one is positive, else 60. |
| PlayerControls.QualityBands | public/js/main.js:865-878 | Slow iff the rate is at most 70, Average in (70, 90], Good in (90, 110), Fast from 110; a missing or zero rate counts as 100, which is Good. |
| PlayerControls.QualityMonotone | public/js/main.js:869-878 | A faster rate never gets a slower badge. |
| PlayerControls.ApplyIssueFilter | public/js/main.js:1877-1923 | An item is shown and a legend entry undimmed iff the filter is `all` or its type; the badge counts the shown items; the empty state shows iff none is. |
| PlayerControls.CountMeaning | public/js/main.js:1883-1894 | The count is zero iff no item passes, and every item under `all`. |
| PlayerControls.LastMatching | public/js/main.js:1773-1779 | As written, the lookup keeps the last highlight with the item's timestamp. |
| PlayerControls.FindMatching | public/js/main.js:1771-1779 | The `forEach` loop yields `LastMatching`. |
| PlayerControls.FirstMatching | public/js/main.js:1773-1779 | The intended lookup: the first highlight with the item's timestamp, or none. |
| PlayerControls.LastNotFirst | public/js/main.js:1773-1779 | With two highlights sharing a timestamp the page picks the second, not the first. |
| PlayerControls.MatchingAgreeWhenUnique | public/js/main.js:1773-1779 | When the timestamp occurs at most once both lookups agree. |
| TimeFormat.TimeInputRoundTrip | public/js/main.js:3849-3869 | Parsing the editor text of a whole-millisecond value gives the value back. |
| TimeFormat.TimeInputShape | public/js/main.js:3849-3855 | The editor text has exactly one colon and ends in a dot and three digits spelling the milliseconds. |
| TimeFormat.ParseNeedsOneColon | public/js/main.js:3859-3860 | A text without exactly one colon parses to 0. |
| TimeFormat.RecordingClockRoundTrip | public/js/main.js:763-767 | The recording clock `MM:SS` reads back as its seconds. |
| TimeFormat.PlayerClockMeaning | public/js/main.js:1446-1452 | NaN and the infinities show `0:00`; a non-negative time reads back as its whole seconds. |
| TimeFormat.DetailClockMeaning | public/js/main.js:141-146 | The popup clock shows two-digit minutes, seconds below 60 and centiseconds below 100 that together are the time's whole centiseconds. |
| JsText.ParseDigits | public/js/main.js:3864-3866 | `parseInt` of a run of decimal digits is its value. |
| JsText.DigitsOfNat | public/js/main.js:3854 | The digits `toString` writes read back as the number. |
| JsText.JoinSplit | public/js/main.js:1109 | The pieces of `split(sep)` joined with `sep` give back the text. |
| Sorting.SortPermutation | public/js/main.js:2617-2621 | The sort returns a permutation of its input. |
| Sorting.SortSorted | public/js/main.js:2617-2621 | The sort returns its input ordered by the key. |
| Sorting.SortStable | public/js/main.js:2617-2621 | Elements with equal keys keep their relative order. |

## Left out

- DOM querying and mutation, as well as markup strings, CSS, icons, tooltips and toasts. Spans and classes are modelled as data.
- Event wiring, I/O and timing:
  - event-listener wiring;
  - sockets, `fetch`, media capture, the clipboard and `localStorage`;
  - timers and animations.
  None of these is computation the model can check.
- One filter path is not modelled: a filter button or issue item without a `data-type` attribute. `Press` treats a missing value as an empty one, which the handler ignores on the same footing.
- The regular-expression annotation passes of `processSpeechText` are not modelled. They use a global `\b…\b` replace, whose semantics belong to the regex engine. The model starts from their output.
- `calculateTotalDuration`'s result inside `processSpeechText` is not used there, so it is not modelled.
- Pause and highlight attribute text is carried as an opaque string. This covers `toFixed` durations and the random `uniqueId` suffix, which is nondeterministic.
- `textContent` extraction of the edited content is not modelled. The plain text is a parameter.
- `toLowerCase` is modelled for ASCII letters only. Unicode case mappings, which can change a string's length, are not modelled.
- IEEE rounding is not modelled; JavaScript numbers are NaN, the infinities or exact reals. The editor's `formatTimeInput` is modelled on whole milliseconds, not on the binary `% 1` extraction.
- `data-timestamp` ranges of playback spans are taken as already parsed by `Number()`.
- Geometry is abstracted. `getBoundingClientRect` becomes a top/bottom pair per span, computed by the caller on the element the page scrolls to.
- The `word-active` class that `clearActiveHighlights` also removes is never set by the modelled code.
- The audio element's rejection of non-finite `currentTime` values is not modelled.
- `getHighlightColor` and the legend colours are presentation only.
- The history is written only through `History.Save` and its siblings. Its `Valid` invariant is a precondition of `Save`, because the page reaches no other state.

## Findings

| source | as written | input that shows it | evidently intended | confidence | as-written member | corrected member |
|---|---|---|---|---|---|---|
| public/js/main.js:1773-1779 | `return` inside the `forEach` callback ends only that call, so later matches overwrite `matchingHighlight` and the last highlight with the item's timestamp is scrolled to | two highlights with `data-timestamp="1.5:2.0"` and an issue item with the same timestamp: the second highlight is chosen (`PlayerControls.LastNotFirst`) | stop at the first matching highlight | medium, not executed | PlayerControls.LastMatching, PlayerControls.FindMatching | PlayerControls.FirstMatching |
| public/js/main.js:2030-2064 | the passes remove `highlight-hidden` from playing spans and their highlights, and `clearActiveHighlights` (2099-2106) never adds it back, so a filtered span stays shown after it has played, against the comments "Temporarily make visible" at 2032, 2045 and 2062 | a word span with range 1 to 2 hidden by the filter, ticks at 1.5 and then 3.0: after the second tick it is not playing yet shown (`Playback.ShownAfterPlaybackExample`) | the filter's hiding returns once the span stops playing | medium, not executed | Playback.TickedHidden, Playback.StaysShownAfterPlayback | Playback.Overlay.TickRestoring, Playback.RestoredHidingReturns |

/** The clock texts of the viewer: the `MM:SS.mmm` fields of the timestamp editor
    (formatTimeInput / parseTimeInput), the `MM:SS` recording clock, the player's
    `M:SS` clock and the detail popup's `MM:SS.cc` clock. Editor values are whole
    milliseconds; the player and popup clocks take a JavaScript number. */
module TimeFormat {
  import opened JsText
  import opened JsNumber

  /** `n.toString().padStart(w, '0')`. */
  function Padded(n: nat, w: nat): string
  {
    PadStart(NatToString(n), w, '0')
  }

  /** formatTimeInput: minutes and seconds padded to two digits, milliseconds to three. */
  function FormatTimeInput(ms: nat): string
  {
    Padded(ms / 60000, 2) + ":" + Padded(ms / 1000 % 60, 2) + "." + Padded(ms % 1000, 3)
  }

  /** parseTimeInput, in milliseconds: anything but exactly two `:`-separated parts is 0;
      each field is `parseInt(...) || 0`, and the digits after the dot count as
      milliseconds. */
  function ParseTimeInput(s: string): int
  {
    var parts := Split(s, ":");
    if |parts| != 2 then 0 else ParseIntOrZero(parts[0]) * 60000 + SecondsField(parts[1])
  }

  /** The part after the colon, `SS` or `SS.mmm`, in milliseconds. */
  function SecondsField(t: string): int
  {
    var secParts := Split(t, ".");
    var secs := ParseIntOrZero(secParts[0]);
    var msecs := if |secParts| >= 2 then ParseIntOrZero(secParts[1]) else 0;
    secs * 1000 + msecs
  }

  /** updateRecordingTime: whole seconds of recording as `MM:SS`. */
  function RecordingClock(seconds: nat): string
  {
    Padded(seconds / 60, 2) + ":" + Padded(seconds % 60, 2)
  }

  /** `Math.floor(x).toString().padStart(w, '0')`. */
  function FloorField(x: Number, w: nat): string
  {
    PadStart(FloorToString(Floor(x)), w, '0')
  }

  /** The player's formatTime: NaN and the infinities read `0:00`, otherwise unpadded
      minutes and two-digit seconds. */
  function PlayerClock(x: Number): string
  {
    if !x.Finite? then "0:00"
    else FloorToString(Floor(DivBy(x, 60.0))) + ":" + FloorField(RemBy(x, 60.0), 2)
  }

  /** The detail popup's formatTime: `MM:SS.cc`, each field `Math.floor`ed and padded to two. */
  function DetailClock(x: Number): string
  {
    FloorField(DivBy(x, 60.0), 2) + ":" + FloorField(RemBy(x, 60.0), 2) + "."
      + FloorField(TimesBy(RemBy(x, 1.0), 100.0), 2)
  }

  // ---------------------------------------------------------------------------
  // Properties

  /** The editor's text reads back as the value it was written from. */
  lemma TimeInputRoundTrip(ms: nat)
    ensures ParseTimeInput(FormatTimeInput(ms)) == ms
  {
    ParseClockFields(ms / 60000, 2, ms / 1000 % 60, ms % 1000, 3);
    MillisDecompose(ms);
  }

  /** The editor's text holds exactly one colon and ends in a dot and three digits that
      spell the milliseconds. */
  lemma TimeInputShape(ms: nat)
    ensures var f := FormatTimeInput(ms);
            && Count(f, ':') == 1
            && |f| >= 9 && f[|f| - 4] == '.'
            && DigitString(f[|f| - 3..]) && DigitsValue(f[|f| - 3..]) == ms % 1000
  {
    var a := Padded(ms / 60000, 2);
    var b := Padded(ms / 1000 % 60, 2);
    var c := Padded(ms % 1000, 3);
    PaddedDigits(ms / 60000, 2);
    PaddedDigits(ms / 1000 % 60, 2);
    PaddedDigits(ms % 1000, 3);
    PaddedWidth2(ms / 1000 % 60);
    PaddedWidth3(ms % 1000);
    DigitsNoPunct(a);
    DigitsNoPunct(b);
    DigitsNoPunct(c);
    NoCharJoin(b, '.', c, ':');
    Regroup(a, b, c);
    CountFields(a, ':', b + ['.'] + c);
    DotThenTail(a + [':'] + b, c);
  }

  lemma DotThenTail(x: string, c: string)
    ensures var f := x + (['.'] + c);
            f[|x|] == '.' && f[|x| + 1..] == c
  {
  }

  /** A text without exactly one colon parses to 0. */
  lemma ParseNeedsOneColon(s: string)
    requires Count(s, ':') != 1
    ensures ParseTimeInput(s) == 0
  {
    SplitCount(s, ':');
  }

  /** The recording clock reads back, through the editor's parser, as its seconds. */
  lemma RecordingClockRoundTrip(seconds: nat)
    ensures ParseTimeInput(RecordingClock(seconds)) == seconds * 1000
  {
    ParseClockMinSec(seconds / 60, 2, seconds % 60);
  }

  /** The player clock shows `0:00` for NaN and the infinities, and for a non-negative
      time it reads back as the whole seconds of that time. */
  lemma PlayerClockMeaning(x: Number)
    ensures !x.Finite? ==> PlayerClock(x) == "0:00"
    ensures x.Finite? && x.value >= 0.0 ==> ParseTimeInput(PlayerClock(x)) == x.value.Floor * 1000
  {
    if x.Finite? && x.value >= 0.0 {
      var v := x.value;
      SecondsSplit(v);
      PlayerClockText(v);
      ParseClockMinSec((v / 60.0).Floor, 0, Rem(v, 60.0).Floor);
    }
  }

  lemma PlayerClockText(v: real)
    requires v >= 0.0
    ensures (v / 60.0).Floor >= 0 && Rem(v, 60.0).Floor >= 0
    ensures PlayerClock(Finite(v)) == Padded((v / 60.0).Floor, 0) + ":" + Padded(Rem(v, 60.0).Floor, 2)
  {
    SecondsSplit(v);
    FloorText(v / 60.0);
    FloorText(Rem(v, 60.0));
  }

  /** `Math.floor(r).toString()` for a non-negative finite r. */
  lemma FloorText(r: real)
    requires r >= 0.0
    ensures r.Floor >= 0 && FloorToString(Floor(Finite(r))) == NatToString(r.Floor)
    ensures PadStart(FloorToString(Floor(Finite(r))), 0, '0') == NatToString(r.Floor)
    ensures FloorField(Finite(r), 2) == Padded(r.Floor, 2)
  {
  }

  /** For a non-negative time the popup shows minutes, seconds below 60 and centiseconds
      below 100 that together are the time's whole centiseconds. */
  lemma DetailClockMeaning(v: real)
    requires v >= 0.0
    ensures exists m: nat, sec: nat, cs: nat ::
              && sec < 60 && cs < 100
              && DetailClock(Finite(v)) == Padded(m, 2) + ":" + Padded(sec, 2) + "." + Padded(cs, 2)
              && m * 6000 + sec * 100 + cs == (100.0 * v).Floor
  {
    var m := (v / 60.0).Floor;
    var sec := Rem(v, 60.0).Floor;
    var cs := (Rem(v, 1.0) * 100.0).Floor;
    SecondsSplit(v);
    CentisSplit(v);
    DetailClockText(v);
    assert m * 6000 + sec * 100 + cs == (100.0 * v).Floor;
  }

  lemma DetailClockText(v: real)
    requires v >= 0.0
    ensures (v / 60.0).Floor >= 0 && Rem(v, 60.0).Floor >= 0 && (Rem(v, 1.0) * 100.0).Floor >= 0
    ensures DetailClock(Finite(v))
            == Padded((v / 60.0).Floor, 2) + ":" + Padded(Rem(v, 60.0).Floor, 2) + "."
               + Padded((Rem(v, 1.0) * 100.0).Floor, 2)
  {
    MinutesField(v);
    SecondsFieldText(v);
    CentisField(v);
  }

  lemma MinutesField(v: real)
    requires v >= 0.0
    ensures (v / 60.0).Floor >= 0 && FloorField(DivBy(Finite(v), 60.0), 2) == Padded((v / 60.0).Floor, 2)
  {
    FieldOf(DivBy(Finite(v), 60.0), v / 60.0);
  }

  lemma SecondsFieldText(v: real)
    requires v >= 0.0
    ensures Rem(v, 60.0).Floor >= 0 && FloorField(RemBy(Finite(v), 60.0), 2) == Padded(Rem(v, 60.0).Floor, 2)
  {
    RemBounds(v, 60.0);
    FieldOf(RemBy(Finite(v), 60.0), Rem(v, 60.0));
  }

  lemma CentisField(v: real)
    requires v >= 0.0
    ensures (Rem(v, 1.0) * 100.0).Floor >= 0
    ensures FloorField(TimesBy(RemBy(Finite(v), 1.0), 100.0), 2) == Padded((Rem(v, 1.0) * 100.0).Floor, 2)
  {
    CentisNonNegative(v);
    CentisText(v);
  }

  lemma CentisNonNegative(v: real)
    requires v >= 0.0
    ensures (Rem(v, 1.0) * 100.0).Floor >= 0
  {
    RemBounds(v, 1.0);
  }

  lemma CentisText(v: real)
    requires v >= 0.0
    ensures FloorField(TimesBy(RemBy(Finite(v), 1.0), 100.0), 2) == Padded((Rem(v, 1.0) * 100.0).Floor, 2)
  {
    CentisValue(v);
    ScaledRem(v);
  }

  lemma ScaledRem(v: real)
    requires v >= 0.0
    ensures (Rem(v, 1.0) * 100.0).Floor >= 0
    ensures FloorField(Finite(Rem(v, 1.0) * 100.0), 2) == Padded((Rem(v, 1.0) * 100.0).Floor, 2)
  {
    RemBounds(v, 1.0);
    FloorText(Rem(v, 1.0) * 100.0);
  }

  lemma CentisValue(v: real)
    ensures TimesBy(RemBy(Finite(v), 1.0), 100.0) == Finite(Rem(v, 1.0) * 100.0)
  {
  }

  lemma FieldOf(x: Number, r: real)
    requires r >= 0.0 && x == Finite(r)
    ensures r.Floor >= 0 && FloorField(x, 2) == Padded(r.Floor, 2)
  {
    FloorText(r);
  }

  // ---------------------------------------------------------------------------
  // Helpers

  /** Occurrences of a character. */
  function Count(s: string, c: char): nat
  {
    if |s| == 0 then 0 else (if s[0] == c then 1 else 0) + Count(s[1..], c)
  }

  predicate DigitString(s: string)
  {
    |s| > 0 && forall i :: 0 <= i < |s| ==> IsDigit(s[i])
  }

  lemma PaddedDigits(n: nat, w: nat)
    ensures DigitString(Padded(n, w))
    ensures DigitsValue(Padded(n, w)) == n
    ensures ParseIntOrZero(Padded(n, w)) == n
  {
    var d := NatToString(n);
    var p := Padded(n, w);
    var z := |p| - |d|;
    assert p == seq(z, _ => '0') + d;
    DigitsLeadingZeros(z, d);
    DigitsOfNat(n);
    ParseDigits(p);
  }

  lemma PaddedWidth2(n: nat)
    requires n < 100
    ensures |Padded(n, 2)| == 2
  {
    if n >= 10 {
      assert |NatToString(n / 10)| == 1;
    }
  }

  lemma PaddedWidth3(n: nat)
    requires n < 1000
    ensures |Padded(n, 3)| == 3
  {
    if n >= 10 {
      PaddedWidth2(n / 10);
    }
  }

  /** A character absent from `a` splits `a + [c] + b` right after `a`. */
  lemma SplitAtChar(a: string, c: char, b: string)
    requires forall i :: 0 <= i < |a| ==> a[i] != c
    ensures Split(a + [c] + b, [c]) == [a] + Split(b, [c])
  {
    FirstCharAt(a, c, b, 0);
    assert (a + [c] + b)[..|a|] == a;
    assert (a + [c] + b)[|a| + 1..] == b;
  }

  lemma {:induction false} FirstCharAt(a: string, c: char, b: string, from: nat)
    requires from <= |a|
    requires forall i :: from <= i < |a| ==> a[i] != c
    ensures IndexOf(a + [c] + b, [c], from) == |a|
    decreases |a| - from
  {
    var s := a + [c] + b;
    if from < |a| {
      assert s[from..from + 1] != [c] by { assert s[from..from + 1][0] == a[from]; }
      FirstCharAt(a, c, b, from + 1);
    } else {
      assert s[from..from + 1] == [c];
    }
  }

  lemma NoCharSplit(s: string, c: char)
    requires forall i :: 0 <= i < |s| ==> s[i] != c
    ensures Split(s, [c]) == [s]
  {
    NoCharIndex(s, c, 0);
  }

  lemma {:induction false} NoCharIndex(s: string, c: char, from: nat)
    requires forall i :: 0 <= i < |s| ==> s[i] != c
    ensures IndexOf(s, [c], from) == -1
    decreases |s| + 1 - from
  {
    if from + 1 <= |s| {
      assert s[from..from + 1][0] == s[from];
      NoCharIndex(s, c, from + 1);
    }
  }

  predicate NoChar(s: string, c: char)
  {
    forall i :: 0 <= i < |s| ==> s[i] != c
  }

  lemma DigitsNoPunct(s: string)
    requires DigitString(s)
    ensures NoChar(s, ':') && NoChar(s, '.')
  {
  }

  lemma NoCharJoin(b: string, d: char, c: string, ch: char)
    requires NoChar(b, ch) && NoChar(c, ch) && d != ch
    ensures NoChar(b + [d] + c, ch)
  {
  }

  lemma ParseColon(a: string, rest: string)
    requires NoChar(a, ':') && NoChar(rest, ':')
    ensures ParseTimeInput(a + [':'] + rest) == ParseIntOrZero(a) * 60000 + SecondsField(rest)
  {
    SplitAtChar(a, ':', rest);
    NoCharSplit(rest, ':');
    assert Split(a + [':'] + rest, ":") == [a] + [rest];
  }

  lemma SecondsDot(b: string, c: string)
    requires NoChar(b, '.') && NoChar(c, '.')
    ensures SecondsField(b + ['.'] + c) == ParseIntOrZero(b) * 1000 + ParseIntOrZero(c)
  {
    SplitAtChar(b, '.', c);
    NoCharSplit(c, '.');
  }

  lemma SecondsNoDot(b: string)
    requires NoChar(b, '.')
    ensures SecondsField(b) == ParseIntOrZero(b) * 1000
  {
    NoCharSplit(b, '.');
  }

  /** Parsing a zero-padded `M:S.C` text. */
  lemma ParseClockFields(m: nat, wm: nat, sec: nat, ms: nat, wms: nat)
    ensures ParseTimeInput(Padded(m, wm) + ":" + Padded(sec, 2) + "." + Padded(ms, wms))
            == m * 60000 + sec * 1000 + ms
  {
    var a := Padded(m, wm);
    var b := Padded(sec, 2);
    var c := Padded(ms, wms);
    PaddedDigits(m, wm);
    PaddedDigits(sec, 2);
    PaddedDigits(ms, wms);
    DigitsNoPunct(a);
    DigitsNoPunct(b);
    DigitsNoPunct(c);
    NoCharJoin(b, '.', c, ':');
    Regroup(a, b, c);
    ParseColon(a, b + ['.'] + c);
    SecondsDot(b, c);
  }

  lemma Regroup(a: string, b: string, c: string)
    ensures a + ":" + b + "." + c == a + [':'] + (b + ['.'] + c)
    ensures a + ":" + b + "." + c == (a + [':'] + b) + (['.'] + c)
  {
  }

  /** Parsing a zero-padded `M:S` text. */
  lemma ParseClockMinSec(m: nat, wm: nat, sec: nat)
    ensures ParseTimeInput(Padded(m, wm) + ":" + Padded(sec, 2)) == m * 60000 + sec * 1000
  {
    var a := Padded(m, wm);
    var b := Padded(sec, 2);
    PaddedDigits(m, wm);
    PaddedDigits(sec, 2);
    DigitsNoPunct(a);
    DigitsNoPunct(b);
    ParseColon(a, b);
    SecondsNoDot(b);
  }

  lemma MillisDecompose(ms: nat)
    ensures ms / 60000 * 60000 + ms / 1000 % 60 * 1000 + ms % 1000 == ms
  {
    var q := ms / 1000;
    assert q * 1000 + ms % 1000 == ms;
    assert q / 60 * 60 + q % 60 == q;
    assert ms / 60000 == q / 60;
  }

  lemma SecondsSplit(v: real)
    requires v >= 0.0
    ensures (v / 60.0).Floor >= 0 && 0 <= Rem(v, 60.0).Floor < 60
    ensures (v / 60.0).Floor * 60 + Rem(v, 60.0).Floor == v.Floor
  {
  }

  lemma CentisSplit(v: real)
    requires v >= 0.0
    ensures 0 <= (Rem(v, 1.0) * 100.0).Floor < 100
    ensures v.Floor * 100 + (Rem(v, 1.0) * 100.0).Floor == (100.0 * v).Floor
  {
  }

  lemma {:induction false} CountAppend(a: string, b: string, c: char)
    ensures Count(a + b, c) == Count(a, c) + Count(b, c)
  {
    if |a| > 0 {
      assert (a + b)[0] == a[0];
      assert (a + b)[1..] == a[1..] + b;
      CountAppend(a[1..], b, c);
    } else {
      assert a + b == b;
    }
  }

  lemma {:induction false} CountAbsent(s: string, c: char)
    requires forall i :: 0 <= i < |s| ==> s[i] != c
    ensures Count(s, c) == 0
  {
    if |s| > 0 {
      CountAbsent(s[1..], c);
    }
  }

  lemma CountFields(m: string, c: char, rest: string)
    requires forall i :: 0 <= i < |m| ==> m[i] != c
    requires forall i :: 0 <= i < |rest| ==> rest[i] != c
    ensures Count(m + [c] + rest, c) == 1
  {
    CountAppend(m + [c], rest, c);
    CountAppend(m, [c], c);
    CountAbsent(m, c);
    CountAbsent(rest, c);
  }

  /** A split on one character has one more piece than there are occurrences. */
  lemma {:induction false} SplitCount(s: string, c: char)
    ensures |Split(s, [c])| == Count(s, c) + 1
    decreases |s|
  {
    var k := IndexOf(s, [c], 0);
    if k == -1 {
      forall i | 0 <= i < |s| ensures s[i] != c {
        if s[i] == c {
          assert OccursAt(s, [c], i);
          IndexOfLeast(s, [c], 0, i);
        }
      }
      CountAbsent(s, c);
    } else {
      var a := s[..k];
      var b := s[k + 1..];
      forall i | 0 <= i < |a| ensures a[i] != c {
        if a[i] == c {
          assert OccursAt(s, [c], i);
          IndexOfLeast(s, [c], 0, i);
        }
      }
      assert s == a + [c] + b;
      SplitCount(b, c);
      CountFields(a, c, "");
      CountAppend(a + [c], b, c);
      CountAppend(a, [c], c);
      CountAbsent(a, c);
    }
  }
}

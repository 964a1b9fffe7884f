/** String operations of the browser runtime that the viewer relies on, restated over
    `seq<char>`: `split` with a non-empty separator, `indexOf`, `toLowerCase` (ASCII
    letters only), `trim()` emptiness, `Number.prototype.toString` on naturals,
    `padStart` and `parseInt` without a radix. */
module JsText {

  datatype Option<T> = None | Some(value: T)

  /** `s[k..k+|pat|] == pat`, guarded. */
  predicate OccursAt(s: string, pat: string, k: nat)
  {
    k + |pat| <= |s| && s[k..k + |pat|] == pat
  }

  /** `s.indexOf(pat, from)`: the least k >= from where pat occurs, or -1. */
  function IndexOf(s: string, pat: string, from: nat): (r: int)
    ensures r == -1 || (from <= r && OccursAt(s, pat, r))
    decreases |s| + 1 - from
  {
    if from + |pat| > |s| then -1
    else if s[from..from + |pat|] == pat then from
    else IndexOf(s, pat, from + 1)
  }

  /** IndexOf finds the leftmost occurrence at or after `from`, and -1 means none. */
  lemma {:induction false} IndexOfLeast(s: string, pat: string, from: nat, k: nat)
    requires from <= k
    requires IndexOf(s, pat, from) == -1 || k < IndexOf(s, pat, from)
    ensures !OccursAt(s, pat, k)
    decreases |s| + 1 - from
  {
    if from + |pat| > |s| {
    } else if s[from..from + |pat|] == pat {
    } else if from < k {
      IndexOfLeast(s, pat, from + 1, k);
    }
  }

  /** `s.split(sep)` for a non-empty separator: cut at the leftmost occurrences,
      left to right, without overlap. */
  function Split(s: string, sep: string): (parts: seq<string>)
    requires |sep| > 0
    ensures |parts| >= 1
    decreases |s|
  {
    var k := IndexOf(s, sep, 0);
    if k == -1 then [s]
    else [s[..k]] + Split(s[k + |sep|..], sep)
  }

  /** `parts.join(sep)`. */
  function Join(parts: seq<string>, sep: string): string
  {
    if |parts| == 0 then ""
    else if |parts| == 1 then parts[0]
    else parts[0] + sep + Join(parts[1..], sep)
  }

  /** Joining the pieces of a split gives back the string. */
  lemma {:induction false} JoinSplit(s: string, sep: string)
    requires |sep| > 0
    ensures Join(Split(s, sep), sep) == s
    decreases |s|
  {
    var k := IndexOf(s, sep, 0);
    if k != -1 {
      JoinSplit(s[k + |sep|..], sep);
      JoinCons(s[..k], Split(s[k + |sep|..], sep), sep);
      Around(s, k, sep);
    }
  }

  lemma Around(s: string, k: nat, sep: string)
    requires OccursAt(s, sep, k)
    ensures s == s[..k] + sep + s[k + |sep|..]
  {
    assert s == s[..k] + s[k..k + |sep|] + s[k + |sep|..];
  }

  lemma JoinCons(head: string, tail: seq<string>, sep: string)
    requires |tail| >= 1
    ensures Join([head] + tail, sep) == head + sep + Join(tail, sep)
  {
    assert ([head] + tail)[1..] == tail;
  }

  /** No piece of a split contains the separator. */
  lemma {:induction false} SplitPiecesFree(s: string, sep: string, i: nat)
    requires |sep| > 0
    requires i < |Split(s, sep)|
    ensures IndexOf(Split(s, sep)[i], sep, 0) == -1
    decreases |s|
  {
    var k := IndexOf(s, sep, 0);
    if k != -1 {
      if i == 0 {
        var p := s[..k];
        forall j | 0 <= j
          ensures !OccursAt(p, sep, j)
        {
          if OccursAt(p, sep, j) {
            assert p[j..j + |sep|] == s[j..j + |sep|];
            assert OccursAt(s, sep, j);
            IndexOfLeast(s, sep, 0, j);
          }
        }
      } else {
        SplitPiecesFree(s[k + |sep|..], sep, i - 1);
      }
    }
  }

  /** A string the separator does not occur in splits into itself alone. */
  lemma SplitFree(s: string, sep: string)
    requires |sep| > 0
    requires IndexOf(s, sep, 0) == -1
    ensures Split(s, sep) == [s]
  {
  }

  /** JavaScript's `String.prototype.toLowerCase`, restricted to ASCII letters. */
  function LowerChar(c: char): (r: char)
    ensures 'A' <= c <= 'Z' ==> r as int == c as int + 32
    ensures !('A' <= c <= 'Z') ==> r == c
  {
    if 'A' <= c <= 'Z' then (c as int + 32) as char else c
  }

  function Lower(s: string): (r: string)
    ensures |r| == |s|
    ensures forall i :: 0 <= i < |s| ==> r[i] == LowerChar(s[i])
  {
    seq(|s|, i requires 0 <= i < |s| => LowerChar(s[i]))
  }

  /** Lower-casing commutes with slicing. */
  lemma LowerSlice(s: string, i: nat, j: nat)
    requires i <= j <= |s|
    ensures Lower(s)[i..j] == Lower(s[i..j])
  {
  }

  /** The characters `\s` and `trim()` treat as white space (the ASCII ones and the
      common Unicode spaces). */
  predicate IsSpace(c: char)
  {
    c == ' ' || c == '\t' || c == '\n' || c == '\r' || c == '\U{000B}' || c == '\U{000C}'
    || c == '\U{00A0}' || c == '\U{1680}' || ('\U{2000}' <= c <= '\U{200A}')
    || c == '\U{2028}' || c == '\U{2029}' || c == '\U{202F}' || c == '\U{205F}'
    || c == '\U{3000}' || c == '\U{FEFF}'
  }

  /** `s.trim() === ''`. */
  predicate IsBlank(s: string)
  {
    forall i :: 0 <= i < |s| ==> IsSpace(s[i])
  }

  predicate IsDigit(c: char)
  {
    '0' as int <= c as int <= '9' as int
  }

  function DigitChar(d: nat): (c: char)
    requires d < 10
    ensures IsDigit(c) && c as int - '0' as int == d
  {
    ('0' as int + d) as char
  }

  /** The decimal digits of a natural, most significant first, as `toString` writes them. */
  function NatToString(n: nat): (s: string)
    ensures |s| >= 1
    ensures forall i :: 0 <= i < |s| ==> IsDigit(s[i])
    decreases n
  {
    if n < 10 then [DigitChar(n)] else NatToString(n / 10) + [DigitChar(n % 10)]
  }

  /** `s.padStart(width, pad)` with a one-character pad. */
  function PadStart(s: string, width: nat, pad: char): (r: string)
    ensures |r| == if |s| >= width then |s| else width
    ensures r[|r| - |s|..] == s
    ensures forall i :: 0 <= i < |r| - |s| ==> r[i] == pad
  {
    if |s| >= width then s else seq(width - |s|, _ => pad) + s
  }

  /** The value of a string of decimal digits. */
  function DigitsValue(s: string): nat
    requires forall i :: 0 <= i < |s| ==> IsDigit(s[i])
  {
    if |s| == 0 then 0
    else
      var c := s[|s| - 1];
      assert IsDigit(c);
      DigitsValue(s[..|s| - 1]) * 10 + (c as int - '0' as int)
  }

  /** Reading back what NatToString wrote gives the natural. */
  lemma {:induction false} DigitsOfNat(n: nat)
    ensures DigitsValue(NatToString(n)) == n
    decreases n
  {
    if n >= 10 {
      DigitsOfNat(n / 10);
      var s := NatToString(n);
      assert s[..|s| - 1] == NatToString(n / 10);
    }
  }

  /** Leading zeros do not change the value of a digit string. */
  lemma {:induction false} DigitsLeadingZeros(z: nat, s: string)
    requires forall i :: 0 <= i < |s| ==> IsDigit(s[i])
    ensures var t := seq(z, _ => '0') + s;
            (forall i :: 0 <= i < |t| ==> IsDigit(t[i])) && DigitsValue(t) == DigitsValue(s)
    decreases |s|
  {
    var t := seq(z, _ => '0') + s;
    if |s| == 0 {
      assert t == seq(z, _ => '0');
      ZerosValue(z);
    } else {
      var s' := s[..|s| - 1];
      DigitsLeadingZeros(z, s');
      assert t[..|t| - 1] == seq(z, _ => '0') + s';
    }
  }

  lemma {:induction false} ZerosValue(z: nat)
    ensures DigitsValue(seq(z, _ => '0')) == 0
  {
    if z > 0 {
      ZerosValue(z - 1);
      assert seq(z, _ => '0')[..z - 1] == seq(z - 1, _ => '0');
    }
  }

  /** The longest prefix of `s` made of characters satisfying `IsDigit`. */
  function DigitPrefix(s: string): (r: string)
    ensures |r| <= |s| && r == s[..|r|]
    ensures forall i :: 0 <= i < |r| ==> IsDigit(r[i])
    ensures |r| < |s| ==> !IsDigit(s[|r|])
  {
    if |s| == 0 || !IsDigit(s[0]) then "" else [s[0]] + DigitPrefix(s[1..])
  }

  predicate IsHexDigit(c: char)
  {
    IsDigit(c) || ('a' <= c <= 'f') || ('A' <= c <= 'F')
  }

  function HexValue(c: char): nat
    requires IsHexDigit(c)
  {
    if IsDigit(c) then c as int - '0' as int
    else if 'a' <= c <= 'f' then c as int - 'a' as int + 10
    else c as int - 'A' as int + 10
  }

  function HexPrefix(s: string): (r: string)
    ensures |r| <= |s| && r == s[..|r|]
    ensures forall i :: 0 <= i < |r| ==> IsHexDigit(r[i])
  {
    if |s| == 0 || !IsHexDigit(s[0]) then "" else [s[0]] + HexPrefix(s[1..])
  }

  function HexDigitsValue(s: string): nat
    requires forall i :: 0 <= i < |s| ==> IsHexDigit(s[i])
  {
    if |s| == 0 then 0
    else HexDigitsValue(s[..|s| - 1]) * 16 + HexValue(s[|s| - 1])
  }

  function SkipSpaces(s: string): (r: string)
    ensures |r| <= |s| && r == s[|s| - |r|..]
    ensures |r| > 0 ==> !IsSpace(r[0])
  {
    if |s| > 0 && IsSpace(s[0]) then SkipSpaces(s[1..]) else s
  }

  /** `parseInt(s)` without a radix: leading white space, an optional sign, then a
      `0x`/`0X` hexadecimal or a decimal digit run; None stands for NaN. */
  function ParseInt(s: string): Option<int>
  {
    var t := SkipSpaces(s);
    var negative := |t| > 0 && t[0] == '-';
    var u := if |t| > 0 && (t[0] == '-' || t[0] == '+') then t[1..] else t;
    var magnitude: Option<nat> :=
      if |u| >= 2 && u[0] == '0' && (u[1] == 'x' || u[1] == 'X') then
        var h := HexPrefix(u[2..]);
        if |h| == 0 then None else Some(HexDigitsValue(h))
      else
        var d := DigitPrefix(u);
        if |d| == 0 then None else Some(DigitsValue(d));
    match magnitude
    case None => None
    case Some(m) => var v: int := if negative then 0 - m else m; Some(v)
  }

  /** A run of decimal digits parses to its value. */
  lemma ParseDigits(s: string)
    requires |s| > 0 && forall i :: 0 <= i < |s| ==> IsDigit(s[i])
    ensures ParseInt(s) == Some(DigitsValue(s))
  {
    DigitNotSpace(s[0]);
    NoSkip(s);
    DigitPrefixAll(s);
  }

  lemma NoSkip(s: string)
    requires |s| > 0 && !IsSpace(s[0])
    ensures SkipSpaces(s) == s
  {
  }

  lemma DigitNotSpace(c: char)
    requires IsDigit(c)
    ensures !IsSpace(c) && c != '-' && c != '+' && c != 'x' && c != 'X'
  {
  }

  lemma {:induction false} DigitPrefixAll(s: string)
    requires forall i :: 0 <= i < |s| ==> IsDigit(s[i])
    ensures DigitPrefix(s) == s
  {
    if |s| > 0 {
      DigitPrefixAll(s[1..]);
    }
  }

  /** A digit run stops at the first non-digit. */
  lemma {:induction false} DigitPrefixStops(s: string, t: string)
    requires forall i :: 0 <= i < |s| ==> IsDigit(s[i])
    requires |t| > 0 && !IsDigit(t[0])
    ensures DigitPrefix(s + t) == s
  {
    if |s| > 0 {
      assert (s + t)[1..] == s[1..] + t;
      DigitPrefixStops(s[1..], t);
    }
  }

  /** `parseInt(s) || 0`: NaN and zero both read as 0. */
  function ParseIntOrZero(s: string): int
  {
    match ParseInt(s)
    case None => 0
    case Some(v) => v
  }
}

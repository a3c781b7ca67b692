/**
 * A disruption tolerance: hours then minutes, read by a duration parser that counts nanoseconds in
 * an unsigned 64-bit integer. The parser is modelled with that width and its own overflow guards.
 */
module Tolerance {
  import opened Common

  const TwoTo64 := 0x1_0000_0000_0000_0000
  const TwoTo63 := 0x8000_0000_0000_0000

  /** Nanoseconds in an hour and in a minute. */
  const Hour := 3_600_000_000_000
  const Minute := 60_000_000_000

  predicate IsDigit(c: char) {
    '0' <= c <= '9'
  }

  predicate AllDigits(s: string) {
    forall i :: 0 <= i < |s| ==> IsDigit(s[i])
  }

  function DigitRun(s: string): (n: nat)
    ensures n <= |s| && AllDigits(s[..n]) && (n < |s| ==> !IsDigit(s[n]))
  {
    if s == "" || !IsDigit(s[0]) then 0
    else
      assert s[..1 + DigitRun(s[1..])] == [s[0]] + s[1..][..DigitRun(s[1..])];
      1 + DigitRun(s[1..])
  }

  function Value(digits: string): nat
    requires AllDigits(digits)
  {
    if digits == "" then 0 else 10 * Value(digits[..|digits| - 1]) + (digits[|digits| - 1] as int - '0' as int)
  }

  // ---- The admission pattern ----

  /** The pattern as it is written: an optional group of digits and `h`, then one of digits and `m`. */
  datatype Written = Written(hours: Option<string>, minutes: Option<string>) {
    predicate Valid() {
      && (hours.Some? ==> hours.value != "" && AllDigits(hours.value))
      && (minutes.Some? ==> minutes.value != "" && AllDigits(minutes.value))
    }

    function Text(): string {
      (if hours.Some? then hours.value + "h" else "") + (if minutes.Some? then minutes.value + "m" else "")
    }

    function Nanoseconds(): nat
      requires Valid()
    {
      (if hours.Some? then Value(hours.value) * Hour else 0) + (if minutes.Some? then Value(minutes.value) * Minute else 0)
    }
  }

  /** Matching by scanning; `MatchIsExact` says it is the pattern. */
  function Match(t: string): (match': Option<Written>)
    ensures match'.Some? ==> match'.value.Valid()
  {
    var n := DigitRun(t);
    if t == "" then Some(Written(None, None))
    else if n == 0 || n == |t| then None
    else if t[n] == 'h' then
      var rest := t[n + 1..];
      var m := DigitRun(rest);
      if rest == "" then Some(Written(Some(t[..n]), None))
      else if m > 0 && m == |rest| - 1 && rest[m] == 'm' then Some(Written(Some(t[..n]), Some(rest[..m])))
      else None
    else if n == |t| - 1 && t[n] == 'm' then Some(Written(None, Some(t[..n])))
    else None
  }

  lemma {:induction false} DigitRunOf(digits: string, rest: string)
    requires AllDigits(digits) && (rest != "" ==> !IsDigit(rest[0]))
    ensures DigitRun(digits + rest) == |digits|
  {
    if digits == "" {
      assert digits + rest == rest;
    } else {
      assert (digits + rest)[1..] == digits[1..] + rest;
      DigitRunOf(digits[1..], rest);
    }
  }

  /** A text matches the pattern exactly when it is written in that form, and then in one way only. */
  lemma MatchIsExact(t: string, w: Written)
    ensures Match(t) == Some(w) <==> w.Valid() && w.Text() == t
  {
    if Match(t) == Some(w) {
      MatchedTextIsWritten(t);
    }
    if w.Valid() && w.Text() == t {
      WrittenTextMatches(w);
    }
  }

  lemma MatchedTextIsWritten(t: string)
    requires Match(t).Some?
    ensures Match(t).value.Valid() && Match(t).value.Text() == t
  {
    var n := DigitRun(t);
    if t != "" && t[n] == 'h' {
      var rest := t[n + 1..];
      assert t == t[..n] + "h" + rest;
      if rest != "" {
        assert rest == rest[..DigitRun(rest)] + "m";
      }
    } else if t != "" {
      assert t == t[..n] + "m";
    }
  }

  lemma WrittenTextMatches(w: Written)
    requires w.Valid()
    ensures Match(w.Text()) == Some(w)
  {
    var t := w.Text();
    var minutes := if w.minutes.Some? then w.minutes.value + "m" else "";
    if w.minutes.Some? {
      DigitRunOf(w.minutes.value, "m");
      assert minutes[..|w.minutes.value|] == w.minutes.value;
    }
    if w.hours.Some? {
      var h := w.hours.value;
      assert t == h + ("h" + minutes);
      DigitRunOf(h, "h" + minutes);
      assert t[..|h|] == h && t[|h| + 1..] == minutes;
    } else {
      assert t == minutes;
    }
  }

  // ---- The parser ----

  /** The number at the front of a text and what follows it, or nothing when it is past 2^63. */
  method LeadingInt(s: string) returns (result: Option<(nat, string)>)
    ensures var n := DigitRun(s);
            result == if Value(s[..n]) > TwoTo63 then None else Some((Value(s[..n]), s[n..]))
  {
    ghost var n := DigitRun(s);
    var x, i := 0, 0;
    while i < |s|
      invariant i <= n && x == Value(s[..i]) && x <= TwoTo63
      decreases |s| - i
    {
      if !IsDigit(s[i]) {
        break;
      }
      RunCovers(s, i);
      ValueSnoc(s, i);
      ValueGrows(s, i + 1, n);
      if x > TwoTo63 / 10 {
        return None;
      }
      x := (x * 10 + (s[i] as int - '0' as int)) % TwoTo64;
      if x > TwoTo63 {
        return None;
      }
      i := i + 1;
    }
    assert i == n;
    return Some((x, s[i..]));
  }

  lemma RunCovers(s: string, i: nat)
    requires i < |s| && i <= DigitRun(s) && IsDigit(s[i])
    ensures i < DigitRun(s)
  {
  }

  lemma ValueSnoc(s: string, i: nat)
    requires i < |s| && AllDigits(s[..i + 1])
    ensures AllDigits(s[..i])
    ensures Value(s[..i + 1]) == 10 * Value(s[..i]) + (s[i] as int - '0' as int)
  {
    assert s[..i + 1][..i] == s[..i];
    assert forall k :: 0 <= k < i ==> s[..i][k] == s[..i + 1][k];
  }

  lemma {:induction false} ValueGrows(s: string, i: nat, n: nat)
    requires i <= n <= |s| && AllDigits(s[..n])
    ensures AllDigits(s[..i]) && Value(s[..i]) <= Value(s[..n])
  {
    if i < n {
      ValueSnoc(s, n - 1);
      ValueGrows(s, i, n - 1);
    }
  }

  /** What a text that matches the pattern amounts to. */
  function Total(t: string): nat
    requires Match(t).Some?
  {
    Match(t).value.Nanoseconds()
  }

  function UnitOf(c: char): nat {
    if c == 'h' then Hour else Minute
  }

  /** One term at a time: a number, a unit, and a text that matches again. */
  lemma FirstTerm(s: string)
    requires s != "" && Match(s).Some?
    ensures var n := DigitRun(s);
            && 0 < n < |s| && s[n] in "hm" && Match(s[n + 1..]).Some?
            && Total(s) == Value(s[..n]) * UnitOf(s[n]) + Total(s[n + 1..])
  {
    var n := DigitRun(s);
    if s[n] == 'h' && s[n + 1..] != "" {
      HoursThenMinutes(s, n);
    } else {
      OneTerm(s, n);
    }
  }

  lemma OneTerm(s: string, n: nat)
    requires s != "" && Match(s).Some? && n == DigitRun(s) && !(s[n] == 'h' && s[n + 1..] != "")
    ensures s[n] in "hm" && s[n + 1..] == "" && Match("").Some? && Total("") == 0
    ensures Total(s) == Value(s[..n]) * UnitOf(s[n])
  {
  }

  lemma HoursThenMinutes(s: string, n: nat)
    requires s != "" && Match(s).Some? && n == DigitRun(s) && s[n] == 'h' && s[n + 1..] != ""
    ensures Match(s[n + 1..]).Some? && Total(s) == Value(s[..n]) * Hour + Total(s[n + 1..])
  {
    var rest := s[n + 1..];
    var m := DigitRun(rest);
    MinutesMatch(rest);
    assert Match(s) == Some(Written(Some(s[..n]), Some(rest[..m])));
    assert Total(rest) == Value(rest[..m]) * Minute;
  }

  lemma MinutesMatch(rest: string)
    requires rest != "" && DigitRun(rest) == |rest| - 1 > 0 && rest[|rest| - 1] == 'm'
    ensures Match(rest) == Some(Written(None, Some(rest[..|rest| - 1])))
  {
  }

  /** The parser's guards decide whether a term passes 2^63 without ever computing past it. */
  lemma GuardIsExact(v: nat, unit: nat)
    requires unit == Hour || unit == Minute
    ensures v > TwoTo63 / unit <==> v * unit > TwoTo63
    ensures v > TwoTo63 ==> v * unit > TwoTo63
  {
  }

  /** Every unit is a multiple of five and no power of two is, so two terms of 2^63 never meet and wrap. */
  lemma SumDoesNotWrap(d: nat, v: nat, unit: nat)
    requires unit == Hour || unit == Minute
    requires d <= TwoTo63 && d % 5 == 0 && v * unit <= TwoTo63
    ensures v * unit % TwoTo64 == v * unit
    ensures (d + v * unit) % TwoTo64 == d + v * unit && (d + v * unit) % 5 == 0
  {
    FifthOfTerm(v, unit);
    SumOfFives(d, v * unit);
  }

  lemma FifthOfTerm(v: nat, unit: nat)
    requires unit == Hour || unit == Minute
    ensures (v * unit) % 5 == 0
  {
    if unit == Hour {
      assert v * Hour == 5 * (v * 720_000_000_000);
    } else {
      assert v * Minute == 5 * (v * 12_000_000_000);
    }
  }

  lemma SumOfFives(d: nat, term: nat)
    requires d <= TwoTo63 && term <= TwoTo63 && d % 5 == 0 && term % 5 == 0
    ensures term % TwoTo64 == term && (d + term) % TwoTo64 == d + term && (d + term) % 5 == 0
  {
    assert TwoTo63 % 5 == 3;
    assert d < TwoTo63 && term < TwoTo63;
    assert 0 <= d + term < TwoTo64;
  }

  /**
   * The duration parser on a text that matches the pattern, with its arithmetic modulo 2^64: none
   * of its sums wraps, and it refuses exactly the totals that are not a signed 64-bit count.
   */
  method ParseDuration(t: string) returns (parsed: Option<nat>)
    requires t != "" && Match(t).Some?
    ensures parsed == if Total(t) < TwoTo63 then Some(Total(t)) else None
  {
    var d, s := 0, t;
    while s != ""
      invariant Match(s).Some? && d + Total(s) == Total(t)
      invariant 0 <= d <= TwoTo63 && d % 5 == 0
      decreases |s|
    {
      FirstTerm(s);
      var leading := LeadingInt(s);
      ghost var n := DigitRun(s);
      ghost var number, c := Value(s[..n]), s[n];
      GuardIsExact(number, UnitOf(c));
      if leading.None? {
        return None;
      }
      var v, rest := leading.value.0, leading.value.1;
      assert rest[0] == c && rest[1..] == s[n + 1..];
      var unit := UnitOf(rest[0]);
      if v > TwoTo63 / unit {
        return None;
      }
      SumDoesNotWrap(d, v, unit);
      v := (v * unit) % TwoTo64;
      d := (d + v) % TwoTo64;
      if d > TwoTo63 {
        return None;
      }
      s := rest[1..];
    }
    if d > TwoTo63 - 1 {
      return None;
    }
    return Some(d);
  }

  /** The reading the platform acts on: nothing for an absent value or anything the parser refuses. */
  function Reading(t: string): Option<nat> {
    if t == "" || Match(t).None? || Total(t) >= TwoTo63 then None else Some(Total(t))
  }

  method Duration(t: string) returns (reading: Option<nat>)
    ensures reading == Reading(t)
  {
    if t == "" || Match(t).None? {
      return None;
    }
    reading := ParseDuration(t);
  }

  /**
   * A tolerance is acted on exactly when it is not empty, is written as hours then minutes, and
   * comes to a signed 64-bit count of nanoseconds; and then it is read as what was written.
   */
  lemma ReadingIsExact(t: string, value: nat)
    ensures Reading(t) == Some(value) <==>
            t != "" && exists w: Written :: w.Valid() && w.Text() == t && w.Nanoseconds() == value < TwoTo63
  {
    if Match(t).Some? {
      MatchedTextIsWritten(t);
    }
    forall w: Written | w.Valid() && w.Text() == t ensures Match(t) == Some(w) {
      WrittenTextMatches(w);
    }
  }

  /** What admission lets in: the pattern, between two and sixteen characters. */
  predicate Admitted(t: string) {
    2 <= |t| <= 16 && Match(t).Some?
  }

  /** So a value can be stored that no reader acts on: fifteen digits of hours are too many. */
  lemma AdmittedButUndeclared(hours: string)
    requires |hours| == 15 && AllDigits(hours) && hours[0] == '9'
    ensures Admitted(hours + "h") && Reading(hours + "h").None?
  {
    var w := Written(Some(hours), None);
    assert w.Text() == hours + "h";
    WrittenTextMatches(w);
    LeadingDigit(hours);
  }

  lemma LeadingDigit(digits: string)
    requires |digits| == 15 && AllDigits(digits) && digits[0] == '9'
    ensures Value(digits) >= 9_000_000
  {
    assert digits[..15] == digits;
    ValueGrows(digits, 7, 15);
    AtLeast(digits, 7);
    assert Ten(3) == 1000 && Ten(6) == 1000 * Ten(3);
  }

  lemma {:induction false} AtLeast(digits: string, n: nat)
    requires 1 <= n <= |digits| && n <= 7 && AllDigits(digits) && digits[0] == '9'
    ensures AllDigits(digits[..n]) && Value(digits[..n]) >= 9 * Ten(n - 1)
  {
    ValueSnoc(digits, n - 1);
    if n > 1 {
      AtLeast(digits, n - 1);
    } else {
      assert digits[..0] == "";
    }
  }

  function Ten(n: nat): nat {
    if n == 0 then 1 else 10 * Ten(n - 1)
  }

  lemma NinetyMinutes()
    ensures Reading("1h30m") == Some(5_400_000_000_000)
  {
    var w := Written(Some("1"), Some("30"));
    assert "30"[..1] == "3" && "3"[..0] == "" && "1"[..0] == "";
    assert Value("1") == 1 && Value("3") == 3 && Value("30") == 30;
    assert w.Text() == "1h30m";
    WrittenTextMatches(w);
  }
}

/**
 * Splitting a commit message into a subject and a bounded body. A message is a sequence of Unicode
 * scalar values, which is what a valid UTF-8 string is; the cut at 4096 is made on its bytes, and
 * what is proved is that it comes out as a cut of the scalar values.
 */
module CommitMessage {
  import opened Common

  const CommitBodyLimit := 4096

  const Ellipsis: string := "\U{2026}"

  // ---- UTF-8, section 3 of RFC 3629 ----

  function EncodeRune(c: char): (bytes: seq<Byte>)
    ensures 1 <= |bytes| <= 4
  {
    var v := c as int;
    if v < 0x80 then [v]
    else if v < 0x800 then [0xC0 + v / 64, 0x80 + v % 64]
    else if v < 0x10000 then [0xE0 + v / 4096, 0x80 + v / 64 % 64, 0x80 + v % 64]
    else [0xF0 + v / 262144, 0x80 + v / 4096 % 64, 0x80 + v / 64 % 64, 0x80 + v % 64]
  }

  function Encode(s: string): seq<Byte> {
    if s == "" then [] else EncodeRune(s[0]) + Encode(s[1..])
  }

  /** The scalar value a sequence of one to four bytes stands for. */
  function DecodeRune(bytes: seq<Byte>): int
    requires 1 <= |bytes| <= 4
  {
    match |bytes|
    case 1 => bytes[0]
    case 2 => (bytes[0] as int - 0xC0) * 64 + (bytes[1] as int - 0x80)
    case 3 => (bytes[0] as int - 0xE0) * 4096 + (bytes[1] as int - 0x80) * 64 + (bytes[2] as int - 0x80)
    case _ => (bytes[0] as int - 0xF0) * 262144 + (bytes[1] as int - 0x80) * 4096
              + (bytes[2] as int - 0x80) * 64 + (bytes[3] as int - 0x80)
  }

  lemma SixBits(v: nat)
    ensures v == v / 64 * 64 + v % 64
    ensures v / 64 == v / 4096 * 64 + v / 64 % 64
    ensures v / 4096 == v / 262144 * 64 + v / 4096 % 64
  {
    assert v / 64 / 64 == v / 4096;
    assert v / 4096 / 64 == v / 262144;
  }

  lemma RuneReadsBack(c: char)
    ensures DecodeRune(EncodeRune(c)) == c as int
  {
    SixBits(c as int);
  }

  /** No two messages are written alike. */
  lemma {:induction false} EncodeIsInjective(a: string, b: string)
    requires Encode(a) == Encode(b)
    ensures a == b
  {
    if a != "" && b != "" {
      var x, y := EncodeRune(a[0]), EncodeRune(b[0]);
      var rest, rest' := Encode(a[1..]), Encode(b[1..]);
      WidthOfRune(a[0], rest);
      WidthOfRune(b[0], rest');
      assert x + rest == y + rest';
      assert x == (x + rest)[..|x|] && y == (y + rest')[..|y|];
      assert rest == (x + rest)[|x|..] && rest' == (y + rest')[|y|..];
      RuneReadsBack(a[0]);
      RuneReadsBack(b[0]);
      EncodeIsInjective(a[1..], b[1..]);
      assert a == [a[0]] + a[1..] && b == [b[0]] + b[1..];
    }
  }

  predicate Tail(b: Byte) {
    0x80 <= b <= 0xBF
  }

  /** How many bytes the well-formed sequence at the front has, or none when there is no such sequence. */
  function Width(b: seq<Byte>): (w: nat)
    ensures w <= |b| && w <= 4
  {
    if |b| >= 1 && b[0] < 0x80 then 1
    else if |b| >= 2 && 0xC2 <= b[0] <= 0xDF && Tail(b[1]) then 2
    else if |b| >= 3 && 0xE0 <= b[0] <= 0xEF && Tail(b[1]) && Tail(b[2])
            && (b[0] == 0xE0 ==> 0xA0 <= b[1]) && (b[0] == 0xED ==> b[1] <= 0x9F) then 3
    else if |b| >= 4 && 0xF0 <= b[0] <= 0xF4 && Tail(b[1]) && Tail(b[2]) && Tail(b[3])
            && (b[0] == 0xF0 ==> 0x90 <= b[1]) && (b[0] == 0xF4 ==> b[1] <= 0x8F) then 4
    else 0
  }

  /** The well-formed sequences of a byte string, with every other byte left out. */
  function ToValidUTF8(b: seq<Byte>): seq<Byte>
    decreases |b|
  {
    if b == [] then []
    else if Width(b) == 0 then ToValidUTF8(b[1..])
    else b[..Width(b)] + ToValidUTF8(b[Width(b)..])
  }

  lemma WidthOfRune(c: char, rest: seq<Byte>)
    ensures Width(EncodeRune(c) + rest) == |EncodeRune(c)|
  {
    var v, bytes := c as int, EncodeRune(c) + rest;
    if 0x800 <= v < 0x10000 {
      assert bytes[0] == 0xE0 + v / 4096 && bytes[1] == 0x80 + v / 64 % 64;
      assert v / 64 == v / 4096 * 64 + v / 64 % 64 by { assert v / 4096 == v / 64 / 64; }
    } else if 0x10000 <= v {
      assert bytes[0] == 0xF0 + v / 262144 && bytes[1] == 0x80 + v / 4096 % 64;
      assert v / 4096 == v / 262144 * 64 + v / 4096 % 64 by { assert v / 262144 == v / 4096 / 64; }
    }
  }

  /** A sequence cut short is left out whole: its lead byte wants more, and its tails lead nothing. */
  lemma CutRuneVanishes(c: char, n: nat)
    requires n < |EncodeRune(c)|
    ensures ToValidUTF8(EncodeRune(c)[..n]) == []
  {
    var cut := EncodeRune(c)[..n];
    if n > 0 {
      assert Width(cut) == 0;
      TailsVanish(cut[1..]);
    }
  }

  lemma {:induction false} TailsVanish(b: seq<Byte>)
    requires forall i :: 0 <= i < |b| ==> Tail(b[i])
    ensures ToValidUTF8(b) == []
  {
    if b != [] {
      TailsVanish(b[1..]);
    }
  }

  /** How many scalar values at the front fit in so many bytes. */
  function Fit(s: string, n: nat): (k: nat)
    ensures k <= |s|
  {
    if s == "" || |EncodeRune(s[0])| > n then 0 else 1 + Fit(s[1..], n - |EncodeRune(s[0])|)
  }

  /** Cutting the bytes anywhere and dropping what is not well formed is cutting at the last whole scalar value. */
  lemma {:induction false} CutKeepsWholeRunes(s: string, n: nat)
    requires n <= |Encode(s)|
    ensures ToValidUTF8(Encode(s)[..n]) == Encode(s[..Fit(s, n)])
  {
    if s == "" {
      assert s[..0] == "";
    } else {
      var rune, rest := EncodeRune(s[0]), Encode(s[1..]);
      if |rune| > n {
        assert Encode(s)[..n] == rune[..n];
        CutRuneVanishes(s[0], n);
        assert s[..0] == "";
      } else {
        var m := n - |rune|;
        assert Encode(s)[..n] == rune + rest[..m];
        WidthOfRune(s[0], rest[..m]);
        assert (rune + rest[..m])[..|rune|] == rune && (rune + rest[..m])[|rune|..] == rest[..m];
        CutKeepsWholeRunes(s[1..], m);
        var k := Fit(s[1..], m);
        assert s[..k + 1][1..] == s[1..][..k];
      }
    }
  }

  /** That prefix is the longest one that fits, and it wastes less than one scalar value's bytes. */
  lemma {:induction false} FitIsLongest(s: string, n: nat)
    ensures |Encode(s[..Fit(s, n)])| <= n
    ensures Fit(s, n) < |s| ==> n - 3 <= |Encode(s[..Fit(s, n)])| && |Encode(s[..Fit(s, n) + 1])| > n
  {
    if s == "" || |EncodeRune(s[0])| > n {
      assert s[..0] == "";
      if s != "" {
        assert s[..1][1..] == "";
      }
    } else {
      var m := n - |EncodeRune(s[0])|;
      var k := Fit(s[1..], m);
      FitIsLongest(s[1..], m);
      assert s[..k + 1][1..] == s[1..][..k];
      if k < |s[1..]| {
        assert s[..k + 2][1..] == s[1..][..k + 1];
      }
    }
  }

  lemma {:induction false} EncodeConcat(a: string, b: string)
    ensures Encode(a + b) == Encode(a) + Encode(b)
    ensures |a| <= |Encode(a)|
  {
    if a == "" {
      assert a + b == b;
    } else {
      assert (a + b)[1..] == a[1..] + b;
      EncodeConcat(a[1..], b);
    }
  }

  // ---- The text operations ----

  /** What Unicode counts as white space. */
  predicate IsSpace(c: char) {
    var v := c as int;
    || 9 <= v <= 13 || v in {0x20, 0x85, 0xA0, 0x1680, 0x2028, 0x2029, 0x202F, 0x205F, 0x3000}
    || 0x2000 <= v <= 0x200A
  }

  /** The code points of Unicode's White_Space property. */
  const WhiteSpace: set<int> :=
    {0x9, 0xA, 0xB, 0xC, 0xD, 0x20, 0x85, 0xA0, 0x1680, 0x2000, 0x2001, 0x2002, 0x2003, 0x2004, 0x2005, 0x2006,
     0x2007, 0x2008, 0x2009, 0x200A, 0x2028, 0x2029, 0x202F, 0x205F, 0x3000}

  lemma WhiteSpaceIs(c: char)
    ensures IsSpace(c) <==> c as int in WhiteSpace
  {
  }

  function TrimLeft(s: string, cut: char -> bool): string {
    if s != "" && cut(s[0]) then TrimLeft(s[1..], cut) else s
  }

  function TrimRight(s: string, cut: char -> bool): string {
    if s != "" && cut(s[|s| - 1]) then TrimRight(s[..|s| - 1], cut) else s
  }

  function TrimSpace(s: string): string {
    TrimRight(TrimLeft(s, IsSpace), IsSpace)
  }

  /** The text before and after the first newline; all of it before when there is none. */
  function Cut(s: string): (string, string) {
    if s == "" then ("", "")
    else if s[0] == '\n' then ("", s[1..])
    else ([s[0]] + Cut(s[1..]).0, Cut(s[1..]).1)
  }

  /** Every carriage return before a newline is dropped, in one pass. */
  function WithoutCRLF(s: string): string {
    if |s| >= 2 && s[0] == '\r' && s[1] == '\n' then "\n" + WithoutCRLF(s[2..])
    else if s == "" then "" else [s[0]] + WithoutCRLF(s[1..])
  }

  function Subject(message: string): string {
    TrimSpace(Cut(message).0)
  }

  /** The body with the blank space around it gone, before any cut. */
  function BodyText(message: string): string {
    TrimRight(TrimLeft(WithoutCRLF(Cut(message).1), IsNewline), IsBlank)
  }

  function Kept(text: string): string {
    if |Encode(text)| <= CommitBodyLimit then text else text[..Fit(text, CommitBodyLimit)] + Ellipsis
  }

  method SplitCommitMessage(message: string) returns (subject: string, body: seq<Byte>)
    ensures subject == Subject(message)
    ensures body == Encode(Kept(BodyText(message)))
  {
    var rest: string;
    subject, rest := Cut(message).0, Cut(message).1;
    subject := TrimSpace(subject);
    var text := WithoutCRLF(rest);
    text := TrimRight(TrimLeft(text, IsNewline), IsBlank);
    body := Encode(text);
    if |body| > CommitBodyLimit {
      CutKeepsWholeRunes(text, CommitBodyLimit);
      EncodeConcat(text[..Fit(text, CommitBodyLimit)], Ellipsis);
      body := ToValidUTF8(body[..CommitBodyLimit]) + Encode(Ellipsis);
    }
  }

  // ---- What comes out ----

  /**
   * The body is the whole text when that is at most 4096 bytes; otherwise its longest prefix of
   * whole scalar values within 4096 bytes, of at least 4093, and an ellipsis. Either way it is at
   * most 4099 bytes and within the schema's 4100 characters.
   */
  lemma BodyFitsTheSchema(text: string)
    ensures |Kept(text)| <= 4100 && |Encode(Kept(text))| <= CommitBodyLimit + 3
    ensures |Encode(text)| <= CommitBodyLimit ==> Kept(text) == text
    ensures |Encode(text)| > CommitBodyLimit ==>
              exists k :: 0 <= k < |text| && Kept(text) == text[..k] + Ellipsis
                && CommitBodyLimit - 3 <= |Encode(text[..k])| <= CommitBodyLimit < |Encode(text[..k + 1])|
  {
    EncodeConcat(text, "");
    if |Encode(text)| > CommitBodyLimit {
      var k := Fit(text, CommitBodyLimit);
      FitIsLongest(text, CommitBodyLimit);
      assert text[..|text|] == text;
      EncodeConcat(text[..k], Ellipsis);
      assert Encode(Ellipsis) == EncodeRune(Ellipsis[0]) + Encode("");
      assert |Encode(Ellipsis)| == 3;
    }
  }

  lemma {:induction false} TrimLeftIsSuffix(s: string, cut: char -> bool) returns (k: nat)
    ensures k <= |s| && TrimLeft(s, cut) == s[k..] && forall i :: 0 <= i < k ==> cut(s[i])
    ensures k < |s| ==> !cut(s[k])
  {
    k := 0;
    if s != "" && cut(s[0]) {
      var j := TrimLeftIsSuffix(s[1..], cut);
      k := j + 1;
      assert s[1..][j..] == s[k..];
      forall i | 0 <= i < k ensures cut(s[i]) {
        assert i > 0 ==> s[i] == s[1..][i - 1];
      }
    }
  }

  lemma {:induction false} TrimRightIsPrefix(s: string, cut: char -> bool) returns (k: nat)
    ensures k <= |s| && TrimRight(s, cut) == s[..k] && forall i :: k <= i < |s| ==> cut(s[i])
    ensures k > 0 ==> !cut(s[k - 1])
  {
    k := |s|;
    if s != "" && cut(s[|s| - 1]) {
      var front := s[..|s| - 1];
      k := TrimRightIsPrefix(front, cut);
      assert front[..k] == s[..k];
      forall i | k <= i < |s| ensures cut(s[i]) {
        assert i < |front| ==> s[i] == front[i];
      }
    }
  }

  /** Two trims take a piece off either end, and the middle neither begins nor ends with what was cut. */
  lemma TrimBoth(s: string, left: char -> bool, right: char -> bool) returns (before: string, after: string)
    ensures s == before + TrimRight(TrimLeft(s, left), right) + after
    ensures forall i :: 0 <= i < |before| ==> left(before[i])
    ensures forall i :: 0 <= i < |after| ==> right(after[i])
    ensures var middle := TrimRight(TrimLeft(s, left), right);
            middle != "" ==> !left(middle[0]) && !right(middle[|middle| - 1])
  {
    var k := TrimLeftIsSuffix(s, left);
    var m := TrimRightIsPrefix(s[k..], right);
    before, after := s[..k], s[k..][m..];
    assert s == before + s[k..][..m] + after;
  }

  predicate IsNewline(c: char) { c == '\n' }

  predicate IsBlank(c: char) { c in " \t\n" }

  /**
   * The body keeps its shape: only newlines go before it and only blanks after it, so the indent of
   * its first line stays.
   */
  lemma BodyKeepsItsShape(message: string) returns (before: string, after: string)
    ensures WithoutCRLF(Cut(message).1) == before + BodyText(message) + after
    ensures forall i :: 0 <= i < |before| ==> before[i] == '\n'
    ensures forall i :: 0 <= i < |after| ==> after[i] in " \t\n"
    ensures var text := BodyText(message);
            text != "" ==> text[0] != '\n' && text[|text| - 1] !in " \t\n"
  {
    before, after := TrimBoth(WithoutCRLF(Cut(message).1), IsNewline, IsBlank);
  }

  lemma {:induction false} CutAtFirstNewline(s: string)
    ensures '\n' !in Cut(s).0
    ensures '\n' in s ==> s == Cut(s).0 + "\n" + Cut(s).1
    ensures '\n' !in s ==> Cut(s) == (s, "")
  {
    if s != "" {
      assert s == [s[0]] + s[1..];
      if s[0] != '\n' {
        CutAtFirstNewline(s[1..]);
      }
    }
  }

  /** The subject is the first line with the blanks at its ends gone and nothing else. */
  lemma SubjectIsTheFirstLine(message: string) returns (before: string, after: string, rest: string)
    ensures message == before + Subject(message) + after + rest
    ensures rest == "" || rest[0] == '\n'
    ensures '\n' !in before + Subject(message) + after
    ensures forall i :: 0 <= i < |before| ==> IsSpace(before[i])
    ensures forall i :: 0 <= i < |after| ==> IsSpace(after[i])
    ensures Subject(message) != "" ==>
      !IsSpace(Subject(message)[0]) && !IsSpace(Subject(message)[|Subject(message)| - 1])
  {
    var line := Cut(message).0;
    CutAtFirstNewline(message);
    before, after := TrimBoth(line, IsSpace, IsSpace);
    rest := if '\n' in message then "\n" + Cut(message).1 else "";
    assert line == before + Subject(message) + after;
  }

  /** Trimming is done once: a subject has no newline, and splitting it again gives it back with no body. */
  lemma SubjectIsFinal(message: string)
    ensures '\n' !in Subject(message)
    ensures Subject(Subject(message)) == Subject(message) && BodyText(Subject(message)) == ""
  {
    SubjectIsALine(message);
    ALineIsFinal(Subject(message));
  }

  lemma SubjectIsALine(message: string)
    ensures var subject := Subject(message);
            '\n' !in subject && (subject != "" ==> !IsSpace(subject[0]) && !IsSpace(subject[|subject| - 1]))
  {
    var before, after := TrimBoth(Cut(message).0, IsSpace, IsSpace);
    CutAtFirstNewline(message);
    PieceHasNone(before, Subject(message), after);
  }

  lemma PieceHasNone(before: string, middle: string, after: string)
    requires '\n' !in before + middle + after
    ensures '\n' !in middle
  {
    forall i | 0 <= i < |middle| ensures middle[i] != '\n' {
      assert (before + middle + after)[|before| + i] == middle[i];
    }
  }

  lemma ALineIsFinal(s: string)
    requires '\n' !in s && (s != "" ==> !IsSpace(s[0]) && !IsSpace(s[|s| - 1]))
    ensures Subject(s) == s && BodyText(s) == ""
  {
    CutAtFirstNewline(s);
    TrimmedStays(s);
  }

  lemma TrimmedStays(s: string)
    requires s != "" ==> !IsSpace(s[0]) && !IsSpace(s[|s| - 1])
    ensures TrimSpace(s) == s
  {
  }

  predicate HasPair(s: string) {
    exists i :: 0 <= i < |s| - 1 && s[i] == '\r' && s[i + 1] == '\n'
  }

  /** A text with no pair is left as it is, and only such a text. */
  lemma {:induction false} NoPairNoChange(s: string)
    ensures WithoutCRLF(s) == s <==> !HasPair(s)
    ensures |WithoutCRLF(s)| <= |s|
  {
    if |s| >= 2 && s[0] == '\r' && s[1] == '\n' {
      NoPairNoChange(s[2..]);
    } else if s != "" {
      NoPairNoChange(s[1..]);
      if i :| 0 <= i < |s[1..]| - 1 && s[1..][i] == '\r' && s[1..][i + 1] == '\n' {
        assert s[i + 1] == '\r' && s[i + 2] == '\n';
      }
      if i :| 0 <= i < |s| - 1 && s[i] == '\r' && s[i + 1] == '\n' {
        assert s[1..][i - 1] == '\r' && s[1..][i] == '\n';
      }
      assert s == [s[0]] + s[1..];
    }
  }

  predicate StartsWithPair(s: string) {
    |s| >= 2 && s[0] == '\r' && s[1] == '\n'
  }

  lemma LoneHead(before: string, tail: string)
    requires before != "" && !StartsWithPair(before) && tail != "" && tail[0] != '\n'
    ensures WithoutCRLF(before) == [before[0]] + WithoutCRLF(before[1..])
    ensures WithoutCRLF(before + tail) == [before[0]] + WithoutCRLF(before[1..] + tail)
  {
    assert (before + tail)[1..] == before[1..] + tail;
  }

  lemma PairHead(before: string, tail: string)
    requires StartsWithPair(before)
    ensures WithoutCRLF(before) == "\n" + WithoutCRLF(before[2..])
    ensures WithoutCRLF(before + tail) == "\n" + WithoutCRLF(before[2..] + tail)
  {
    assert (before + tail)[2..] == before[2..] + tail;
  }

  /** A pair anywhere becomes a newline, and what stands on either side is rewritten by itself. */
  lemma {:induction false} PairBecomesNewline(before: string, after: string)
    ensures WithoutCRLF(before + ("\r\n" + after)) == WithoutCRLF(before) + ("\n" + WithoutCRLF(after))
  {
    var tail := "\r\n" + after;
    if before == "" {
      PairAlone(after);
      assert before + tail == tail;
    } else if StartsWithPair(before) {
      PairHead(before, tail);
      PairBecomesNewline(before[2..], after);
      Regroup("\n", WithoutCRLF(before[2..]), "\n" + WithoutCRLF(after));
    } else {
      LoneHead(before, tail);
      PairBecomesNewline(before[1..], after);
      Regroup([before[0]], WithoutCRLF(before[1..]), "\n" + WithoutCRLF(after));
    }
  }

  lemma PairAlone(after: string)
    ensures WithoutCRLF("\r\n" + after) == "\n" + WithoutCRLF(after)
  {
    assert ("\r\n" + after)[2..] == after;
  }

  lemma Regroup(x: string, y: string, z: string)
    ensures x + (y + z) == x + y + z
  {
  }

  /** One pass is one pass: a doubled carriage return leaves a pair behind. */
  lemma OnePassLeavesCRLF()
    ensures WithoutCRLF("\r\r\n") == "\r\n"
    ensures WithoutCRLF(WithoutCRLF("\r\r\n")) != WithoutCRLF("\r\r\n")
  {
    assert "\r\r\n"[1..] == "\r\n" && "\r\n"[2..] == "";
  }
}

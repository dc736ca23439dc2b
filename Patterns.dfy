/** The regular expressions of extension/content.js, written out as matchers.
    Each has a deterministic match length at a position (its backtracking never
    finds a second way to match), and searching gives the leftmost match, as
    `String.prototype.match` without the `g` flag does. */
module Patterns {
  import opened Wrappers
  import opened Strings

  /** The month abbreviations, lower-cased, in calendar order. */
  const MonthNames: seq<string> :=
    ["jan", "feb", "mar", "apr", "may", "jun", "jul", "aug", "sep", "oct", "nov", "dec"]

  /** The regular expressions the scrapers use. */
  datatype Pattern =
    | MonthToken        // /\b(Jan|Feb|…|Dec)\b/i
    | DayToken          // /\b([1-9]|[12]\d|3[01])\b/
    | ClockTime         // /\d{1,2}:\d{2}\s?(AM|PM)/i
    | BoundedClockTime  // /\b\d{1,2}:\d{2}\s?(AM|PM)\b/i
    | CalendarStamp     // /\b(Jan|…|Dec)\s+\d{1,2},\s+\d{4}\s+\d{1,2}:\d{2}\s?(AM|PM)\b/i

  /** A match: where it starts and the text it covers (`m.index`, `m[0]`). */
  datatype Match = Match(start: nat, text: string)

  /** `\b` at position `i`: exactly one of the characters around it is a word character. */
  predicate Boundary(s: string, i: nat)
    requires i <= |s|
  {
    (i > 0 && IsWordChar(s[i - 1])) != (i < |s| && IsWordChar(s[i]))
  }

  /** A month abbreviation, in any ASCII case, starts at `i`. */
  predicate MonthAt(s: string, i: nat)
    requires i <= |s|
  {
    i + 3 <= |s| && Lower(s[i..i + 3]) in MonthNames
  }

  /** `AM` or `PM`, in any ASCII case, starts at `i`. */
  predicate MeridiemAt(s: string, i: nat)
    requires i <= |s|
  {
    i + 2 <= |s| && (LowerChar(s[i]) == 'a' || LowerChar(s[i]) == 'p') && LowerChar(s[i + 1]) == 'm'
  }

  /** The length of the run of whitespace starting at `i`. */
  function SpaceRun(s: string, i: nat): (n: nat)
    requires i <= |s|
    decreases |s| - i
    ensures i + n <= |s|
    ensures forall k :: i <= k < i + n ==> IsSpace(s[k])
    ensures i + n == |s| || !IsSpace(s[i + n])
  {
    if i < |s| && IsSpace(s[i]) then 1 + SpaceRun(s, i + 1) else 0
  }

  /** The length of the run of digits starting at `i`. */
  function DigitRun(s: string, i: nat): (n: nat)
    requires i <= |s|
    decreases |s| - i
    ensures i + n <= |s|
    ensures forall k :: i <= k < i + n ==> IsDigit(s[k])
    ensures i + n == |s| || !IsDigit(s[i + n])
  {
    if i < |s| && IsDigit(s[i]) then 1 + DigitRun(s, i + 1) else 0
  }

  /** `\d{1,2}:\d{2}\s?(AM|PM)` at `i`, followed by `\b` when `bounded`: the
      length matched, or 0. Greedy `\d{1,2}` and `\s?` never need to give a
      character back, because the character after them is then a digit or a
      space where `:` or a letter is needed. */
  function ClockLen(s: string, i: nat, bounded: bool): (n: nat)
    requires i <= |s|
    ensures i + n <= |s|
    ensures n > 0 ==> IsDigit(s[i]) && n >= 6 && MeridiemAt(s, i + n - 2)
  {
    if !(i < |s| && IsDigit(s[i])) then 0
    else
      var h := if i + 1 < |s| && IsDigit(s[i + 1]) then 2 else 1;
      var c := i + h;
      if !(c + 3 <= |s| && s[c] == ':' && IsDigit(s[c + 1]) && IsDigit(s[c + 2])) then 0
      else
        var e := c + 3 + (if c + 3 < |s| && IsSpace(s[c + 3]) then 1 else 0);
        if !MeridiemAt(s, e) || (bounded && !Boundary(s, e + 2)) then 0
        else e + 2 - i
  }

  /** `\b([1-9]|[12]\d|3[01])\b` at `i`: the length matched, or 0. */
  function DayLen(s: string, i: nat): (n: nat)
    requires i <= |s|
    ensures i + n <= |s| && n <= 2
  {
    if !Boundary(s, i) || i == |s| then 0
    else if '1' <= s[i] <= '9' && Boundary(s, i + 1) then 1
    else if i + 2 <= |s|
      && (((s[i] == '1' || s[i] == '2') && IsDigit(s[i + 1])) || (s[i] == '3' && (s[i + 1] == '0' || s[i + 1] == '1')))
      && Boundary(s, i + 2)
    then 2
    else 0
  }

  /** The calendar stamp "Mon D, YYYY H:MM AM" at `i`: the length matched, or 0.
      Every `\s+` and the `\d{4}` are followed by something they cannot
      contain, so none of them backtracks either. */
  function StampLen(s: string, i: nat): (n: nat)
    requires i <= |s|
    ensures i + n <= |s|
    ensures n > 0 ==> MonthAt(s, i) && Boundary(s, i) && n > 4 && IsSpace(s[i + 3])
  {
    if !(Boundary(s, i) && MonthAt(s, i)) then 0
    else
      var a := i + 3 + SpaceRun(s, i + 3);
      var dd := DigitRun(s, a);
      if a == i + 3 || dd == 0 || dd > 2 || a + dd == |s| || s[a + dd] != ',' then 0
      else
        var b := a + dd + 1 + SpaceRun(s, a + dd + 1);
        if b == a + dd + 1 || DigitRun(s, b) != 4 then 0
        else
          var c := b + 4 + SpaceRun(s, b + 4);
          if c == b + 4 then 0
          else
            var t := ClockLen(s, c, true);
            if t == 0 then 0 else c + t - i
  }

  /** The length of the match of `p` that starts at `i`, or 0 when none does
      (every pattern here matches at least one character). */
  function MatchLen(p: Pattern, s: string, i: nat): (n: nat)
    requires i <= |s|
    ensures i + n <= |s|
  {
    match p
    case MonthToken => if Boundary(s, i) && MonthAt(s, i) && Boundary(s, i + 3) then 3 else 0
    case DayToken => DayLen(s, i)
    case ClockTime => ClockLen(s, i, false)
    case BoundedClockTime => if Boundary(s, i) then ClockLen(s, i, true) else 0
    case CalendarStamp => StampLen(s, i)
  }

  /** `s.match(p)` searching from `from`: the leftmost match, or `None`. */
  function Find(p: Pattern, s: string, from: nat): (r: Option<Match>)
    requires from <= |s|
    decreases |s| - from
    ensures r.Some? ==> var m := r.value;
      from <= m.start <= |s| && MatchLen(p, s, m.start) > 0 && m.text == s[m.start..m.start + MatchLen(p, s, m.start)]
  {
    if MatchLen(p, s, from) > 0 then Some(Match(from, s[from..from + MatchLen(p, s, from)]))
    else if from == |s| then None
    else Find(p, s, from + 1)
  }

  /** The match found is the leftmost one: nothing matches before it, and
      when there is none nothing matches anywhere from `from` on. */
  lemma {:induction false} FindLeftmost(p: Pattern, s: string, from: nat)
    requires from <= |s|
    decreases |s| - from
    ensures var r := Find(p, s, from);
      && (r.Some? ==> forall k :: from <= k < r.value.start ==> MatchLen(p, s, k) == 0)
      && (r.None? ==> forall k :: from <= k <= |s| ==> MatchLen(p, s, k) == 0)
  {
    if MatchLen(p, s, from) == 0 && from < |s| {
      FindLeftmost(p, s, from + 1);
      FindSkip(p, s, from);
    }
  }

  /** The step of `FindLeftmost`: a position that does not match is passed over. */
  lemma FindSkip(p: Pattern, s: string, from: nat)
    requires from < |s| && MatchLen(p, s, from) == 0
    requires var r := Find(p, s, from + 1);
      && (r.Some? ==> forall k :: from + 1 <= k < r.value.start ==> MatchLen(p, s, k) == 0)
      && (r.None? ==> forall k :: from + 1 <= k <= |s| ==> MatchLen(p, s, k) == 0)
    ensures var r := Find(p, s, from);
      && (r.Some? ==> forall k :: from <= k < r.value.start ==> MatchLen(p, s, k) == 0)
      && (r.None? ==> forall k :: from <= k <= |s| ==> MatchLen(p, s, k) == 0)
  {
    var r := Find(p, s, from + 1);
    assert Find(p, s, from) == r;
    var end := if r.Some? then r.value.start else |s| + 1;
    forall k | from <= k < end
      ensures MatchLen(p, s, k) == 0
    {
      if k != from {
        assert from + 1 <= k;
      }
    }
  }

  /** The text of a match occurs in the searched text where the match starts. */
  lemma FoundOccurs(p: Pattern, s: string, from: nat)
    requires from <= |s| && Find(p, s, from).Some?
    ensures from <= Find(p, s, from).value.start && OccursAt(s, Find(p, s, from).value.text, Find(p, s, from).value.start)
    ensures |Find(p, s, from).value.text| == MatchLen(p, s, Find(p, s, from).value.start)
  {
    var m := Find(p, s, from).value;
    SliceOccurs(s, m.text, m.start, MatchLen(p, s, m.start));
  }

  /** `p.test(s)`. */
  predicate Test(p: Pattern, s: string)
  {
    Find(p, s, 0).Some?
  }

  /** `s.replace(p, "")`: the leftmost match removed, or `s` unchanged when
      there is none. */
  function ReplaceFirst(p: Pattern, s: string): (r: string)
    ensures Test(p, s) <==> |r| < |s|
    ensures !Test(p, s) ==> r == s
    ensures Test(p, s) ==> var m := Find(p, s, 0).value;
      r == s[..m.start] + s[m.start + |m.text|..] && OccursAt(s, m.text, m.start)
  {
    match Find(p, s, 0)
    case None => s
    case Some(m) =>
      FoundOccurs(p, s, 0);
      s[..m.start] + s[m.start + |m.text|..]
  }

  /** A month match is one of the twelve abbreviations. */
  lemma MonthMatch(s: string, from: nat)
    requires from <= |s| && Find(MonthToken, s, from).Some?
    ensures var t := Find(MonthToken, s, from).value.text; |t| == 3 && Lower(t) in MonthNames
  {
  }

  /** A day match is one or two digits spelling a day of the month, 1 to 31. */
  lemma DayMatch(s: string, from: nat)
    requires from <= |s| && Find(DayToken, s, from).Some?
    ensures var t := Find(DayToken, s, from).value.text;
      1 <= |t| <= 2 && AllDigits(t) && 1 <= ParseDecimal(t) <= 31 && t[0] != '0'
  {
    var m := Find(DayToken, s, from).value;
    FoundOccurs(DayToken, s, from);
    var i, t := m.start, m.text;
    assert |t| == DayLen(s, i);
    assert t[0] == s[i];
    assert |t| == 2 ==> t[1] == s[i + 1];
    DaySpelling(t);
  }

  /** The spellings `[1-9]`, `[12]\d` and `3[01]` are the days 1 to 31. */
  lemma DaySpelling(t: string)
    requires || (|t| == 1 && '1' <= t[0] <= '9')
             || (|t| == 2 && (((t[0] == '1' || t[0] == '2') && IsDigit(t[1])) || (t[0] == '3' && (t[1] == '0' || t[1] == '1'))))
    ensures AllDigits(t) && 1 <= ParseDecimal(t) <= 31 && t[0] != '0'
  {
    assert ParseDecimal(t[..0]) == 0;
    if |t| == 2 {
      assert ParseDecimal(t[..1]) == t[0] as int - 48 by {
        assert t[..1][..0] == [];
      }
    }
  }

  /** Every character of a month abbreviation is a letter. */
  lemma MonthAtLetters(s: string, i: nat)
    requires i <= |s| && MonthAt(s, i)
    ensures IsWordChar(s[i]) && IsWordChar(s[i + 1]) && IsWordChar(s[i + 2])
  {
    var x := s[i..i + 3];
    forall k | 0 <= k < 3
      ensures IsWordChar(x[k])
    {
      assert 'a' <= Lower(x)[k] <= 'z';
    }
    assert x[0] == s[i] && x[1] == s[i + 1] && x[2] == s[i + 2];
  }

  /** No whitespace character is a word character. */
  lemma SpaceNotWord(c: char)
    requires IsSpace(c)
    ensures !IsWordChar(c)
  {
  }

  /** A text that opens with a month abbreviation followed by a non-word
      character has its first month match at its very start. */
  lemma MonthAtStart(t: string)
    requires |t| > 3 && MonthAt(t, 0) && IsWordChar(t[0]) && IsWordChar(t[2]) && !IsWordChar(t[3])
    ensures MatchLen(MonthToken, t, 0) == 3
  {
    assert Boundary(t, 0) && Boundary(t, 3);
    assert MatchLen(MonthToken, t, 0) == 3;
  }

  /** A calendar stamp begins with a month abbreviation that the month
      pattern finds at its very start, so looking the month up inside the
      stamp never fails. */
  lemma StampStartsWithMonth(s: string, from: nat)
    requires from <= |s| && Find(CalendarStamp, s, from).Some?
    ensures var t := Find(CalendarStamp, s, from).value.text;
      |t| > 3 && Find(MonthToken, t, 0) == Some(Match(0, t[..3]))
  {
    var m := Find(CalendarStamp, s, from).value;
    FoundOccurs(CalendarStamp, s, from);
    StampMatchLen(s, m.start);
    assert |m.text| == StampLen(s, m.start) > 0;
    StampOpensWithMonth(s, m.start, m.text);
    FindAtStart(MonthToken, m.text);
  }

  /** The calendar stamp's match length is the stamp's length. */
  lemma StampMatchLen(s: string, i: nat)
    requires i <= |s|
    ensures MatchLen(CalendarStamp, s, i) == StampLen(s, i)
  {
  }

  /** A text found at `i`, where a month abbreviation and then whitespace
      start (as in every stamp), opens with a month match. */
  lemma StampOpensWithMonth(s: string, i: nat, t: string)
    requires OccursAt(s, t, i) && |t| > 4
    requires MonthAt(s, i) && IsSpace(s[i + 3])
    ensures |t| > 3 && MatchLen(MonthToken, t, 0) == 3
  {
    MonthAtLetters(s, i);
    SpaceNotWord(s[i + 3]);
    assert t[..3] == s[i..i + 3];
    assert t[0] == s[i] && t[2] == s[i + 2] && t[3] == s[i + 3];
    MonthAtStart(t);
  }

  /** A pattern that matches at the very start is found there. */
  lemma FindAtStart(p: Pattern, t: string)
    requires MatchLen(p, t, 0) > 0
    ensures Find(p, t, 0) == Some(Match(0, t[..MatchLen(p, t, 0)]))
  {
  }
}

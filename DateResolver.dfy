/** `monthToNum` and `toISO` of extension/content.js: turning the month, day
    and time a scraper found into an ISO timestamp. */
module DateResolver {
  import opened Wrappers
  import opened Strings
  import opened TextNormalizer
  import Patterns

  /** `monthToNum(m)`: the number, 1 to 12, of a month abbreviation in any
      ASCII case, or `None` (`undefined`) for any other text. */
  function MonthToNum(m: string): (r: Option<nat>)
    ensures r.Some? <==> Lower(m) in Patterns.MonthNames
    ensures r.Some? ==> 1 <= r.value <= 12 && Patterns.MonthNames[r.value - 1] == Lower(m)
  {
    var names := Patterns.MonthNames;
    assert |names| == 12;
    var k := Position(names, Lower(m));
    if k < 0 then None else Some(k + 1)
  }

  /** Lower-casing leaves a text of lower-case letters alone. */
  lemma LowerOfLowerLetters(s: string)
    requires forall i :: 0 <= i < |s| ==> 'a' <= s[i] <= 'z'
    ensures Lower(s) == s
  {
  }

  /** The abbreviations are distinct lower-case words. */
  lemma MonthNamesShape()
    ensures forall i, j :: 0 <= i < j < 12 ==> Patterns.MonthNames[i] != Patterns.MonthNames[j]
    ensures forall k, i :: 0 <= k < 12 && 0 <= i < |Patterns.MonthNames[k]| ==> 'a' <= Patterns.MonthNames[k][i] <= 'z'
  {
  }

  /** Each abbreviation maps to its own place in the calendar. */
  lemma MonthToNumOfName(k: nat)
    requires k < 12
    ensures MonthToNum(Patterns.MonthNames[k]) == Some(k + 1)
  {
    var names := Patterns.MonthNames;
    MonthNamesShape();
    LowerOfLowerLetters(names[k]);
    var p := Position(names, names[k]);
    assert p >= 0 && names[p] == names[k];
    if p < k {
      assert false;
    } else if p > k {
      assert false;
    }
  }

  /** The month lookup ignores ASCII case. */
  lemma MonthToNumIgnoresCase(m: string)
    ensures MonthToNum(Lower(m)) == MonthToNum(m)
  {
    LowerIdempotent(m);
  }

  /** What the browser provides to `toISO`: `new Date(text)` as a partial map
      from text to an instant (`None` where the result is an invalid date),
      and `Date.prototype.toISOString` of an instant. */
  datatype Host = Host(parse: string -> Option<int>, iso: int -> string)

  /** `clean(timeText || fallback || "23:59")`: the first truthy of the
      scraped time and the fallback, or the default time, cleaned. */
  function PickTime(timeText: Option<string>, fallback: Option<string>): (t: string)
    ensures Truthy(timeText) ==> t == Clean(timeText)
    ensures !Truthy(timeText) && Truthy(fallback) ==> t == Clean(fallback)
    ensures !Truthy(timeText) && !Truthy(fallback) ==> t == "23:59"
  {
    if Truthy(timeText) then Clean(timeText)
    else if Truthy(fallback) then Clean(fallback)
    else DefaultTimeClean(); Clean(Some("23:59"))
  }

  /** The default time is already clean. */
  lemma DefaultTimeClean()
    ensures Clean(Some("23:59")) == "23:59"
  {
    var x := "23:59";
    assert IsWord(x);
    CleanOfWord(x);
  }

  /** The text handed to `new Date`: "Y-MM-DD t", the month and day padded
      to two digits. */
  function DateString(y: nat, m: nat, d: nat, t: string): string
  {
    NatToString(y) + "-" + Pad2(m) + "-" + Pad2(d) + " " + t
  }

  /** `toISO(y, m, d, timeText, fallback)`: `None` (`null`) exactly when the
      host cannot parse the assembled date text, otherwise the ISO spelling of
      the instant it parses to. */
  function ToISO(host: Host, y: nat, m: nat, d: nat, timeText: Option<string>, fallback: Option<string>): (r: Option<string>)
    ensures r.None? <==> host.parse(DateString(y, m, d, PickTime(timeText, fallback))).None?
    ensures r.Some? ==> r.value == host.iso(host.parse(DateString(y, m, d, PickTime(timeText, fallback))).value)
  {
    var t := PickTime(timeText, fallback);
    match host.parse(DateString(y, m, d, t))
    case None => None
    case Some(instant) => Some(host.iso(instant))
  }

  /** In digits followed by a dash, the first dash is the one after the digits. */
  lemma DashAfterDigits(a: string, x: string)
    requires AllDigits(a)
    ensures CharIndex(a + "-" + x, '-') == |a|
  {
    var u := a + "-" + x;
    assert u[|a|] == '-';
    forall i | 0 <= i < |a|
      ensures u[i] != '-'
    {
      assert u[i] == a[i];
    }
  }

  /** Digits followed by a dash: the dash marks where the digits end, so
      both the digits and what follows the dash are determined. */
  lemma DigitsThenDash(a: string, x: string, b: string, y: string)
    requires AllDigits(a) && AllDigits(b) && a + "-" + x == b + "-" + y
    ensures a == b && x == y
  {
    var u := a + "-" + x;
    DashAfterDigits(a, x);
    DashAfterDigits(b, y);
    assert a == u[..|a|] && x == u[|a| + 1..];
  }

  /** The date text grouped from the right. */
  lemma Regroup(ys: string, ms: string, ds: string, t: string)
    ensures ys + "-" + ms + "-" + ds + " " + t == ys + "-" + (ms + "-" + (ds + " " + t))
  {
  }

  /** Where the padded month, the padded day and the time sit after the
      year's dash. */
  lemma PaddedPartsAt(r: string, ms: string, ds: string, t: string)
    requires |ms| == 2 && |ds| == 2 && r == ms + "-" + (ds + " " + t)
    ensures r[..2] == ms && r[3..5] == ds && r[6..] == t
  {
  }

  /** Different dates and times give different texts to parse, so `toISO`
      never confuses two of them. */
  lemma DateStringInjective(y: nat, m: nat, d: nat, t: string, y': nat, m': nat, d': nat, t': string)
    requires m < 100 && d < 100 && m' < 100 && d' < 100
    requires DateString(y, m, d, t) == DateString(y', m', d', t')
    ensures y == y' && m == m' && d == d' && t == t'
  {
    var r, r' := Pad2(m) + "-" + (Pad2(d) + " " + t), Pad2(m') + "-" + (Pad2(d') + " " + t');
    Regroup(NatToString(y), Pad2(m), Pad2(d), t);
    Regroup(NatToString(y'), Pad2(m'), Pad2(d'), t');
    DigitsThenDash(NatToString(y), r, NatToString(y'), r');
    NatToStringInjective(y, y');
    PaddedPartsAt(r, Pad2(m), Pad2(d), t);
    PaddedPartsAt(r', Pad2(m'), Pad2(d'), t');
    assert Pad2(m) == Pad2(m') && Pad2(d) == Pad2(d');
  }
}

/** Character classes and string operations shared by the scraper and the server. */
module Strings {

  /** ECMAScript WhiteSpace and LineTerminator code points: the class `\s` of a
      regular expression, and what `String.prototype.trim` removes. */
  predicate IsSpace(c: char)
  {
    c in SpaceChars
  }

  const SpaceChars: set<char> := {
    ' ', '\t', '\n', '\r', '\U{B}', '\U{C}', '\U{A0}', '\U{1680}',
    '\U{2000}', '\U{2001}', '\U{2002}', '\U{2003}', '\U{2004}', '\U{2005}',
    '\U{2006}', '\U{2007}', '\U{2008}', '\U{2009}', '\U{200A}',
    '\U{2028}', '\U{2029}', '\U{202F}', '\U{205F}', '\U{3000}', '\U{FEFF}'
  }

  /** The class `\d` of a regular expression. */
  predicate IsDigit(c: char)
  {
    '0' <= c <= '9'
  }

  /** The class `\w`, whose edges `\b` detects. */
  predicate IsWordChar(c: char)
  {
    'a' <= c <= 'z' || 'A' <= c <= 'Z' || IsDigit(c) || c == '_'
  }

  predicate AllDigits(s: string)
  {
    forall i :: 0 <= i < |s| ==> IsDigit(s[i])
  }

  /** Lower-casing of one character, on the ASCII letters. */
  function LowerChar(c: char): char
  {
    if 'A' <= c <= 'Z' then (c as int + 32) as char else c
  }

  /** `s.toLowerCase()` on the ASCII letters. */
  function Lower(s: string): (r: string)
    ensures |r| == |s|
    ensures forall i :: 0 <= i < |s| ==> r[i] == LowerChar(s[i])
  {
    seq(|s|, i requires 0 <= i < |s| => LowerChar(s[i]))
  }

  lemma LowerIdempotent(s: string)
    ensures Lower(Lower(s)) == Lower(s)
  {
    assert forall i :: 0 <= i < |s| ==> Lower(Lower(s))[i] == Lower(s)[i];
  }

  lemma LowerSlice(s: string, i: nat, j: nat)
    requires i <= j <= |s|
    ensures Lower(s[i..j]) == Lower(s)[i..j]
  {
  }

  /** `sub` occurs in `s` at position `k`. */
  predicate OccursAt(s: string, sub: string, k: nat)
  {
    k + |sub| <= |s| && s[k..k + |sub|] == sub
  }

  /** `s.indexOf(sub, from)`: the first position at or after `from` where `sub` occurs, or -1. */
  function IndexFrom(s: string, sub: string, from: nat): (r: int)
    requires from <= |s|
    decreases |s| - from
    ensures r == -1 || (from <= r && OccursAt(s, sub, r))
    ensures r == -1 ==> forall k :: from <= k && OccursAt(s, sub, k) ==> false
    ensures r != -1 ==> forall k :: from <= k < r ==> !OccursAt(s, sub, k)
  {
    if from + |sub| > |s| then -1
    else if s[from..from + |sub|] == sub then from
    else if from == |s| then -1
    else IndexFrom(s, sub, from + 1)
  }

  /** `s.indexOf(sub)`. */
  function IndexOf(s: string, sub: string): int
  {
    IndexFrom(s, sub, 0)
  }

  /** `s.includes(sub)`; also a case-sensitive regular-expression test of a
      literal, and, applied to a lower-cased `s`, an ASCII case-insensitive one. */
  predicate Contains(s: string, sub: string)
  {
    IndexOf(s, sub) >= 0
  }

  lemma ContainsWhenOccurs(s: string, sub: string, k: nat)
    requires OccursAt(s, sub, k)
    ensures Contains(s, sub)
  {
  }

  /** A slice of `s` occurs in `s` where it starts. */
  lemma SliceOccurs(s: string, t: string, k: nat, n: nat)
    requires k + n <= |s| && t == s[k..k + n]
    ensures OccursAt(s, t, k)
  {
  }

  /** A text occurring at `k` is first found at or before `k`. */
  lemma FirstOccurrence(s: string, sub: string, k: nat)
    requires OccursAt(s, sub, k)
    ensures 0 <= IndexOf(s, sub) <= k && OccursAt(s, sub, IndexOf(s, sub))
  {
  }

  /** `s.slice(0, n)`. */
  function Take(s: string, n: nat): (r: string)
    ensures |r| == if |s| <= n then |s| else n
    ensures r == s[..|r|]
  {
    if |s| <= n then s else s[..n]
  }

  function DigitChar(d: nat): (c: char)
    requires d < 10
    ensures IsDigit(c)
  {
    (48 + d) as char
  }

  /** The decimal spelling `String(n)` of a natural number. */
  function NatToString(n: nat): (r: string)
    decreases n
    ensures |r| >= 1 && AllDigits(r)
    ensures (|r| == 1) == (n < 10)
    ensures |r| > 1 ==> r[0] != '0'
  {
    if n < 10 then [DigitChar(n)] else NatToString(n / 10) + [DigitChar(n % 10)]
  }

  /** `parseInt(s, 10)` of a string of decimal digits. */
  function ParseDecimal(s: string): nat
    requires AllDigits(s)
    decreases |s|
  {
    if s == [] then 0
    else ParseDecimal(s[..|s| - 1]) * 10 + (s[|s| - 1] as int - 48)
  }

  /** Reading back a decimal spelling gives the number. */
  lemma {:induction false} ParseNatToString(n: nat)
    ensures ParseDecimal(NatToString(n)) == n
    decreases n
  {
    var s := NatToString(n);
    if n >= 10 {
      assert s[..|s| - 1] == NatToString(n / 10);
      ParseNatToString(n / 10);
    }
  }

  /** Different numbers have different spellings. */
  lemma NatToStringInjective(a: nat, b: nat)
    requires NatToString(a) == NatToString(b)
    ensures a == b
  {
    ParseNatToString(a);
    ParseNatToString(b);
  }

  /** `String(n).padStart(2, "0")`. */
  function Pad2(n: nat): (r: string)
    ensures |r| >= 2 && AllDigits(r)
    ensures n < 100 ==> |r| == 2
    ensures ParseDecimal(r) == n
  {
    ParseNatToString(n);
    if n < 10 then
      var r := "0" + NatToString(n);
      assert r[..|r| - 1] == "0";
      r
    else NatToString(n)
  }

  /** The first position of `c` in `s`, or -1. */
  function CharIndex(s: string, c: char): (r: int)
    decreases |s|
    ensures r == -1 <==> forall i :: 0 <= i < |s| ==> s[i] != c
    ensures r != -1 ==> 0 <= r < |s| && s[r] == c && forall i :: 0 <= i < r ==> s[i] != c
  {
    if s == [] then -1
    else if s[0] == c then 0
    else var k := CharIndex(s[1..], c); if k == -1 then -1 else k + 1
  }

  /** `s.split(sep)` for a one-character separator: the parts of `s` between
      the occurrences of `sep`. */
  function Split(s: string, sep: char): (parts: seq<string>)
    decreases |s|
    ensures |parts| >= 1
    ensures parts[0] == s[..if CharIndex(s, sep) == -1 then |s| else CharIndex(s, sep)]
  {
    var k := CharIndex(s, sep);
    if k == -1 then [s] else [s[..k]] + Split(s[k + 1..], sep)
  }

  /** No part contains the separator. */
  lemma {:induction false} PartsWithout(s: string, sep: char)
    decreases |s|
    ensures forall i :: 0 <= i < |Split(s, sep)| ==> Without(Split(s, sep)[i], sep)
  {
    var k := CharIndex(s, sep);
    if k != -1 {
      PartsWithout(s[k + 1..], sep);
      var ps := Split(s[k + 1..], sep);
      assert Split(s, sep) == [s[..k]] + ps;
      forall i | 0 <= i < |Split(s, sep)|
        ensures Without(Split(s, sep)[i], sep)
      {
        if i > 0 {
          assert Split(s, sep)[i] == ps[i - 1];
        }
      }
    }
  }

  /** `sep` does not occur in `t`. */
  predicate Without(t: string, sep: char)
  {
    forall j :: 0 <= j < |t| ==> t[j] != sep
  }

  /** `parts.join(sep)`: the parts with one `sep` between neighbours. */
  function Join(parts: seq<string>, sep: char): string
    decreases |parts|
  {
    if |parts| == 0 then [] else if |parts| == 1 then parts[0] else parts[0] + [sep] + Join(parts[1..], sep)
  }

  /** Joining the parts again with the separator gives the text back. */
  lemma {:induction false} JoinSplit(s: string, sep: char)
    decreases |s|, 1
    ensures Join(Split(s, sep), sep) == s
  {
    var k := CharIndex(s, sep);
    if k != -1 {
      JoinSplitRec(s, sep);
    } else {
      JoinSplitWhole(s, sep);
    }
  }

  /** The recursive case of `JoinSplit`. */
  lemma JoinSplitRec(s: string, sep: char)
    requires CharIndex(s, sep) != -1
    decreases |s|, 0
    ensures Join(Split(s, sep), sep) == s
  {
    JoinSplit(s[CharIndex(s, sep) + 1..], sep);
    JoinSplitStep(s, sep);
  }

  /** The base case of `JoinSplit`: a text without the separator. */
  lemma JoinSplitWhole(s: string, sep: char)
    requires CharIndex(s, sep) == -1
    ensures Join(Split(s, sep), sep) == s
  {
    assert Split(s, sep) == [s];
  }

  /** The step of `JoinSplit`: the part before the first separator in front
      of the parts after it. */
  lemma JoinSplitStep(s: string, sep: char)
    requires CharIndex(s, sep) != -1
    requires Join(Split(s[CharIndex(s, sep) + 1..], sep), sep) == s[CharIndex(s, sep) + 1..]
    ensures Join(Split(s, sep), sep) == s
  {
    var k := CharIndex(s, sep);
    var rest := s[k + 1..];
    SplitAt(s, sep);
    JoinCons(s[..k], Split(rest, sep), sep);
    Around(s, k);
  }

  /** A text is the part before position `k`, the character there and the
      part after it. */
  lemma Around(s: string, k: nat)
    requires k < |s|
    ensures s == s[..k] + [s[k]] + s[k + 1..]
  {
  }

  /** The parts of a text with a separator: the text before the first one,
      then the parts of the text after it. */
  lemma SplitAt(s: string, sep: char)
    requires CharIndex(s, sep) != -1
    ensures Split(s, sep) == [s[..CharIndex(s, sep)]] + Split(s[CharIndex(s, sep) + 1..], sep)
  {
  }

  /** Joining a part in front of at least one more. */
  lemma JoinCons(p: string, ps: seq<string>, sep: char)
    requires ps != []
    ensures Join([p] + ps, sep) == p + [sep] + Join(ps, sep)
  {
    assert ([p] + ps)[1..] == ps;
  }

  /** Splitting parts that do not contain the separator, joined by it, gives
      the parts back. */
  lemma {:induction false} SplitJoin(parts: seq<string>, sep: char)
    requires parts != [] && forall i :: 0 <= i < |parts| ==> Without(parts[i], sep)
    decreases |parts|
    ensures Split(Join(parts, sep), sep) == parts
  {
    var p := parts[0];
    if |parts| == 1 {
      assert CharIndex(p, sep) == -1;
    } else {
      var rest := Join(parts[1..], sep);
      var t := p + [sep] + rest;
      SplitJoin(parts[1..], sep);
      CharIndexAfter(p, sep, rest);
      assert t[..|p|] == p && t[|p| + 1..] == rest;
      assert parts == [p] + parts[1..];
    }
  }

  /** The first separator of `p + [sep] + rest`, when `p` has none, follows `p`. */
  lemma {:induction false} CharIndexAfter(p: string, sep: char, rest: string)
    requires Without(p, sep)
    decreases |p|
    ensures CharIndex(p + [sep] + rest, sep) == |p|
  {
    if p != [] {
      assert (p + [sep] + rest)[1..] == p[1..] + [sep] + rest;
      CharIndexAfter(p[1..], sep, rest);
    }
  }

  /** A string without `sep` splits into itself alone. */
  lemma SplitWithout(s: string, sep: char)
    requires forall i :: 0 <= i < |s| ==> s[i] != sep
    ensures Split(s, sep) == [s]
  {
  }

  /** `s.rstrip(c)` in Python: the trailing run of `c` removed. */
  function RStrip(s: string, c: char): (r: string)
    decreases |s|
    ensures |r| <= |s| && r == s[..|r|]
    ensures r == [] || r[|r| - 1] != c
    ensures forall i :: |r| <= i < |s| ==> s[i] == c
  {
    if s != [] && s[|s| - 1] == c then RStrip(s[..|s| - 1], c) else s
  }

  /** The first index of `x` in `xs`, or -1. */
  function Position<T(==)>(xs: seq<T>, x: T): (k: int)
    decreases |xs|
    ensures -1 <= k < |xs|
    ensures k == -1 <==> x !in xs
    ensures k >= 0 ==> xs[k] == x && forall j :: 0 <= j < k ==> xs[j] != x
  {
    if xs == [] then -1
    else if xs[0] == x then 0
    else var k := Position(xs[1..], x); if k == -1 then -1 else k + 1
  }

  /** Some keyword occurs in `t`: the test of an alternation of literals. */
  predicate Mentions(t: string, keywords: seq<string>)
  {
    exists i :: 0 <= i < |keywords| && Contains(t, keywords[i])
  }
}

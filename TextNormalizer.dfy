/** The text normalizer `clean` of extension/content.js: every whitespace run
    becomes one space, and the ends are trimmed. */
module TextNormalizer {
  import opened Wrappers
  import opened Strings

  /** The length of the whitespace run at the front of `s`. */
  function LeadingSpaces(s: string): (n: nat)
    decreases |s|
    ensures n <= |s|
    ensures forall i :: 0 <= i < n ==> IsSpace(s[i])
    ensures n == |s| || !IsSpace(s[n])
  {
    if s != [] && IsSpace(s[0]) then 1 + LeadingSpaces(s[1..]) else 0
  }

  /** The length of the whitespace run at the back of `s`. */
  function TrailingSpaces(s: string): (n: nat)
    decreases |s|
    ensures n <= |s|
    ensures forall i :: |s| - n <= i < |s| ==> IsSpace(s[i])
    ensures n == |s| || !IsSpace(s[|s| - n - 1])
  {
    if s != [] && IsSpace(s[|s| - 1]) then 1 + TrailingSpaces(s[..|s| - 1]) else 0
  }

  /** The length of the run of non-whitespace characters at the front of `s`. */
  function WordLength(s: string): (n: nat)
    decreases |s|
    ensures n <= |s|
    ensures forall i :: 0 <= i < n ==> !IsSpace(s[i])
    ensures n == |s| || IsSpace(s[n])
  {
    if s != [] && !IsSpace(s[0]) then 1 + WordLength(s[1..]) else 0
  }

  /** `s.trimStart()`. */
  function SkipSpaces(s: string): string
  {
    s[LeadingSpaces(s)..]
  }

  /** `s.trimEnd()`. */
  function TrimEnd(s: string): string
  {
    s[..|s| - TrailingSpaces(s)]
  }

  /** `s.trim()`. */
  function Trim(s: string): string
  {
    TrimEnd(SkipSpaces(s))
  }

  /** The run of non-whitespace characters at the front of `s`. */
  function TakeWord(s: string): string
  {
    s[..WordLength(s)]
  }

  /** `s.replace(/\s+/g, " ")`: each maximal whitespace run becomes one space,
      everything else is copied. */
  function Squeeze(s: string): string
    decreases |s|
  {
    if s == [] then []
    else if IsSpace(s[0]) then " " + Squeeze(SkipSpaces(s))
    else var w := TakeWord(s); w + Squeeze(s[|w|..])
  }

  /** A word: a non-empty run of non-whitespace characters. */
  predicate IsWord(w: string)
  {
    w != [] && forall i :: 0 <= i < |w| ==> !IsSpace(w[i])
  }

  /** The words of `s`, in order. */
  function Words(s: string): seq<string>
    decreases |s|
  {
    var t := SkipSpaces(s);
    if t == [] then [] else var w := TakeWord(t); [w] + Words(t[|w|..])
  }

  /** Every word of a text is a word. */
  lemma {:induction false} WordsAreWords(s: string)
    decreases |s|
    ensures forall i :: 0 <= i < |Words(s)| ==> IsWord(Words(s)[i])
  {
    var t := SkipSpaces(s);
    if t != [] {
      var w := TakeWord(t);
      TakeWordIsWord(t);
      WordsAreWords(t[|w|..]);
      var ws := Words(t[|w|..]);
      assert Words(s) == [w] + ws;
      AllWordsCons(w, ws);
    }
  }

  /** The run at the front of a text that opens with a non-space is a word. */
  lemma TakeWordIsWord(t: string)
    requires t != [] && !IsSpace(t[0])
    ensures IsWord(TakeWord(t))
  {
    assert WordLength(t) > 0;
  }

  lemma AllWordsCons(w: string, ws: seq<string>)
    requires IsWord(w) && forall i :: 0 <= i < |ws| ==> IsWord(ws[i])
    ensures forall i :: 0 <= i < |[w] + ws| ==> IsWord(([w] + ws)[i])
  {
    forall i | 0 <= i < |[w] + ws|
      ensures IsWord(([w] + ws)[i])
    {
      if i > 0 {
        assert ([w] + ws)[i] == ws[i - 1];
      }
    }
  }

  /** The words joined by single spaces: the reference form of a cleaned text. */
  function Unwords(ws: seq<string>): string
    decreases |ws|
  {
    if ws == [] then [] else if |ws| == 1 then ws[0] else ws[0] + " " + Unwords(ws[1..])
  }

  /** A text in normal form: every whitespace character is a plain space with a
      non-whitespace character on each side. */
  predicate NormalForm(r: string)
  {
    forall i :: 0 <= i < |r| && IsSpace(r[i]) ==>
      r[i] == ' ' && 0 < i < |r| - 1 && !IsSpace(r[i - 1]) && !IsSpace(r[i + 1])
  }

  /** `clean(s)` (extension/content.js:3): `null` and `undefined` become "",
      then whitespace runs are squeezed and the ends trimmed. */
  function Clean(s: Option<string>): string
  {
    Trim(Squeeze(s.GetOr("")))
  }

  /** What `clean` makes of a text: it is in normal form and keeps exactly the
      words of the input, joined by single spaces. */
  lemma CleanSpec(s: Option<string>)
    ensures var r := Clean(s); var x := s.GetOr("");
      NormalForm(r) && Words(r) == Words(x) && r == Unwords(Words(x))
  {
    var x := s.GetOr("");
    CleanIsUnwords(x);
    WordsAreWords(x);
    UnwordsNormal(Words(x));
    WordsOfUnwords(Words(x));
  }

  lemma SkipSpacesIdle(s: string)
    requires s == [] || !IsSpace(s[0])
    ensures SkipSpaces(s) == s
  {
  }

  lemma WordsAfterSpaces(s: string)
    ensures Words(SkipSpaces(s)) == Words(s)
  {
    SkipSpacesIdle(SkipSpaces(s));
  }

  lemma WordsNoneAllSpaces(s: string)
    requires Words(s) == []
    ensures forall i :: 0 <= i < |s| ==> IsSpace(s[i])
  {
  }

  lemma WordsOfWordStart(s: string)
    requires s != [] && !IsSpace(s[0])
    ensures Words(s) == [TakeWord(s)] + Words(s[|TakeWord(s)|..])
  {
    SkipSpacesIdle(s);
  }

  /** The leading and trailing single spaces that squeezing leaves. */
  function Lead(s: string): string
  {
    if s != [] && IsSpace(s[0]) then " " else ""
  }

  function Trail(s: string): string
  {
    if s != [] && IsSpace(s[|s| - 1]) && Words(s) != [] then " " else ""
  }

  /** Squeezing keeps the words, separates them by one space, and leaves one
      space at each end that had whitespace. */
  lemma {:induction false} SqueezeShape(s: string)
    decreases |s|
    ensures Squeeze(s) == Lead(s) + Unwords(Words(s)) + Trail(s)
  {
    if s == [] {
    } else if IsSpace(s[0]) {
      SqueezeShapeSpace(s);
    } else {
      SqueezeShapeWord(s);
    }
  }

  lemma {:induction false} SqueezeShapeSpace(s: string)
    requires s != [] && IsSpace(s[0])
    decreases |s|, 0
    ensures Squeeze(s) == Lead(s) + Unwords(Words(s)) + Trail(s)
  {
    var t := SkipSpaces(s);
    assert |t| < |s|;
    SqueezeShape(t);
    WordsAfterSpaces(s);
    var u := Unwords(Words(s));
    assert Lead(t) == "";
    assert Trail(t) == Trail(s) by {
      if t != [] {
        assert t[|t| - 1] == s[|s| - 1];
      }
    }
    var tr := Trail(s);
    assert Squeeze(t) == u + tr by {
      assert "" + u == u;
    }
    assert Squeeze(s) == " " + Squeeze(t);
    assert Lead(s) == " ";
    Assoc(" ", u, tr);
  }

  lemma {:induction false} SqueezeShapeWord(s: string)
    requires s != [] && !IsSpace(s[0])
    decreases |s|, 1
    ensures Squeeze(s) == Lead(s) + Unwords(Words(s)) + Trail(s)
  {
    var w := TakeWord(s);
    var rest := s[|w|..];
    if rest == [] {
      SqueezeWordAlone(s);
    } else if Words(rest) == [] {
      SqueezeWordThenSpaces(s);
    } else {
      SqueezeWordThenWords(s);
    }
  }

  lemma SqueezeWordAlone(s: string)
    requires s != [] && !IsSpace(s[0]) && s[|TakeWord(s)|..] == []
    ensures Squeeze(s) == Lead(s) + Unwords(Words(s)) + Trail(s)
  {
    var w := TakeWord(s);
    assert s == w;
    WordsOfWordStart(s);
    assert Words(s) == [w];
    assert Squeeze(s) == w + Squeeze([]);
    assert Trail(s) == "" by {
      assert s[|s| - 1] == w[|w| - 1];
    }
    assert "" + w + "" == w;
  }

  lemma {:induction false} SqueezeWordThenSpaces(s: string)
    requires s != [] && !IsSpace(s[0])
    requires var rest := s[|TakeWord(s)|..]; rest != [] && Words(rest) == []
    decreases |s|, 0
    ensures Squeeze(s) == Lead(s) + Unwords(Words(s)) + Trail(s)
  {
    var w := TakeWord(s);
    var rest := s[|w|..];
    assert s == w + rest;
    WordsOfWordStart(s);
    SqueezeShape(rest);
    WordsNoneAllSpaces(rest);
    assert rest[|rest| - 1] == s[|s| - 1];
    assert Trail(s) == " ";
    assert Squeeze(rest) == " ";
    assert Words(s) == [w];
    assert Squeeze(s) == w + " ";
    assert "" + w + " " == w + " ";
  }

  lemma {:induction false} SqueezeWordThenWords(s: string)
    requires s != [] && !IsSpace(s[0])
    requires var rest := s[|TakeWord(s)|..]; Words(rest) != []
    decreases |s|, 0
    ensures Squeeze(s) == Lead(s) + Unwords(Words(s)) + Trail(s)
  {
    var w := TakeWord(s);
    var rest := s[|w|..];
    SqueezeShape(rest);
    SqueezeOfWordStart(s);
    WordRestEdges(s);
    UnwordsOfWordStart(s);
    Regroup(w, " ", Unwords(Words(rest)), Trail(s));
  }

  /** Squeezing a text that starts with a word copies that word. */
  lemma SqueezeOfWordStart(s: string)
    requires s != [] && !IsSpace(s[0])
    ensures Squeeze(s) == TakeWord(s) + Squeeze(s[|TakeWord(s)|..])
  {
    assert |TakeWord(s)| > 0;
  }

  /** After the first word of `s` come whitespace and more words: the rest
      starts with whitespace and ends as `s` does. */
  lemma WordRestEdges(s: string)
    requires s != [] && !IsSpace(s[0])
    requires var rest := s[|TakeWord(s)|..]; Words(rest) != []
    ensures var rest := s[|TakeWord(s)|..];
      Lead(rest) == " " && Trail(rest) == Trail(s) && Lead(s) == ""
  {
    var w := TakeWord(s);
    var rest := s[|w|..];
    assert rest != [];
    assert rest[0] == s[|w|];
    assert rest[|rest| - 1] == s[|s| - 1];
    WordsOfWordStart(s);
  }

  /** The words of a text that starts with a word, joined again: that word,
      a space, and the rest's words joined. */
  lemma UnwordsOfWordStart(s: string)
    requires s != [] && !IsSpace(s[0])
    requires var rest := s[|TakeWord(s)|..]; Words(rest) != []
    ensures var w := TakeWord(s);
      Unwords(Words(s)) == w + " " + Unwords(Words(s[|w|..]))
  {
    var w := TakeWord(s);
    var ws := Words(s[|w|..]);
    WordsOfWordStart(s);
    assert ([w] + ws)[1..] == ws;
  }

  lemma Assoc(a: string, b: string, c: string)
    ensures a + b + c == a + (b + c)
  {
  }

  lemma Regroup(a: string, b: string, c: string, d: string)
    ensures a + (b + c + d) == "" + (a + b + c) + d
  {
  }

  lemma {:induction false} UnwordsEdges(ws: seq<string>)
    requires ws != [] && forall i :: 0 <= i < |ws| ==> IsWord(ws[i])
    decreases |ws|
    ensures var u := Unwords(ws); u != [] && !IsSpace(u[0]) && !IsSpace(u[|u| - 1])
  {
    if |ws| > 1 {
      UnwordsEdges(ws[1..]);
      var u := Unwords(ws);
      var r := Unwords(ws[1..]);
      assert u == ws[0] + " " + r;
      assert u[0] == ws[0][0];
      assert u[|u| - 1] == r[|r| - 1];
    }
  }

  /** `clean` is the words of its input joined by single spaces. */
  lemma CleanIsUnwords(s: string)
    ensures Trim(Squeeze(s)) == Unwords(Words(s))
  {
    SqueezeShape(s);
    WordsAreWords(s);
    var u := Unwords(Words(s));
    if Words(s) == [] {
      assert Squeeze(s) == Lead(s);
    } else {
      UnwordsEdges(Words(s));
      var x := u + Trail(s);
      Assoc(Lead(s), u, Trail(s));
      assert Squeeze(s) == Lead(s) + x;
      SkipLead(Lead(s), x);
      TrimTrail(u, Trail(s));
    }
  }

  lemma SkipLead(l: string, x: string)
    requires l == "" || l == " "
    requires x != [] && !IsSpace(x[0])
    ensures SkipSpaces(l + x) == x
  {
    if l == " " {
      assert (l + x)[1..] == x;
    } else {
      assert l + x == x;
    }
  }

  lemma TrimTrail(u: string, t: string)
    requires t == "" || t == " "
    requires u != [] && !IsSpace(u[|u| - 1])
    ensures TrimEnd(u + t) == u
  {
    var x := u + t;
    if t == " " {
      assert x[..|x| - 1] == u;
      assert x[|x| - 2] == u[|u| - 1];
      assert TrailingSpaces(x) == 1 + TrailingSpaces(u);
    } else {
      assert x == u;
    }
  }

  /** Words joined by single spaces are in normal form. */
  lemma {:induction false} UnwordsNormal(ws: seq<string>)
    requires forall i :: 0 <= i < |ws| ==> IsWord(ws[i])
    decreases |ws|
    ensures NormalForm(Unwords(ws))
  {
    if |ws| > 1 {
      var w, rest := ws[0], Unwords(ws[1..]);
      UnwordsNormal(ws[1..]);
      UnwordsEdges(ws[1..]);
      var u := w + " " + rest;
      assert u == Unwords(ws);
      forall i | 0 <= i < |u| && IsSpace(u[i])
        ensures u[i] == ' ' && 0 < i < |u| - 1 && !IsSpace(u[i - 1]) && !IsSpace(u[i + 1])
      {
        if i < |w| {
          assert false;
        } else if i > |w| {
          var j := i - |w| - 1;
          assert u[i] == rest[j];
          if j > 0 {
            assert u[i - 1] == rest[j - 1];
          }
          assert j < |rest| - 1;
          assert u[i + 1] == rest[j + 1];
        } else {
          assert u[i - 1] == w[|w| - 1];
          assert u[i + 1] == rest[0];
        }
      }
    } else if |ws| == 1 {
      assert Unwords(ws) == ws[0];
    }
  }

  lemma {:induction false} TakeWordOf(w: string, x: string)
    requires forall i :: 0 <= i < |w| ==> !IsSpace(w[i])
    requires x == [] || IsSpace(x[0])
    decreases |w|
    ensures TakeWord(w + x) == w
  {
    if w == [] {
      assert w + x == x;
    } else {
      assert (w + x)[1..] == w[1..] + x;
      TakeWordOf(w[1..], x);
      assert w == [w[0]] + w[1..];
    }
  }

  /** Splitting words joined by single spaces gives the words back. */
  lemma {:induction false} WordsOfUnwords(ws: seq<string>)
    requires forall i :: 0 <= i < |ws| ==> IsWord(ws[i])
    decreases |ws|
    ensures Words(Unwords(ws)) == ws
  {
    if ws == [] {
    } else if |ws| == 1 {
      WordsOfSingleton(ws);
    } else {
      WordsOfUnwords(ws[1..]);
      UnwordsEdges(ws[1..]);
      WordsOfUnwordsCons(ws);
    }
  }

  /** The base case of `WordsOfUnwords`: one word. */
  lemma WordsOfSingleton(ws: seq<string>)
    requires |ws| == 1 && IsWord(ws[0])
    ensures Words(Unwords(ws)) == ws
  {
    WordsOfWord(ws[0]);
  }

  /** The step of `WordsOfUnwords`: a word in front of words that split back. */
  lemma WordsOfUnwordsCons(ws: seq<string>)
    requires |ws| >= 2 && IsWord(ws[0])
    requires var rest := Unwords(ws[1..]); rest != [] && !IsSpace(rest[0])
    requires Words(Unwords(ws[1..])) == ws[1..]
    ensures Words(Unwords(ws)) == ws
  {
    UnwordsCons(ws);
    WordsOfWordThenRest(ws[0], Unwords(ws[1..]));
    assert ws == [ws[0]] + ws[1..];
  }

  /** `Unwords` of two or more words: the first, a space, the rest joined. */
  lemma UnwordsCons(ws: seq<string>)
    requires |ws| >= 2
    ensures Unwords(ws) == ws[0] + (" " + Unwords(ws[1..]))
  {
  }

  /** A word on its own is one word. */
  lemma WordsOfWord(w: string)
    requires IsWord(w)
    ensures Words(w) == [w]
  {
    TakeWordOf(w, []);
    assert w + [] == w;
    WordsOfWordStart(w);
    assert w[|w|..] == [];
  }

  /** A word, a space and a text that starts with a word split into that word
      and the words of the text. */
  lemma WordsOfWordThenRest(w: string, rest: string)
    requires IsWord(w)
    requires rest != [] && !IsSpace(rest[0])
    ensures Words(w + (" " + rest)) == [w] + Words(rest)
  {
    var u := w + (" " + rest);
    TakeWordOf(w, " " + rest);
    WordsOfWordStart(u);
    assert u[|w|..] == " " + rest;
    assert SkipSpaces(" " + rest) == SkipSpaces(rest) by {
      assert (" " + rest)[1..] == rest;
    }
    SkipSpacesIdle(rest);
    WordsAfterSpaces(" " + rest);
  }

  /** A single word is already clean. */
  lemma CleanOfWord(w: string)
    requires IsWord(w)
    ensures Clean(Some(w)) == w
  {
    CleanSpec(Some(w));
    assert Unwords([w]) == w;
    WordsOfUnwords([w]);
  }

  /** `clean` of `null` or `undefined` is the empty string. */
  lemma CleanNull()
    ensures Clean(None) == ""
  {
    CleanSpec(None);
    assert Words("") == [];
  }

  /** Cleaning a cleaned text changes nothing. */
  lemma CleanIdempotent(s: Option<string>)
    ensures Clean(Some(Clean(s))) == Clean(s)
  {
    CleanSpec(s);
    CleanSpec(Some(Clean(s)));
  }

  /** A cleaned text has no whitespace at either end. */
  lemma CleanTrimmed(s: Option<string>)
    ensures var r := Clean(s); r == [] || (!IsSpace(r[0]) && !IsSpace(r[|r| - 1]))
  {
    CleanSpec(s);
  }

  /** A cleaned text has no line break, so it splits on "\n" into itself alone. */
  lemma CleanSingleLine(s: Option<string>)
    ensures Split(Clean(s), '\n') == [Clean(s)]
  {
    var r := Clean(s);
    CleanSpec(s);
    forall i | 0 <= i < |r|
      ensures r[i] != '\n'
    {
      if r[i] == '\n' {
        assert IsSpace(r[i]);
      }
    }
    SplitWithout(r, '\n');
  }
}

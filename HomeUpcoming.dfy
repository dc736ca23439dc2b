/** `scrapeHomeUpcoming` of extension/content.js: the nodes under the
    "Upcoming events" heading of the home page that show a month and a time. */
module HomeUpcoming {
  import opened Wrappers
  import opened Strings
  import opened TextNormalizer
  import opened Patterns
  import opened DateResolver
  import opened Classifier
  import opened PageModel

  /** The characters `/^[-–—•:]+/` removes from the front of a title. */
  predicate IsMark(c: char)
  {
    c == '-' || c == '–' || c == '—' || c == '•' || c == ':'
  }

  /** The length of the run of marks at the front of `s`. */
  function MarkRun(s: string): (n: nat)
    decreases |s|
    ensures n <= |s|
    ensures forall i :: 0 <= i < n ==> IsMark(s[i])
    ensures n == |s| || !IsMark(s[n])
  {
    if s != [] && IsMark(s[0]) then 1 + MarkRun(s[1..]) else 0
  }

  /** `s.replace(/^[-–—•:]+/, "")`. */
  function StripMarks(s: string): string
  {
    s[MarkRun(s)..]
  }

  /** The node filter: the raw text shows a time and a month. */
  predicate IsCandidate(raw: string)
  {
    Test(BoundedClockTime, raw) && Test(MonthToken, raw)
  }

  /** `[...].filter(n => timeRe.test(n.innerText) && monRe.test(n.innerText))`. */
  function CandidateNodes(nodes: seq<string>): (cs: seq<string>)
    decreases |nodes|
    ensures forall c :: c in cs ==> c in nodes && IsCandidate(c)
    ensures forall n :: n in nodes && IsCandidate(n) ==> n in cs
  {
    if nodes == [] then []
    else
      var pre := CandidateNodes(nodes[..|nodes| - 1]);
      var n := nodes[|nodes| - 1];
      assert forall x :: x in nodes ==> x in nodes[..|nodes| - 1] || x == n;
      if IsCandidate(n) then pre + [n] else pre
  }

  /** The filter keeps the nodes' order: the candidates of two runs of nodes
      are those of the first run followed by those of the second. */
  lemma {:induction false} CandidateNodesConcat(a: seq<string>, b: seq<string>)
    decreases |b|
    ensures CandidateNodes(a + b) == CandidateNodes(a) + CandidateNodes(b)
  {
    if b == [] {
      assert a + b == a;
    } else {
      var b', n := b[..|b| - 1], b[|b| - 1];
      assert a + b == (a + b') + [n] && b == b' + [n];
      CandidateNodesConcat(a, b');
      CandidateNodesSnoc(a + b', n);
      CandidateNodesSnoc(b', n);
      SeqAssoc(CandidateNodes(a), CandidateNodes(b'), if IsCandidate(n) then [n] else []);
    }
  }

  /** Concatenation is associative. */
  lemma SeqAssoc(x: seq<string>, y: seq<string>, z: seq<string>)
    ensures (x + y) + z == x + (y + z)
  {
  }

  /** One more node: kept at the end exactly when it is a candidate. */
  lemma CandidateNodesSnoc(a: seq<string>, n: string)
    ensures CandidateNodes(a + [n]) == CandidateNodes(a) + (if IsCandidate(n) then [n] else [])
  {
    assert (a + [n])[..|a|] == a;
  }

  /** The title: the cleaned first line of the text with the first month,
      day and time removed, then the leading marks, then cleaned again. */
  function HomeTitle(text: string): string
  {
    var line := Clean(Some(Split(text, '\n')[0]));
    var t := ReplaceFirst(BoundedClockTime, ReplaceFirst(DayToken, ReplaceFirst(MonthToken, line)));
    Clean(Some(StripMarks(t)))
  }

  /** The course: the cleaned second line, or `None` when it is empty or missing. */
  function HomeCourse(text: string): Option<string>
  {
    var lines := Split(text, '\n');
    var c := Clean(Some(if |lines| > 1 then lines[1] else ""));
    if c == "" then None else Some(c)
  }

  /** A cleaned text is one line: the title is read from all of it, and the
      course is always `None`. */
  lemma OneLine(raw: string)
    ensures var text := Clean(Some(raw));
      Split(text, '\n')[0] == text && HomeCourse(text) == None
  {
    CleanSingleLine(Some(raw));
    CleanNull();
    assert Clean(Some("")) == Clean(None);
  }

  /** The uid of a home item: "home-", the year, the month number, the day
      number and the first 64 characters of the lower-cased title. */
  function HomeUid(year: nat, month: nat, day: nat, title: string): string
  {
    DatedUid("home-", year, month, day, title)
  }

  /** What every home item satisfies: a title, a due time, the kind
      `classify` gives its title, a title the "Available" filter lets
      through, and a uid and due value made from one month and day. */
  ghost predicate HomeItemOk(env: Env, it: Item)
  {
    it.title != "" && Truthy(it.dueAt) && it.kind == Classify(it.title) && !Unavailable(env.prefs, it.title)
    && exists m: nat, d: nat, t: Option<string> ::
         1 <= m <= 12 && 1 <= d <= 31 && it.sourceUid == HomeUid(env.year, m, d, it.title)
         && it.dueAt == ToISO(env.host, env.year, m, d, t, env.prefs.defaultTime)
  }

  /** The cleaned text shows a month (`monMatch`) and a day (`dayMatch`). */
  predicate IsDated(text: string)
  {
    Find(MonthToken, text, 0).Some? && Find(DayToken, text, 0).Some?
  }

  /** `monthToNum(monMatch[0])`. */
  function HomeMonth(text: string): (n: nat)
    requires Find(MonthToken, text, 0).Some?
    ensures 1 <= n <= 12 && MonthNames[n - 1] == Lower(Find(MonthToken, text, 0).value.text)
  {
    MonthMatch(text, 0);
    MonthToNum(Find(MonthToken, text, 0).value.text).value
  }

  /** `parseInt(dayMatch[0], 10)`. */
  function HomeDay(text: string): (n: nat)
    requires Find(DayToken, text, 0).Some?
    ensures 1 <= n <= 31
  {
    DayMatch(text, 0);
    ParseDecimal(Find(DayToken, text, 0).value.text)
  }

  /** `timeMatch?.[0]`. */
  function HomeTime(text: string): Option<string>
  {
    match Find(BoundedClockTime, text, 0) case Some(t) => Some(t.text) case None => None
  }

  /** The due value `toISO(y, m, d, timeMatch?.[0], prefs?.defaultTime)`. */
  function HomeDue(env: Env, text: string): Option<string>
    requires IsDated(text)
  {
    ToISO(env.host, env.year, HomeMonth(text), HomeDay(text), HomeTime(text), env.prefs.defaultTime)
  }

  /** The body of the loop for one candidate, up to the `seen` test: nothing
      without a month or a day in the cleaned text. */
  function HomeVerdict(env: Env, raw: string): Option<Item>
  {
    var text := Clean(Some(raw));
    if IsDated(text) then DatedHomeItem(env, text) else None
  }

  /** A candidate without a month or a day gives nothing; a dated one gives
      an item exactly when its title is non-empty, its due value truthy and
      the "Available" filter lets the title through, and the item has that
      title, no course, that due value, its title's kind and the uid of the
      text's month and day. */
  lemma HomeVerdictOk(env: Env, raw: string)
    ensures var text, r := Clean(Some(raw)), HomeVerdict(env, raw);
      && (!IsDated(text) ==> r.None?)
      && (IsDated(text) ==> var title := HomeTitle(text);
            && (r.Some? <==> title != "" && Truthy(HomeDue(env, text)) && !Unavailable(env.prefs, title))
            && (r.Some? ==> r.value == Item(title, None, HomeDue(env, text), Classify(title),
                                            HomeUid(env.year, HomeMonth(text), HomeDay(text), title))))
      && (r.Some? ==> HomeItemOk(env, r.value) && r.value.course.None?)
  {
    OneLine(raw);
    var text := Clean(Some(raw));
    if IsDated(text) {
      DatedHomeItemOk(env, text);
    }
  }

  /** A dated text gives an item exactly when its title is non-empty, its
      due value truthy and the "Available" filter lets the title through;
      the item carries the second-line course, the text's due value and the
      uid of its month and day. */
  lemma DatedHomeItemOk(env: Env, text: string)
    requires IsDated(text)
    ensures var r, title := DatedHomeItem(env, text), HomeTitle(text);
      && (r.Some? <==> title != "" && Truthy(HomeDue(env, text)) && !Unavailable(env.prefs, title))
      && (r.Some? ==> r.value == Item(title, HomeCourse(text), HomeDue(env, text), Classify(title),
                                      HomeUid(env.year, HomeMonth(text), HomeDay(text), title)))
      && (r.Some? ==> HomeItemOk(env, r.value))
  {
  }

  /** The rest of the loop body, once the text shows a month and a day. */
  function DatedHomeItem(env: Env, text: string): Option<Item>
    requires IsDated(text)
  {
    var iso := HomeDue(env, text);
    var title := HomeTitle(text);
    if Unavailable(env.prefs, title) || title == "" || !Truthy(iso) then None
    else Some(Item(title, HomeCourse(text), iso, Classify(title), HomeUid(env.year, HomeMonth(text), HomeDay(text), title)))
  }

  /** The loop body for one candidate, as a function of the candidate's text. */
  function HomeStep(env: Env): (step: string -> Option<Item>)
    ensures forall raw :: step(raw) == HomeVerdict(env, raw)
  {
    raw => HomeVerdict(env, raw)
  }

  /** The result of each candidate, in order. */
  function HomeResults(env: Env, nodes: seq<string>): (rs: seq<Option<Item>>)
    ensures |rs| == |nodes| && forall i :: 0 <= i < |nodes| ==> rs[i] == HomeVerdict(env, nodes[i])
  {
    Results(HomeStep(env), nodes)
  }

  /** What `scrapeHomeUpcoming` returns: [] without the heading, otherwise
      the candidates' items with later duplicates of a uid dropped. */
  function HomeListing(env: Env, page: Page): seq<Item>
  {
    match page.upcoming
    case None => []
    case Some(nodes) => DedupFirst(Kept(HomeResults(env, CandidateNodes(nodes))))
  }

  /** What the home widget gives: [] without the heading; otherwise items
      with distinct uids, each satisfying `HomeItemOk`, course-less and the
      result of some candidate, and the uid of every candidate's item among
      them. */
  lemma HomeListingProperties(env: Env, page: Page)
    ensures page.upcoming.None? ==> HomeListing(env, page) == []
    ensures var out := HomeListing(env, page);
      UidsDistinct(out) && forall i :: 0 <= i < |out| ==> HomeItemOk(env, out[i]) && out[i].course.None?
    ensures page.upcoming.Some? ==> var out, cs := HomeListing(env, page), CandidateNodes(page.upcoming.value);
      && (forall j :: 0 <= j < |out| ==> Some(out[j]) in HomeResults(env, cs))
      && (forall i :: 0 <= i < |cs| && HomeVerdict(env, cs[i]).Some? ==> HomeVerdict(env, cs[i]).value.sourceUid in UidsOf(out))
  {
    if page.upcoming.Some? {
      var cs := CandidateNodes(page.upcoming.value);
      HomeDeduped(env, cs);
      assert HomeListing(env, page) == DedupFirst(Kept(HomeResults(env, cs)));
    }
  }

  /** The candidates' items after the `seen` test: distinct uids, each item
      satisfying `HomeItemOk`, course-less and the result of some candidate,
      and the uid of every candidate's item among them. */
  lemma HomeDeduped(env: Env, cs: seq<string>)
    ensures UidsDistinct(DedupFirst(Kept(HomeResults(env, cs))))
    ensures forall j :: 0 <= j < |DedupFirst(Kept(HomeResults(env, cs)))| ==>
      && HomeItemOk(env, DedupFirst(Kept(HomeResults(env, cs)))[j])
      && DedupFirst(Kept(HomeResults(env, cs)))[j].course.None?
      && Some(DedupFirst(Kept(HomeResults(env, cs)))[j]) in HomeResults(env, cs)
    ensures forall i :: 0 <= i < |cs| && HomeVerdict(env, cs[i]).Some? ==>
      HomeVerdict(env, cs[i]).value.sourceUid in UidsOf(DedupFirst(Kept(HomeResults(env, cs))))
  {
    var rs := HomeResults(env, cs);
    DedupFirstProperties(Kept(rs));
    var out := DedupFirst(Kept(rs));
    forall j | 0 <= j < |out|
      ensures HomeItemOk(env, out[j]) && out[j].course.None? && Some(out[j]) in rs
    {
      DedupKeptFrom(rs, j);
      var k :| 0 <= k < |rs| && rs[k] == Some(out[j]);
      HomeVerdictOk(env, cs[k]);
    }
    forall i | 0 <= i < |cs| && HomeVerdict(env, cs[i]).Some?
      ensures HomeVerdict(env, cs[i]).value.sourceUid in UidsOf(out)
    {
      KeptUidListed(rs, i);
    }
  }

  /** Two candidates' items share a uid only when the texts give the same
      month and day and the titles the same first 64 lower-cased characters,
      so the `seen` test never drops an item dated differently. */
  lemma SharedHomeUidSameDate(env: Env, raw1: string, raw2: string)
    requires HomeVerdict(env, raw1).Some? && HomeVerdict(env, raw2).Some?
    requires HomeVerdict(env, raw1).value.sourceUid == HomeVerdict(env, raw2).value.sourceUid
    ensures var t1, t2 := Clean(Some(raw1)), Clean(Some(raw2));
      IsDated(t1) && IsDated(t2) && HomeMonth(t1) == HomeMonth(t2) && HomeDay(t1) == HomeDay(t2)
      && Take(Lower(HomeTitle(t1)), 64) == Take(Lower(HomeTitle(t2)), 64)
  {
    var t1, t2 := Clean(Some(raw1)), Clean(Some(raw2));
    HomeVerdictOk(env, raw1);
    HomeVerdictOk(env, raw2);
    DatedUidInjective("home-", env.year, HomeMonth(t1), HomeDay(t1), HomeTitle(t1),
                      env.year, HomeMonth(t2), HomeDay(t2), HomeTitle(t2));
  }

  /** A candidate that gives nothing (no month or day, a title the
      "Available" filter drops, an empty title or no due time) leaves the
      result as if it were absent: its uid never enters the `seen` set. */
  lemma SkippedNodeIsInert(env: Env, a: seq<string>, raw: string, b: seq<string>)
    requires HomeVerdict(env, raw).None?
    ensures DedupFirst(Kept(HomeResults(env, a + [raw] + b))) == DedupFirst(Kept(HomeResults(env, a + b)))
  {
    var ra, rb := HomeResults(env, a), HomeResults(env, b);
    HomeResultsConcat(env, a + [raw], b);
    HomeResultsConcat(env, a, [raw]);
    HomeResultsConcat(env, a, b);
    assert HomeResults(env, [raw]) == [None];
    var xs := HomeResults(env, a + [raw] + b);
    assert xs == ra + [None] + rb;
    KeptSkip(ra, rb);
    assert Kept(xs) == Kept(HomeResults(env, a + b));
  }

  /** The results of two runs of candidates, one after the other. */
  lemma HomeResultsConcat(env: Env, a: seq<string>, b: seq<string>)
    ensures HomeResults(env, a + b) == HomeResults(env, a) + HomeResults(env, b)
  {
    var l, r := HomeResults(env, a + b), HomeResults(env, a) + HomeResults(env, b);
    assert |l| == |r|;
    forall i | 0 <= i < |l|
      ensures l[i] == r[i]
    {
      if i < |a| {
        assert (a + b)[i] == a[i];
      } else {
        assert (a + b)[i] == b[i - |a|];
      }
    }
  }

  /** `scrapeHomeUpcoming(prefs)`: the candidates filtered, then one pass
      keeping a `seen` set of the uids pushed so far. */
  method ScrapeHomeUpcoming(env: Env, page: Page) returns (out: seq<Item>)
    ensures out == HomeListing(env, page)
  {
    if page.upcoming.None? {
      return [];
    }
    var candidates := CandidateNodes(page.upcoming.value);
    out := PushFirst(HomeStep(env), candidates);
  }
}

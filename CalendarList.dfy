/** `scrapeCalendarList` of extension/content.js: the rows of the
    Calendar › List page that carry a "Mon D, YYYY H:MM AM" stamp. */
module CalendarList {
  import opened Wrappers
  import opened Strings
  import opened TextNormalizer
  import opened Patterns
  import opened DateResolver
  import opened Classifier
  import opened PageModel

  /** What one row gives: nothing, an item, or an exception (the day lookup
      inside the stamp found no day and its result was indexed). */
  datatype Verdict = Skip | Keep(item: Item) | Crash

  /** The page is the calendar list: its path contains "/d2l/le/calendar/",
      in any ASCII case. */
  predicate OnCalendarPage(page: Page)
  {
    Contains(Lower(page.pathname), "/d2l/le/calendar/")
  }

  /** The uid of a calendar item: "cal-", the year, the month number, the
      day number and the first 64 characters of the lower-cased title,
      joined by dashes. */
  function CalendarUid(year: nat, month: nat, day: nat, title: string): string
  {
    DatedUid("cal-", year, month, day, title)
  }

  /** The course guess: the cleaned second line of the text when there is
      one and it carries no stamp. */
  function CourseGuess(text: string): Option<string>
  {
    var lines := Split(text, '\n');
    var line2 := Clean(if |lines| > 1 then Some(lines[1]) else None);
    if line2 != "" && !Test(CalendarStamp, line2) then Some(line2) else None
  }

  /** Where the stamp's text first occurs in the row text (`text.indexOf(m[0])`):
      it does occur, at or before the match itself. */
  lemma StampIndex(text: string)
    requires Find(CalendarStamp, text, 0).Some?
    ensures var m := Find(CalendarStamp, text, 0).value;
      0 <= IndexOf(text, m.text) <= m.start && OccursAt(text, m.text, IndexOf(text, m.text))
  {
    var m := Find(CalendarStamp, text, 0).value;
    FoundOccurs(CalendarStamp, text, 0);
    FirstOccurrence(text, m.text, m.start);
  }

  /** A cleaned text is one line, so it has no second line to take a course from. */
  lemma NoCourseInCleanText(s: string)
    ensures CourseGuess(Clean(Some(s))) == None
  {
    CleanSingleLine(Some(s));
    CleanNull();
  }

  /** What a stamp's text satisfies: it opens with its month abbreviation,
      which the month pattern finds at its very start. */
  predicate OpensWithMonth(stamp: string)
  {
    |stamp| > 3 && Find(MonthToken, stamp, 0) == Some(Match(0, stamp[..3]))
  }

  /** `text.match(dateTimeRe)[0]`, the stamp a cleaned row text carries. */
  function RowStamp(text: string): (r: Option<string>)
    ensures r.Some? <==> Find(CalendarStamp, text, 0).Some?
    ensures r.Some? ==> r.value == Find(CalendarStamp, text, 0).value.text && OpensWithMonth(r.value)
  {
    match Find(CalendarStamp, text, 0)
    case None => None
    case Some(m) =>
      StampStartsWithMonth(text, 0);
      Some(m.text)
  }

  /** `monthToNum(mon)` for the month the stamp opens with. */
  function StampMonth(stamp: string): (n: nat)
    requires OpensWithMonth(stamp)
    ensures 1 <= n <= 12 && MonthNames[n - 1] == Lower(stamp[..3])
  {
    MonthMatch(stamp, 0);
    MonthToNum(stamp[..3]).value
  }

  /** `parseInt(m[0].match(dayRe)[0], 10)`, or `None` where the day match is
      null and indexing it throws. */
  function StampDay(stamp: string): (d: Option<nat>)
    ensures d.Some? <==> Find(DayToken, stamp, 0).Some?
    ensures d.Some? ==> 1 <= d.value <= 31
  {
    match Find(DayToken, stamp, 0)
    case None => None
    case Some(dm) =>
      DayMatch(stamp, 0);
      Some(ParseDecimal(dm.text))
  }

  /** `m[0].match(/\d{1,2}:\d{2}\s?(AM|PM)/i)?.[0]`. */
  function StampTime(stamp: string): Option<string>
  {
    match Find(ClockTime, stamp, 0) case Some(t) => Some(t.text) case None => None
  }

  /** The due value `toISO(yearNow, month, day, time, prefs?.defaultTime)` of
      a stamp whose day is `day`. */
  function StampDue(env: Env, stamp: string, day: nat): Option<string>
    requires OpensWithMonth(stamp)
  {
    ToISO(env.host, env.year, StampMonth(stamp), day, StampTime(stamp), env.prefs.defaultTime)
  }

  /** The title of a stamped row: the cleaned text before the stamp's first
      occurrence, else the cleaned text of the row's link. */
  function StampTitle(text: string, link: Option<string>): string
    requires Find(CalendarStamp, text, 0).Some?
  {
    StampIndex(text);
    var before := Clean(Some(text[..IndexOf(text, Find(CalendarStamp, text, 0).value.text)]));
    if before != "" then before else Clean(link)
  }

  /** What every calendar item satisfies: a title, a due time, no course,
      the kind `classify` gives its title, a title the "Available" filter
      lets through, and a uid and due value made from one month and day. */
  ghost predicate CalendarItemOk(env: Env, it: Item)
  {
    it.title != "" && Truthy(it.dueAt) && it.course.None? && it.kind == Classify(it.title)
    && !Unavailable(env.prefs, it.title)
    && exists m: nat, d: nat, t: Option<string> ::
         1 <= m <= 12 && 1 <= d <= 31 && it.sourceUid == CalendarUid(env.year, m, d, it.title)
         && it.dueAt == ToISO(env.host, env.year, m, d, t, env.prefs.defaultTime)
  }

  /** The body of the loop for one row, up to the `seen` test. A row with a
      stamp and a title throws when the stamp has no day, and otherwise is
      kept exactly when its due value is truthy and the "Available" filter
      lets its title through; the item's uid and due value come from the
      stamp's month and day. */
  function CalendarVerdict(env: Env, row: ListRow): (v: Verdict)
    ensures var text := Clean(Some(row.text)); var st := RowStamp(text);
      st.None? ==> v == Skip
    ensures var text := Clean(Some(row.text)); var st := RowStamp(text);
      st.Some? ==> var stamp, title := st.value, StampTitle(text, row.link);
        && (v.Crash? <==> title != "" && StampDay(stamp).None?)
        && (v.Keep? <==>
              title != "" && StampDay(stamp).Some?
              && Truthy(StampDue(env, stamp, StampDay(stamp).value)) && !Unavailable(env.prefs, title))
        && (v.Keep? ==> v.item == Item(title, None, StampDue(env, stamp, StampDay(stamp).value), Classify(title),
                                       CalendarUid(env.year, StampMonth(stamp), StampDay(stamp).value, title)))
    ensures v.Keep? ==> CalendarItemOk(env, v.item)
  {
    var text := Clean(Some(row.text));
    match RowStamp(text)
    case None => Skip
    case Some(stamp) =>
      var title := StampTitle(text, row.link);
      if title == "" then Skip
      else
        NoCourseInCleanText(row.text);
        StampVerdict(env, text, stamp, title)
  }

  /** The rest of the loop body, once the row has a stamp and a title: the
      month, day and time are read from the stamp. */
  function StampVerdict(env: Env, text: string, stamp: string, title: string): (v: Verdict)
    requires title != "" && OpensWithMonth(stamp)
    ensures v.Crash? <==> StampDay(stamp).None?
    ensures v.Keep? <==>
      StampDay(stamp).Some? && Truthy(StampDue(env, stamp, StampDay(stamp).value)) && !Unavailable(env.prefs, title)
    ensures v.Keep? ==> v.item == Item(title, CourseGuess(text), StampDue(env, stamp, StampDay(stamp).value),
                                       Classify(title), CalendarUid(env.year, StampMonth(stamp), StampDay(stamp).value, title))
  {
    match StampDay(stamp)
    case None => Crash
    case Some(day) =>
      var iso := StampDue(env, stamp, day);
      if !Truthy(iso) || Unavailable(env.prefs, title) then Skip
      else Keep(Item(title, CourseGuess(text), iso, Classify(title), CalendarUid(env.year, StampMonth(stamp), day, title)))
  }

  /** Two kept rows share a uid only when their stamps give the same month
      and day and their titles the same first 64 lower-cased characters, so
      the `seen` test never drops an item dated differently. */
  lemma SharedUidSameDate(env: Env, r1: ListRow, r2: ListRow)
    requires CalendarVerdict(env, r1).Keep? && CalendarVerdict(env, r2).Keep?
    requires CalendarVerdict(env, r1).item.sourceUid == CalendarVerdict(env, r2).item.sourceUid
    ensures var s1, s2 := RowStamp(Clean(Some(r1.text))).value, RowStamp(Clean(Some(r2.text))).value;
      && StampMonth(s1) == StampMonth(s2) && StampDay(s1) == StampDay(s2)
      && Take(Lower(CalendarVerdict(env, r1).item.title), 64) == Take(Lower(CalendarVerdict(env, r2).item.title), 64)
  {
    var s1, s2 := RowStamp(Clean(Some(r1.text))).value, RowStamp(Clean(Some(r2.text))).value;
    var t1, t2 := CalendarVerdict(env, r1).item.title, CalendarVerdict(env, r2).item.title;
    DatedUidInjective("cal-", env.year, StampMonth(s1), StampDay(s1).value, t1, env.year, StampMonth(s2), StampDay(s2).value, t2);
  }

  /** The verdict of each row, in row order. */
  function RowVerdicts(env: Env, rows: seq<ListRow>): (vs: seq<Verdict>)
    ensures |vs| == |rows| && forall i :: 0 <= i < |rows| ==> vs[i] == CalendarVerdict(env, rows[i])
  {
    seq(|rows|, i requires 0 <= i < |rows| => CalendarVerdict(env, rows[i]))
  }

  /** The kept items of a run of verdicts, in order, or `Thrown` when one of
      them throws. */
  function Collect(vs: seq<Verdict>): Completion<seq<Item>>
    decreases |vs|
  {
    if vs == [] then Normal([])
    else
      match Collect(vs[..|vs| - 1])
      case Thrown => Thrown
      case Normal(c) =>
        match vs[|vs| - 1]
        case Crash => Thrown
        case Skip => Normal(c)
        case Keep(it) => Normal(c + [it])
  }

  /** The rows' items before the `seen` test, in row order, or `Thrown` when
      some row throws. */
  function Candidates(env: Env, rows: seq<ListRow>): Completion<seq<Item>>
  {
    Collect(RowVerdicts(env, rows))
  }

  /** What `scrapeCalendarList` returns: [] off the calendar page, otherwise
      the rows' items with later duplicates of a uid dropped. */
  function CalendarListing(env: Env, page: Page): Completion<seq<Item>>
  {
    if !OnCalendarPage(page) then Normal([])
    else
      match Candidates(env, page.listRows)
      case Thrown => Thrown
      case Normal(c) => Normal(DedupFirst(c))
  }

  /** One more verdict: what `Collect` does with it. */
  lemma CollectStep(vs: seq<Verdict>, i: nat)
    requires i < |vs| && Collect(vs[..i]).Normal?
    ensures var c := Collect(vs[..i]).value;
      Collect(vs[..i + 1]) == match vs[i] case Crash => Thrown case Skip => Normal(c) case Keep(it) => Normal(c + [it])
  {
    assert vs[..i + 1][..i] == vs[..i];
  }

  /** Once a verdict has thrown, the whole run throws. */
  lemma {:induction false} ThrownPersists(vs: seq<Verdict>, i: nat)
    requires i <= |vs| && Collect(vs[..i]) == Thrown
    decreases |vs| - i
    ensures Collect(vs) == Thrown
  {
    if i < |vs| {
      assert vs[..i + 1][..i] == vs[..i];
      ThrownPersists(vs, i + 1);
    } else {
      assert vs[..i] == vs;
    }
  }

  /** Every kept item comes from a `Keep` verdict. */
  lemma {:induction false} CollectFromKeeps(vs: seq<Verdict>)
    requires Collect(vs).Normal?
    decreases |vs|
    ensures forall it :: it in Collect(vs).value ==> Keep(it) in vs
  {
    if vs != [] {
      var pre := vs[..|vs| - 1];
      CollectFromKeeps(pre);
      assert forall v :: v in pre ==> v in vs;
    }
  }

  /** Every item before the `seen` test satisfies `CalendarItemOk` and is
      the item some row is kept with. */
  lemma CandidatesOk(env: Env, rows: seq<ListRow>)
    requires Candidates(env, rows).Normal?
    ensures forall it :: it in Candidates(env, rows).value ==>
      CalendarItemOk(env, it) && exists i :: 0 <= i < |rows| && CalendarVerdict(env, rows[i]) == Keep(it)
  {
    var vs := RowVerdicts(env, rows);
    CollectFromKeeps(vs);
    forall it | it in Collect(vs).value
      ensures CalendarItemOk(env, it) && exists i :: 0 <= i < |rows| && CalendarVerdict(env, rows[i]) == Keep(it)
    {
      var i :| 0 <= i < |vs| && vs[i] == Keep(it);
      assert CalendarVerdict(env, rows[i]) == Keep(it);
    }
  }

  /** A run of verdicts throws exactly when one of them is `Crash`. */
  lemma {:induction false} CollectThrown(vs: seq<Verdict>)
    decreases |vs|
    ensures Collect(vs).Thrown? <==> exists i :: 0 <= i < |vs| && vs[i].Crash?
  {
    if vs != [] {
      var pre := vs[..|vs| - 1];
      CollectThrown(pre);
      if Collect(pre).Thrown? {
        var i :| 0 <= i < |pre| && pre[i].Crash?;
        assert vs[i].Crash?;
      } else if !vs[|vs| - 1].Crash? {
        forall i | 0 <= i < |vs|
          ensures !vs[i].Crash?
        {
          if i < |pre| {
            assert vs[i] == pre[i];
          }
        }
      }
    }
  }

  /** Every row that is kept has its uid among the items before the `seen`
      test. */
  lemma {:induction false} KeepsCollected(vs: seq<Verdict>, i: nat)
    requires i < |vs| && vs[i].Keep? && Collect(vs).Normal?
    decreases |vs|
    ensures vs[i].item in Collect(vs).value
  {
    var pre := vs[..|vs| - 1];
    if i < |pre| {
      assert pre[i] == vs[i];
      KeepsCollected(pre, i);
    }
  }

  /** A `Skip` verdict leaves a run as if it were absent. */
  lemma {:induction false} SkipIsInert(a: seq<Verdict>, b: seq<Verdict>)
    decreases |b|
    ensures Collect(a + [Skip] + b) == Collect(a + b)
  {
    if b == [] {
      assert (a + [Skip])[..|a|] == a;
      assert a + [Skip] + b == a + [Skip];
      assert a + b == a;
    } else {
      var b' := b[..|b| - 1];
      SkipIsInert(a, b');
      assert (a + [Skip] + b)[..|a| + 1 + |b'|] == a + [Skip] + b';
      assert (a + b)[..|a| + |b'|] == a + b';
    }
  }

  /** A row that gives nothing leaves the result as if it were absent: in
      particular a row the "Available" filter drops never puts its uid in
      the `seen` set. */
  lemma SkippedRowIsInert(env: Env, a: seq<ListRow>, row: ListRow, b: seq<ListRow>)
    requires CalendarVerdict(env, row) == Skip
    ensures Candidates(env, a + [row] + b) == Candidates(env, a + b)
  {
    var va, vb := RowVerdicts(env, a), RowVerdicts(env, b);
    RowVerdictsConcat(env, a, [row]);
    RowVerdictsConcat(env, a + [row], b);
    RowVerdictsConcat(env, a, b);
    assert RowVerdicts(env, [row]) == [Skip];
    SkipIsInert(va, vb);
  }

  /** The verdicts of two runs of rows, one after the other. */
  lemma RowVerdictsConcat(env: Env, a: seq<ListRow>, b: seq<ListRow>)
    ensures RowVerdicts(env, a + b) == RowVerdicts(env, a) + RowVerdicts(env, b)
  {
    var l, r := RowVerdicts(env, a + b), RowVerdicts(env, a) + RowVerdicts(env, b);
    forall i | 0 <= i < |l|
      ensures l[i] == r[i]
    {
      if i < |a| {
        assert (a + b)[i] == a[i];
      } else {
        assert (a + b)[i] == b[i - |a|];
      }
    }
  }

  /** What the calendar list gives: [] off the calendar page; otherwise a
      throw exactly when some row throws, and else items with distinct uids,
      each satisfying `CalendarItemOk` and being the item some row is kept
      with, and the uid of every kept row among them. */
  lemma CalendarListingProperties(env: Env, page: Page)
    ensures !OnCalendarPage(page) ==> CalendarListing(env, page) == Normal([])
    ensures OnCalendarPage(page) ==>
      (CalendarListing(env, page).Thrown? <==>
         exists i :: 0 <= i < |page.listRows| && CalendarVerdict(env, page.listRows[i]).Crash?)
    ensures CalendarListing(env, page).Normal? ==> var out, rows := CalendarListing(env, page).value, page.listRows;
      && UidsDistinct(out)
      && (forall j :: 0 <= j < |out| ==>
            CalendarItemOk(env, out[j]) && exists i :: 0 <= i < |rows| && CalendarVerdict(env, rows[i]) == Keep(out[j]))
      && (OnCalendarPage(page) ==>
            forall i :: 0 <= i < |rows| && CalendarVerdict(env, rows[i]).Keep? ==>
              CalendarVerdict(env, rows[i]).item.sourceUid in UidsOf(out))
  {
    if OnCalendarPage(page) {
      CollectThrown(RowVerdicts(env, page.listRows));
      if Candidates(env, page.listRows).Normal? {
        DedupedCandidates(env, page.listRows);
        assert CalendarListing(env, page).value == DedupFirst(Candidates(env, page.listRows).value);
      }
    }
  }

  /** The rows' items after the `seen` test: distinct uids, each item one
      that some row is kept with, and the uid of every kept row among them. */
  lemma DedupedCandidates(env: Env, rows: seq<ListRow>)
    requires Candidates(env, rows).Normal?
    ensures var out := DedupFirst(Candidates(env, rows).value);
      && UidsDistinct(out)
      && (forall j :: 0 <= j < |out| ==>
            CalendarItemOk(env, out[j]) && exists i :: 0 <= i < |rows| && CalendarVerdict(env, rows[i]) == Keep(out[j]))
      && (forall i :: 0 <= i < |rows| && CalendarVerdict(env, rows[i]).Keep? ==>
            CalendarVerdict(env, rows[i]).item.sourceUid in UidsOf(out))
  {
    var c := Candidates(env, rows).value;
    CandidatesOk(env, rows);
    DedupFirstProperties(c);
    var out := DedupFirst(c);
    forall j | 0 <= j < |out|
      ensures CalendarItemOk(env, out[j]) && exists i :: 0 <= i < |rows| && CalendarVerdict(env, rows[i]) == Keep(out[j])
    {
      assert out[j] in c;
    }
    forall i | 0 <= i < |rows| && CalendarVerdict(env, rows[i]).Keep?
      ensures CalendarVerdict(env, rows[i]).item.sourceUid in UidsOf(out)
    {
      KeepListed(env, rows, i);
    }
  }

  /** The uid of a kept row survives the `seen` test. */
  lemma KeepListed(env: Env, rows: seq<ListRow>, i: nat)
    requires Candidates(env, rows).Normal? && i < |rows| && CalendarVerdict(env, rows[i]).Keep?
    ensures CalendarVerdict(env, rows[i]).item.sourceUid in UidsOf(DedupFirst(Candidates(env, rows).value))
  {
    var vs := RowVerdicts(env, rows);
    var c := Collect(vs).value;
    DedupFirstProperties(c);
    KeepsCollected(vs, i);
    var k :| 0 <= k < |c| && c[k] == vs[i].item;
  }

  /** `scrapeCalendarList(prefs)`: one pass over the rows, keeping a `seen`
      set of the uids pushed so far. */
  method ScrapeCalendarList(env: Env, page: Page) returns (r: Completion<seq<Item>>)
    ensures r == CalendarListing(env, page)
  {
    if !OnCalendarPage(page) {
      return Normal([]);
    }
    var rows := page.listRows;
    ghost var vs := RowVerdicts(env, rows);
    var seen: set<string> := {};
    var out: seq<Item> := [];
    var i := 0;
    while i < |rows|
      invariant 0 <= i <= |rows|
      invariant Collect(vs[..i]).Normal?
      invariant out == DedupFirst(Collect(vs[..i]).value)
      invariant seen == UidsOf(out)
    {
      var v := CalendarVerdict(env, rows[i]);
      assert v == vs[i];
      CollectStep(vs, i);
      if v.Crash? {
        ThrownPersists(vs, i + 1);
        return Thrown;
      }
      if v.Keep? {
        SeenStep(Collect(vs[..i]).value, out, seen, v.item);
        if v.item.sourceUid !in seen {
          seen := seen + {v.item.sourceUid};
          out := out + [v.item];
        }
      }
      i := i + 1;
    }
    assert vs[..i] == vs;
    return Normal(out);
  }
}

/** `scrapeAssignmentsList` and `scrapeQuizzesList` of extension/content.js:
    the two table scrapers, which differ only in the page they run on, the
    header keywords, the uid prefix and the kind they give. */
module TableLists {
  import opened Wrappers
  import opened Strings
  import opened TextNormalizer
  import opened Patterns
  import opened DateResolver
  import opened Classifier
  import opened PageModel

  /** The Brightspace tool a table page belongs to. */
  datatype Section = Dropbox | Quizzing

  /** The path fragment `location.href` must contain, in any ASCII case. */
  function GatePath(sec: Section): string
  {
    match sec
    case Dropbox => "/d2l/lms/dropbox/"
    case Quizzing => "/d2l/lms/quizzing/"
  }

  /** The header keywords of the title column. */
  function TitleWords(sec: Section): seq<string>
  {
    match sec
    case Dropbox => ["assignment", "folder", "name", "title"]
    case Quizzing => ["quiz", "name", "title"]
  }

  /** The header keywords of the due-date column. */
  function DueWords(sec: Section): seq<string>
  {
    match sec
    case Dropbox => ["due"]
    case Quizzing => ["due", "end date", "end time", "availability"]
  }

  function UidPrefix(sec: Section): string
  {
    match sec
    case Dropbox => "assign-"
    case Quizzing => "quiz-"
  }

  predicate InSection(sec: Section, page: Page)
  {
    Contains(Lower(page.href), GatePath(sec))
  }

  /** The header texts as the scrapers compare them: cleaned and lower-cased. */
  function HeaderKeys(headers: seq<string>): (hs: seq<string>)
    ensures |hs| == |headers| && forall i :: 0 <= i < |headers| ==> hs[i] == Lower(Clean(Some(headers[i])))
  {
    seq(|headers|, i requires 0 <= i < |headers| => Lower(Clean(Some(headers[i]))))
  }

  /** `hs.findIndex(h => keywords-regex.test(h))`: the first header that
      mentions a keyword, or -1. */
  function FirstMentioning(hs: seq<string>, words: seq<string>): (k: int)
    decreases |hs|
    ensures -1 <= k < |hs|
    ensures k == -1 <==> forall i :: 0 <= i < |hs| ==> !Mentions(hs[i], words)
    ensures k >= 0 ==> Mentions(hs[k], words) && forall j :: 0 <= j < k ==> !Mentions(hs[j], words)
  {
    if hs == [] then -1
    else if Mentions(hs[0], words) then 0
    else
      var k := FirstMentioning(hs[1..], words);
      if k == -1 then -1 else k + 1
  }

  /** `tds[i]?.innerText`: the cell's text, or `None` past the end of the row. */
  function Cell(cells: seq<string>, i: nat): Option<string>
  {
    if i < |cells| then Some(cells[i]) else None
  }

  /** The body of the inner loop for one row. */
  function RowItem(sec: Section, env: Env, iTitle: nat, iDue: nat, cells: seq<string>): Option<Item>
  {
    CellsItem(sec, env, Clean(Cell(cells, iTitle)), Clean(Cell(cells, iDue)))
  }

  /** The row's item from its cleaned title and due texts. */
  function CellsItem(sec: Section, env: Env, title: string, due: string): Option<Item>
  {
    if title == "" || due == "" || !DueDated(due) then None
    else Some(DatedItem(sec, env, title, due))
  }

  /** The due text shows a month (`mon`) and a day (`day`). */
  predicate DueDated(due: string)
  {
    Find(MonthToken, due, 0).Some? && Find(DayToken, due, 0).Some?
  }

  /** The month text `mon`: a three-letter month abbreviation. */
  function DueMonth(due: string): (mon: string)
    requires Find(MonthToken, due, 0).Some?
    ensures |mon| == 3 && MonthToNum(mon).Some?
  {
    MonthMatch(due, 0);
    Find(MonthToken, due, 0).value.text
  }

  /** The day text `day`: one or two digits spelling a day of the month. */
  function DueDay(due: string): (day: string)
    requires Find(DayToken, due, 0).Some?
    ensures 1 <= |day| <= 2 && AllDigits(day) && 1 <= ParseDecimal(day) <= 31
  {
    DayMatch(due, 0);
    Find(DayToken, due, 0).value.text
  }

  /** `due.match(timeRe)?.[0] || prefs?.defaultTime`. */
  function DueTime(env: Env, due: string): Option<string>
  {
    match Find(BoundedClockTime, due, 0) case Some(t) => Some(t.text) case None => env.prefs.defaultTime
  }

  /** The text `toISO` hands the host to parse for a dated due text. */
  function RowDateString(env: Env, due: string): string
    requires DueDated(due)
  {
    DateString(env.year, MonthToNum(DueMonth(due)).value, ParseDecimal(DueDay(due)),
               PickTime(DueTime(env, due), env.prefs.defaultTime))
  }

  /** The due value `toISO(y, monthToNum(mon), parseInt(day, 10), time, prefs?.defaultTime)`. */
  function RowDue(env: Env, due: string): Option<string>
    requires DueDated(due)
  {
    ToISO(env.host, env.year, MonthToNum(DueMonth(due)).value, ParseDecimal(DueDay(due)), DueTime(env, due), env.prefs.defaultTime)
  }

  /** The uid of a table item: the section's prefix, the year, the month and
      day TEXTS as they appear in the due cell, and the first 64 characters
      of the lower-cased title, joined by dashes. */
  function TableUid(sec: Section, year: nat, mon: string, day: string, title: string): string
  {
    UidPrefix(sec) + NatToString(year) + "-" + mon + "-" + day + "-" + Take(Lower(title), 64)
  }

  /** The kind of a table item: always "quiz" for quizzes, the classified
      title for assignments. */
  function TableKind(sec: Section, title: string): string
  {
    if sec == Quizzing then "quiz" else Classify(title)
  }

  /** The item of a row whose due text shows a month and a day. */
  function DatedItem(sec: Section, env: Env, title: string, due: string): Item
    requires DueDated(due)
  {
    Item(title, None, RowDue(env, due), TableKind(sec, title), TableUid(sec, env.year, DueMonth(due), DueDay(due), title))
  }

  /** A row gives an item exactly when its title and due cells are non-empty
      after cleaning and the due text has a month and a day. The item has
      that title, no course, the due value of the due text's month, day and
      time, the section's kind, and the uid of the month and day texts. */
  lemma RowItemSpec(sec: Section, env: Env, iTitle: nat, iDue: nat, cells: seq<string>)
    ensures var r, title, due := RowItem(sec, env, iTitle, iDue, cells), Clean(Cell(cells, iTitle)), Clean(Cell(cells, iDue));
      && (r.Some? <==> title != "" && due != "" && Test(MonthToken, due) && Test(DayToken, due))
      && (r.Some? ==> r.value == Item(title, None, RowDue(env, due), TableKind(sec, title),
                                      TableUid(sec, env.year, DueMonth(due), DueDay(due), title)))
      && (r.Some? ==> TableItemOk(sec, env, r.value))
  {
    var title, due := Clean(Cell(cells, iTitle)), Clean(Cell(cells, iDue));
    if title != "" && due != "" && DueDated(due) {
      DatedItemOk(sec, env, title, due);
    }
  }

  /** The item of a dated row satisfies the table item invariant. */
  lemma DatedItemOk(sec: Section, env: Env, title: string, due: string)
    requires title != "" && DueDated(due)
    ensures TableItemOk(sec, env, DatedItem(sec, env, title, due))
  {
    var it := DatedItem(sec, env, title, due);
    var mon, day := DueMonth(due), DueDay(due);
    assert it.sourceUid == TableUid(sec, env.year, mon, day, it.title);
    assert it.dueAt == ToISO(env.host, env.year, MonthToNum(mon).value, ParseDecimal(day), DueTime(env, due), env.prefs.defaultTime);
  }

  /** The table scrapers do not check `toISO`'s result: a row gives its item
      whether or not the host parses its date, and the item's due time is
      null exactly when the host cannot parse that row's date text. */
  lemma UnparsedDueKept(sec: Section, env: Env, iTitle: nat, iDue: nat, cells: seq<string>)
    ensures var r, due := RowItem(sec, env, iTitle, iDue, cells), Clean(Cell(cells, iDue));
      r.Some? ==> DueDated(due) && (r.value.dueAt.None? <==> env.host.parse(RowDateString(env, due)).None?)
  {
  }

  /** The result of each body row, in order. */
  function RowResults(sec: Section, env: Env, iTitle: nat, iDue: nat, rows: seq<seq<string>>): (rs: seq<Option<Item>>)
    ensures |rs| == |rows| && forall i :: 0 <= i < |rows| ==> rs[i] == RowItem(sec, env, iTitle, iDue, rows[i])
  {
    seq(|rows|, i requires 0 <= i < |rows| => RowItem(sec, env, iTitle, iDue, rows[i]))
  }

  /** The title and due columns of a table, when both headers are found. */
  function Columns(sec: Section, t: Table): Option<(nat, nat)>
  {
    var hs := HeaderKeys(t.headers);
    var iTitle, iDue := FirstMentioning(hs, TitleWords(sec)), FirstMentioning(hs, DueWords(sec));
    if iTitle < 0 || iDue < 0 then None else Some((iTitle, iDue))
  }

  /** The items of one table: none when a header is missing, otherwise one
      per qualifying row. */
  function TableItems(sec: Section, env: Env, t: Table): seq<Item>
  {
    match Columns(sec, t)
    case None => []
    case Some((iTitle, iDue)) => Kept(RowResults(sec, env, iTitle, iDue, t.rows))
  }

  /** The items of each table, in order. */
  function TableResults(sec: Section, env: Env, tables: seq<Table>): (rs: seq<seq<Item>>)
    ensures |rs| == |tables| && forall i :: 0 <= i < |tables| ==> rs[i] == TableItems(sec, env, tables[i])
  {
    seq(|tables|, i requires 0 <= i < |tables| => TableItems(sec, env, tables[i]))
  }

  /** What a table scraper returns: [] off its page, otherwise the items of
      all tables, table after table, with no uid test. */
  function SectionListing(sec: Section, env: Env, page: Page): seq<Item>
  {
    if !InSection(sec, page) then [] else Flatten(TableResults(sec, env, page.tables))
  }

  /** What every table item satisfies: a title, no course, the section's
      kind, and a uid and due value made from one month text and day text. */
  ghost predicate TableItemOk(sec: Section, env: Env, it: Item)
  {
    it.title != "" && it.course.None? && it.kind == TableKind(sec, it.title)
    && exists mon: string, day: string, t: Option<string> ::
         MonthToNum(mon).Some? && AllDigits(day) && it.sourceUid == TableUid(sec, env.year, mon, day, it.title)
         && it.dueAt == ToISO(env.host, env.year, MonthToNum(mon).value, ParseDecimal(day), t, env.prefs.defaultTime)
  }

  /** The items of one table satisfy `TableItemOk`; a table without both
      headers gives none. */
  lemma TableItemsOk(sec: Section, env: Env, t: Table)
    ensures Columns(sec, t).None? ==> TableItems(sec, env, t) == []
    ensures forall it :: it in TableItems(sec, env, t) ==> TableItemOk(sec, env, it)
  {
    if Columns(sec, t).Some? {
      var (iTitle, iDue) := Columns(sec, t).value;
      var rs := RowResults(sec, env, iTitle, iDue, t.rows);
      KeptFrom(rs);
      forall it | it in TableItems(sec, env, t)
        ensures TableItemOk(sec, env, it)
      {
        var i :| 0 <= i < |rs| && rs[i] == Some(it);
        RowItemSpec(sec, env, iTitle, iDue, t.rows[i]);
      }
    }
  }

  /** What a table scraper gives: [] off its page, and otherwise items that
      each satisfy `TableItemOk`. */
  lemma SectionListingOk(sec: Section, env: Env, page: Page)
    ensures !InSection(sec, page) ==> SectionListing(sec, env, page) == []
    ensures forall it :: it in SectionListing(sec, env, page) ==> TableItemOk(sec, env, it)
  {
    if InSection(sec, page) {
      var per := TableResults(sec, env, page.tables);
      FlattenFrom(per);
      forall it | it in SectionListing(sec, env, page)
        ensures TableItemOk(sec, env, it)
      {
        var i :| 0 <= i < |per| && it in per[i];
        TableItemsOk(sec, env, page.tables[i]);
      }
    }
  }

  /** No uid test: a table whose body rows appear twice gives its items
      twice. */
  lemma RepeatedRowsRepeatItems(sec: Section, env: Env, t: Table)
    ensures TableItems(sec, env, Table(t.headers, t.rows + t.rows)) == TableItems(sec, env, t) + TableItems(sec, env, t)
  {
    var t2 := Table(t.headers, t.rows + t.rows);
    assert Columns(sec, t2) == Columns(sec, t);
    if Columns(sec, t).Some? {
      var (iTitle, iDue) := Columns(sec, t).value;
      var rs := RowResults(sec, env, iTitle, iDue, t.rows);
      RowResultsConcat(sec, env, iTitle, iDue, t.rows, t.rows);
      KeptConcat(rs, rs);
    }
  }

  /** The results of two runs of rows, one after the other. */
  lemma RowResultsConcat(sec: Section, env: Env, iTitle: nat, iDue: nat, a: seq<seq<string>>, b: seq<seq<string>>)
    ensures RowResults(sec, env, iTitle, iDue, a + b)
      == RowResults(sec, env, iTitle, iDue, a) + RowResults(sec, env, iTitle, iDue, b)
  {
    var l := RowResults(sec, env, iTitle, iDue, a + b);
    var r := RowResults(sec, env, iTitle, iDue, a) + RowResults(sec, env, iTitle, iDue, b);
    forall i | 0 <= i < |l|
      ensures l[i] == r[i]
    {
      if i < |a| {
        assert (a + b)[i] == a[i];
      } else {
        assert (a + b)[i] == b[i - |a|];
      }
    }
  }

  /** Both table scrapers: an outer loop over the tables and, for each table
      whose headers qualify, the inner loop over its body rows. */
  method ScrapeSection(sec: Section, env: Env, page: Page) returns (out: seq<Item>)
    ensures out == SectionListing(sec, env, page)
  {
    if !InSection(sec, page) {
      return [];
    }
    var tables := page.tables;
    ghost var per := TableResults(sec, env, tables);
    out := [];
    var ti := 0;
    while ti < |tables|
      invariant 0 <= ti <= |tables|
      invariant out == Flatten(per[..ti])
    {
      var t := tables[ti];
      var cols := Columns(sec, t);
      if cols.Some? {
        out := ScrapeRows(sec, env, cols.value.0, cols.value.1, t.rows, out);
      }
      FlattenStep(per, ti);
      ti := ti + 1;
    }
    assert per[..ti] == per;
  }

  /** The inner loop: the items of the body rows pushed onto `out0`. */
  method ScrapeRows(sec: Section, env: Env, iTitle: nat, iDue: nat, rows: seq<seq<string>>, out0: seq<Item>)
    returns (out: seq<Item>)
    ensures out == out0 + Kept(RowResults(sec, env, iTitle, iDue, rows))
  {
    ghost var rs := RowResults(sec, env, iTitle, iDue, rows);
    out := out0;
    var ri := 0;
    while ri < |rows|
      invariant 0 <= ri <= |rows|
      invariant out == out0 + Kept(rs[..ri])
    {
      var r := RowItem(sec, env, iTitle, iDue, rows[ri]);
      AppendStep(rs, ri, out0, out);
      if r.Some? {
        out := out + [r.value];
      }
      ri := ri + 1;
    }
    assert rs[..ri] == rs;
  }

  /** `scrapeAssignmentsList(prefs)`. */
  method ScrapeAssignmentsList(env: Env, page: Page) returns (out: seq<Item>)
    ensures out == SectionListing(Dropbox, env, page)
  {
    out := ScrapeSection(Dropbox, env, page);
  }

  /** `scrapeQuizzesList(prefs)`. */
  method ScrapeQuizzesList(env: Env, page: Page) returns (out: seq<Item>)
    ensures out == SectionListing(Quizzing, env, page)
  {
    out := ScrapeSection(Quizzing, env, page);
  }
}

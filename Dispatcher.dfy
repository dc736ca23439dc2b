/** `scrapeAll` of extension/content.js: the calendar list first, then the
    assignments table, then the quizzes table, then the home widget. */
module Dispatcher {
  import opened Wrappers
  import opened PageModel
  import opened CalendarList
  import opened TableLists
  import opened HomeUpcoming

  /** The first non-empty listing of `xss`, or `last` when all are empty. */
  function FirstNonEmpty(xss: seq<seq<Item>>, last: seq<Item>): (r: seq<Item>)
    decreases |xss|
    ensures (forall k :: 0 <= k < |xss| ==> xss[k] == []) ==> r == last
    ensures (exists k :: 0 <= k < |xss| && xss[k] != []) ==>
      exists k :: 0 <= k < |xss| && r == xss[k] && r != [] && forall j :: 0 <= j < k ==> xss[j] == []
  {
    if xss == [] then last
    else if xss[0] != [] then xss[0]
    else
      var r := FirstNonEmpty(xss[1..], last);
      assert forall k :: 1 <= k < |xss| ==> xss[k] == xss[1..][k - 1];
      if exists k :: 0 <= k < |xss| && xss[k] != [] then
        var k0 :| 0 <= k0 < |xss| && xss[k0] != [];
        assert xss[1..][k0 - 1] != [];
        var k :| 0 <= k < |xss[1..]| && r == xss[1..][k] && r != [] && forall j :: 0 <= j < k ==> xss[1..][j] == [];
        assert r == xss[k + 1] && forall j :: 0 <= j < k + 1 ==> xss[j] == [] by {
          forall j | 0 <= j < k + 1
            ensures xss[j] == []
          {
            if j > 0 {
              assert xss[j] == xss[1..][j - 1];
            }
          }
        }
        r
      else
        r
  }

  /** What `scrapeAll` returns: the throw of the calendar scraper when it
      throws, and otherwise the first non-empty listing in the order
      calendar, assignments, quizzes, with the home widget's as the last
      resort. */
  function Dispatch(env: Env, page: Page): Completion<seq<Item>>
  {
    match CalendarListing(env, page)
    case Thrown => Thrown
    case Normal(cal) =>
      Normal(FirstNonEmpty([cal, SectionListing(Dropbox, env, page), SectionListing(Quizzing, env, page)],
                           HomeListing(env, page)))
  }

  /** The outcome in each case: a throw only from the calendar list, and
      each later scraper consulted only when every earlier one found
      nothing. */
  lemma DispatchOrder(env: Env, page: Page)
    ensures Dispatch(env, page).Thrown? <==> CalendarListing(env, page).Thrown?
    ensures CalendarListing(env, page).Normal? ==>
      var cal := CalendarListing(env, page).value;
      var ass := SectionListing(Dropbox, env, page);
      var quiz := SectionListing(Quizzing, env, page);
      Dispatch(env, page).value ==
        if cal != [] then cal
        else if ass != [] then ass
        else if quiz != [] then quiz
        else HomeListing(env, page)
  {
    if CalendarListing(env, page).Normal? {
      FirstOfThree(CalendarListing(env, page).value, SectionListing(Dropbox, env, page),
                   SectionListing(Quizzing, env, page), HomeListing(env, page));
    }
  }

  /** `FirstNonEmpty` of three listings, case by case. */
  lemma FirstOfThree(a: seq<Item>, b: seq<Item>, c: seq<Item>, last: seq<Item>)
    ensures FirstNonEmpty([a, b, c], last) ==
      if a != [] then a else if b != [] then b else if c != [] then c else last
  {
    assert [a, b, c][1..] == [b, c];
    assert [b, c][1..] == [c];
    assert [c][1..] == [];
    assert FirstNonEmpty([c], last) == if c != [] then c else last;
    assert FirstNonEmpty([b, c], last) == if b != [] then b else FirstNonEmpty([c], last);
  }

  /** Every item `scrapeAll` gives has a title and no course, whichever
      scraper it came from. */
  lemma DispatchItemsTitled(env: Env, page: Page)
    ensures Dispatch(env, page).Normal? ==>
      forall it :: it in Dispatch(env, page).value ==> it.title != "" && it.course.None?
  {
    if CalendarListing(env, page).Normal? {
      DispatchOrder(env, page);
      CalendarListingProperties(env, page);
      SectionListingOk(Dropbox, env, page);
      SectionListingOk(Quizzing, env, page);
      HomeListingProperties(env, page);
    }
  }

  /** Once the calendar list has items, the tables and the home widget are
      never looked at: pages that differ only there give the same result. */
  lemma CalendarShadowsTheRest(env: Env, p: Page, q: Page)
    requires p.pathname == q.pathname && p.listRows == q.listRows
    requires CalendarListing(env, p).Normal? && CalendarListing(env, p).value != []
    ensures Dispatch(env, q) == Dispatch(env, p) == CalendarListing(env, p)
  {
    assert CalendarListing(env, q) == CalendarListing(env, p);
    DispatchOrder(env, p);
    DispatchOrder(env, q);
  }

  /** `scrapeAll(prefs)`: the four scrapers run in turn, each only when the
      ones before it returned nothing. */
  method ScrapeAll(env: Env, page: Page) returns (r: Completion<seq<Item>>)
    ensures r == Dispatch(env, page)
  {
    DispatchOrder(env, page);
    var cal := ScrapeCalendarList(env, page);
    if cal.Thrown? || |cal.value| > 0 {
      return cal;
    }
    var ass := ScrapeAssignmentsList(env, page);
    if |ass| > 0 {
      return Normal(ass);
    }
    var quiz := ScrapeQuizzesList(env, page);
    if |quiz| > 0 {
      return Normal(quiz);
    }
    var home := ScrapeHomeUpcoming(env, page);
    return Normal(home);
  }
}

/** `build_ics` of app/feeds.py: the calendar of a user's rows, one VEVENT
    (section 3.6.1 of RFC 5545) per row kept, each with a VALARM (section
    3.6.6) when alarms are asked for and the row has a due time. */
module Feeds {
  import opened Wrappers
  import opened Strings
  import opened Schema

  const ProductId: string := "-//StudySync//EN"
  const Version: string := "2.0"
  const CalendarName: string := "StudySync"

  /** A VALARM: its action, description and trigger, in minutes from the start. */
  datatype Alarm = Alarm(action: string, description: string, triggerMinutes: int)

  /** The alarm every dated event gets: a display half an hour before. */
  const Reminder: Alarm := Alarm("DISPLAY", "Reminder", -30)

  datatype Event = Event(
    uid: string,
    summary: string,
    dtstamp: int,
    dtstart: Option<int>,
    description: string,
    alarm: Option<Alarm>)

  /** The VCALENDAR: its PRODID, VERSION and X-WR-CALNAME, and its events in order. */
  datatype Calendar = Calendar(prodId: string, version: string, name: string, events: seq<Event>)

  /** With `futureOnly`, a row due before `now` is left out; a row without a
      due time never is. */
  predicate Kept(r: Row, futureOnly: bool, now: int)
  {
    !(futureOnly && r.dueAt.Some? && r.dueAt.value < now)
  }

  /** The rows kept, in their order. */
  function KeptRows(rows: seq<Row>, futureOnly: bool, now: int): (s: seq<Row>)
    decreases |rows|
    ensures forall r :: r in s <==> r in rows && Kept(r, futureOnly, now)
    ensures |s| <= |rows|
  {
    if rows == [] then []
    else
      var pre := KeptRows(rows[..|rows| - 1], futureOnly, now);
      var r := rows[|rows| - 1];
      assert forall x :: x in rows <==> x in rows[..|rows| - 1] || x == r;
      if Kept(r, futureOnly, now) then pre + [r] else pre
  }

  function EventUid(id: nat): string
  {
    "studysync-" + NatToString(id)
  }

  /** The summary: the title, or "Untitled" for an empty one. */
  function Summary(title: string): (s: string)
    ensures s != ""
    ensures title != "" ==> s == title
    ensures title == "" ==> s == "Untitled"
  {
    if title != "" then title else "Untitled"
  }

  /** The description: the kind ("assignment" for an empty one), then
      " — " and the course when there is a non-empty course. */
  function Description(kind: string, course: Option<string>): (d: string)
    ensures var k := if kind != "" then kind else "assignment";
      |k| <= |d| && d[..|k|] == k
    ensures var k := if kind != "" then kind else "assignment";
      Truthy(course) <==> |d| > |k|
    ensures var k := if kind != "" then kind else "assignment";
      && (Truthy(course) ==> d[|k|..] == " — " + course.value)
      && (!Truthy(course) ==> d == k)
  {
    var k := if kind != "" then kind else "assignment";
    if Truthy(course) then k + " — " + course.value else k
  }

  /** The event of one kept row. */
  function EventOf(r: Row, addAlarms: bool, now: int): (e: Event)
    ensures e.dtstart.Some? <==> r.dueAt.Some?
    ensures e.dtstart.Some? ==> e.dtstart == r.dueAt
    ensures e.alarm.Some? <==> addAlarms && r.dueAt.Some?
    ensures e.alarm.Some? ==> e.alarm.value == Reminder
    ensures e.uid == EventUid(r.id) && e.dtstamp == now
    ensures e.summary == Summary(r.title) && e.description == Description(r.kind, r.course)
  {
    Event(EventUid(r.id), Summary(r.title), now, r.dueAt, Description(r.kind, r.course),
          if addAlarms && r.dueAt.Some? then Some(Reminder) else None)
  }

  /** The events of the calendar: one per kept row, in the rows' order. */
  function Events(rows: seq<Row>, futureOnly: bool, addAlarms: bool, now: int): (es: seq<Event>)
    ensures |es| == |KeptRows(rows, futureOnly, now)|
    ensures forall k :: 0 <= k < |es| ==> es[k] == EventOf(KeptRows(rows, futureOnly, now)[k], addAlarms, now)
  {
    var kept := KeptRows(rows, futureOnly, now);
    seq(|kept|, k requires 0 <= k < |kept| => EventOf(kept[k], addAlarms, now))
  }

  /** One more row: what `KeptRows` does with it. */
  lemma KeptStep(rows: seq<Row>, i: nat, futureOnly: bool, now: int)
    requires i < |rows|
    ensures KeptRows(rows[..i + 1], futureOnly, now) ==
      KeptRows(rows[..i], futureOnly, now) + (if Kept(rows[i], futureOnly, now) then [rows[i]] else [])
  {
    assert rows[..i + 1][..i] == rows[..i];
  }

  /** One more row: the event it adds, if it is kept. */
  lemma EventsStep(rows: seq<Row>, i: nat, futureOnly: bool, addAlarms: bool, now: int)
    requires i < |rows|
    ensures Events(rows[..i + 1], futureOnly, addAlarms, now) ==
      Events(rows[..i], futureOnly, addAlarms, now) + (if Kept(rows[i], futureOnly, now) then [EventOf(rows[i], addAlarms, now)] else [])
  {
    KeptStep(rows, i, futureOnly, now);
    var a := Events(rows[..i], futureOnly, addAlarms, now);
    var b := Events(rows[..i + 1], futureOnly, addAlarms, now);
    var k := KeptRows(rows[..i], futureOnly, now);
    if Kept(rows[i], futureOnly, now) {
      assert |b| == |a| + 1;
      forall j | 0 <= j < |b|
        ensures b[j] == (a + [EventOf(rows[i], addAlarms, now)])[j]
      {
        if j < |a| {
          assert KeptRows(rows[..i + 1], futureOnly, now)[j] == k[j];
        }
      }
    } else {
      assert a + [] == a;
    }
  }

  /** Without `futureOnly` every row gives an event. */
  lemma {:induction false} AllKeptWhenNotFutureOnly(rows: seq<Row>, now: int)
    decreases |rows|
    ensures KeptRows(rows, false, now) == rows
  {
    if rows != [] {
      AllKeptWhenNotFutureOnly(rows[..|rows| - 1], now);
      assert rows[..|rows| - 1] + [rows[|rows| - 1]] == rows;
    }
  }

  /** Rows with distinct ids give events with distinct uids. */
  lemma EventUidsDistinct(rows: seq<Row>, futureOnly: bool, addAlarms: bool, now: int)
    requires DistinctIds(rows)
    ensures var es := Events(rows, futureOnly, addAlarms, now);
      forall i, j :: 0 <= i < j < |es| ==> es[i].uid != es[j].uid
  {
    KeptDistinctIds(rows, futureOnly, now);
    var kept := KeptRows(rows, futureOnly, now);
    var es := Events(rows, futureOnly, addAlarms, now);
    forall i, j | 0 <= i < j < |es|
      ensures es[i].uid != es[j].uid
    {
      if es[i].uid == es[j].uid {
        var p := "studysync-";
        assert (p + NatToString(kept[i].id))[|p|..] == NatToString(kept[i].id);
        assert (p + NatToString(kept[j].id))[|p|..] == NatToString(kept[j].id);
        NatToStringInjective(kept[i].id, kept[j].id);
      }
    }
  }

  /** Keeping rows in order keeps their ids distinct. */
  lemma {:induction false} KeptDistinctIds(rows: seq<Row>, futureOnly: bool, now: int)
    requires DistinctIds(rows)
    decreases |rows|
    ensures DistinctIds(KeptRows(rows, futureOnly, now))
  {
    if rows != [] {
      var init := rows[..|rows| - 1];
      var r := rows[|rows| - 1];
      assert DistinctIds(init);
      KeptDistinctIds(init, futureOnly, now);
      var pre := KeptRows(init, futureOnly, now);
      if Kept(r, futureOnly, now) {
        forall x | x in pre
          ensures x.id != r.id
        {
          var k :| 0 <= k < |init| && init[k] == x;
          assert rows[k] == x;
        }
      }
    }
  }

  /** `build_ics(rows, future_only, add_alarms)` at time `now`: the calendar
      properties, then one pass over the rows adding an event for each row
      kept. */
  method BuildIcs(rows: seq<Row>, futureOnly: bool, addAlarms: bool, now: int) returns (cal: Calendar)
    ensures cal == Calendar(ProductId, Version, CalendarName, Events(rows, futureOnly, addAlarms, now))
  {
    var events: seq<Event> := [];
    var i := 0;
    while i < |rows|
      invariant 0 <= i <= |rows|
      invariant events == Events(rows[..i], futureOnly, addAlarms, now)
    {
      var r := rows[i];
      EventsStep(rows, i, futureOnly, addAlarms, now);
      if Kept(r, futureOnly, now) {
        var alarm := if addAlarms && r.dueAt.Some? then Some(Reminder) else None;
        var ev := Event(EventUid(r.id), Summary(r.title), now, r.dueAt, Description(r.kind, r.course), alarm);
        events := events + [ev];
      }
      i := i + 1;
    }
    assert rows[..i] == rows;
    cal := Calendar(ProductId, Version, CalendarName, events);
  }
}

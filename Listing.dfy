/** `list_assignments` of app/main.py: the caller's rows, kept when their due
    time lies within the optional bounds, ordered by due time with the rows
    that have none last. */
module Listing {
  import opened Wrappers
  import opened Schema

  /** What `datetime.fromisoformat` reads from a string: the wall-clock time,
      placed on the UTC time line as if it were UTC, and the UTC offset when
      the string gives one. */
  datatype Parsed = Parsed(wall: int, offset: Option<int>)

  /** The instant a parsed time denotes, a naive time being taken as UTC. */
  function Instant(p: Parsed): int
  {
    match p.offset
    case None => p.wall
    case Some(o) => p.wall - o
  }

  /** `parse_iso(s)`, with `fromIso` standing for `datetime.fromisoformat`
      (`None` where that raises). An empty or missing string is no bound; a
      trailing "Z" is cut off and the rest pinned to UTC, replacing any
      offset it gave; any other string keeps its offset or is taken as UTC. */
  function ParseIso(fromIso: string -> Option<Parsed>, s: Option<string>): (r: Result<Option<int>>)
    ensures !Truthy(s) ==> r == Ok(None)
    ensures Truthy(s) ==> r != Ok(None)
  {
    if !Truthy(s) then Ok(None)
    else
      var t := s.value;
      if t[|t| - 1] == 'Z' then
        match fromIso(t[..|t| - 1])
        case None => Failed("Invalid isoformat string")
        case Some(p) => Ok(Some(p.wall))
      else
        match fromIso(t)
        case None => Failed("Invalid isoformat string")
        case Some(p) => Ok(Some(Instant(p)))
  }

  /** A trailing "Z" and no zone at all both mean UTC. */
  lemma ZuluIsUtc(fromIso: string -> Option<Parsed>, t: string, w: int)
    requires t != [] && t[|t| - 1] != 'Z' && fromIso(t) == Some(Parsed(w, None))
    ensures ParseIso(fromIso, Some(t + "Z")) == ParseIso(fromIso, Some(t)) == Ok(Some(w))
  {
    var z := t + "Z";
    assert z[..|z| - 1] == t;
  }

  /** A "Z" after an explicit offset does not convert the time: the offset
      is replaced, so the bound moves by the offset. */
  lemma ZuluOverridesOffset(fromIso: string -> Option<Parsed>, t: string, w: int, o: int)
    requires t != [] && t[|t| - 1] != 'Z' && fromIso(t) == Some(Parsed(w, Some(o))) && o != 0
    ensures ParseIso(fromIso, Some(t + "Z")) == Ok(Some(w))
    ensures ParseIso(fromIso, Some(t)) == Ok(Some(w - o))
  {
    var z := t + "Z";
    assert z[..|z| - 1] == t;
  }

  /** A due time within the optional bounds, both inclusive. A null due time
      is never within a bound: SQL compares null with nothing. */
  predicate InRange(due: Option<int>, lo: Option<int>, hi: Option<int>)
  {
    (lo.Some? ==> due.Some? && lo.value <= due.value) && (hi.Some? ==> due.Some? && due.value <= hi.value)
  }

  /** The rows the query selects: the caller's, within the bounds, in table order. */
  function Selected(rows: seq<Row>, user: string, lo: Option<int>, hi: Option<int>): (s: seq<Row>)
    decreases |rows|
    ensures forall r :: r in s <==> r in rows && r.userId == user && InRange(r.dueAt, lo, hi)
    ensures |s| <= |rows|
  {
    if rows == [] then []
    else
      var pre := Selected(rows[..|rows| - 1], user, lo, hi);
      var r := rows[|rows| - 1];
      assert forall x :: x in rows <==> x in rows[..|rows| - 1] || x == r;
      if r.userId == user && InRange(r.dueAt, lo, hi) then pre + [r] else pre
  }

  /** `due_at ASC NULLS LAST`: `a` may come before `b`. */
  predicate DueLeq(a: Option<int>, b: Option<int>)
  {
    b.None? || (a.Some? && a.value <= b.value)
  }

  predicate SortedByDue(s: seq<Row>)
  {
    forall i, j :: 0 <= i < j < |s| ==> DueLeq(s[i].dueAt, s[j].dueAt)
  }

  /** `x` placed before the first row it may precede. */
  function InsertByDue(x: Row, s: seq<Row>): (r: seq<Row>)
    requires SortedByDue(s)
    decreases |s|
    ensures SortedByDue(r)
    ensures multiset(r) == multiset(s) + multiset{x}
  {
    if s == [] then [x]
    else if DueLeq(x.dueAt, s[0].dueAt) then
      assert forall k :: 0 <= k < |s| ==> DueLeq(s[0].dueAt, s[k].dueAt);
      [x] + s
    else
      var t := InsertByDue(x, s[1..]);
      assert s == [s[0]] + s[1..];
      BoundPermuted(s[0].dueAt, s[1..], x, t);
      SortedCons(s[0], t);
      [s[0]] + t
  }

  /** A bound below every row of `s` and below `x` is below every row of a
      permutation of `s` with `x` added. */
  lemma BoundPermuted(lo: Option<int>, s: seq<Row>, x: Row, t: seq<Row>)
    requires multiset(t) == multiset(s) + multiset{x}
    requires DueLeq(lo, x.dueAt) && forall k :: 0 <= k < |s| ==> DueLeq(lo, s[k].dueAt)
    ensures forall k :: 0 <= k < |t| ==> DueLeq(lo, t[k].dueAt)
  {
    forall k | 0 <= k < |t|
      ensures DueLeq(lo, t[k].dueAt)
    {
      assert t[k] in multiset(t);
      assert t[k] in multiset(s) || t[k] == x;
    }
  }

  /** A row below every row of a sorted sequence may go in front of it. */
  lemma SortedCons(y: Row, t: seq<Row>)
    requires SortedByDue(t) && forall k :: 0 <= k < |t| ==> DueLeq(y.dueAt, t[k].dueAt)
    ensures SortedByDue([y] + t)
  {
    var r := [y] + t;
    forall i, j | 0 <= i < j < |r|
      ensures DueLeq(r[i].dueAt, r[j].dueAt)
    {
      if i > 0 {
        assert r[i] == t[i - 1] && r[j] == t[j - 1];
      } else {
        assert r[j] == t[j - 1];
      }
    }
  }

  /** The rows in the order of the query: by due time, nulls last; rows that
      tie keep their table order. */
  function SortByDue(s: seq<Row>): (r: seq<Row>)
    decreases |s|
    ensures SortedByDue(r)
    ensures multiset(r) == multiset(s)
  {
    if s == [] then []
    else
      assert s == [s[0]] + s[1..];
      InsertByDue(s[0], SortByDue(s[1..]))
  }

  /** What the query returns for bounds already parsed: exactly the
      caller's rows within the bounds, each as often as it occurs, sorted. */
  function ListRows(rows: seq<Row>, user: string, lo: Option<int>, hi: Option<int>): (out: seq<Row>)
    ensures SortedByDue(out)
    ensures multiset(out) == multiset(Selected(rows, user, lo, hi))
    ensures forall r :: r in out <==> r in rows && r.userId == user && InRange(r.dueAt, lo, hi)
  {
    var s := Selected(rows, user, lo, hi);
    var out := SortByDue(s);
    assert forall r :: r in out <==> r in multiset(out);
    assert forall r :: r in s <==> r in multiset(s);
    out
  }

  /** `list_assignments(from, to)`: the bounds parsed, `from` first, then the
      rows listed; a bound that does not parse fails the request. */
  function ListAssignments(rows: seq<Row>, user: string, fromIso: string -> Option<Parsed>,
                           from: Option<string>, to: Option<string>): (r: Result<seq<Row>>)
    ensures r.Ok? <==> ParseIso(fromIso, from).Ok? && ParseIso(fromIso, to).Ok?
    ensures r.Ok? ==> r.value == ListRows(rows, user, ParseIso(fromIso, from).value, ParseIso(fromIso, to).value)
  {
    match ParseIso(fromIso, from)
    case Failed(e) => Failed(e)
    case Ok(lo) =>
      match ParseIso(fromIso, to)
      case Failed(e) => Failed(e)
      case Ok(hi) => Ok(ListRows(rows, user, lo, hi))
  }

  /** Without bounds the listing holds every row of the caller and no other. */
  lemma UnboundedListsAllOwnRows(rows: seq<Row>, user: string)
    ensures forall r :: r in ListRows(rows, user, None, None) <==> r in rows && r.userId == user
  {
  }

  /** Once a bound is given, rows without a due time are not listed. */
  lemma BoundDropsUndated(rows: seq<Row>, user: string, lo: Option<int>, hi: Option<int>)
    requires lo.Some? || hi.Some?
    ensures forall r :: r in ListRows(rows, user, lo, hi) ==> r.dueAt.Some?
  {
  }

  /** In the sorted listing every dated row comes before every undated one. */
  lemma UndatedLast(s: seq<Row>, i: nat, j: nat)
    requires SortedByDue(s) && i < |s| && j < |s| && s[i].dueAt.None? && s[j].dueAt.Some?
    ensures j < i
  {
  }
}

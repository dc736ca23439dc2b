/** The server's state and the handlers of app/main.py that change or read
    it: `upsert_bulk`, `get_share_url` and the lookup of `token_feed`. */
module Store {
  import opened Wrappers
  import opened Strings
  import opened Schema
  import opened Listing
  import opened Feeds

  /** The row `filter_by(user_id=user, source_uid=uid).one_or_none()` finds
      among `rows`, or -1; under the unique constraint there is at most one. */
  function Lookup(rows: seq<Row>, user: string, uid: string): (k: int)
    decreases |rows|
    ensures -1 <= k < |rows|
    ensures k >= 0 ==> rows[k].userId == user && rows[k].sourceUid == Some(uid)
    ensures k == -1 <==> forall i :: 0 <= i < |rows| ==> !(rows[i].userId == user && rows[i].sourceUid == Some(uid))
  {
    if rows == [] then -1
    else
      var k := Lookup(rows[..|rows| - 1], user, uid);
      var r := rows[|rows| - 1];
      if k >= 0 then k
      else if r.userId == user && r.sourceUid == Some(uid) then |rows| - 1
      else -1
  }

  /** The row an item updates, or -1 for an insert: only an item with a
      non-empty uid is looked up, and only among the rows `pre` present
      before the request, as the session does not flush pending inserts. */
  function Target(pre: seq<Row>, user: string, it: AssignmentIn): (k: int)
    ensures -1 <= k < |pre|
  {
    if Truthy(it.sourceUid) then Lookup(pre, user, it.sourceUid.value) else -1
  }

  /** The update branch: the item's title, course, kind and due time
      replace the row's; its id, owner, uid and status stay. */
  function Overwrite(row: Row, it: AssignmentIn): (r: Row)
    ensures r.id == row.id && r.userId == row.userId && r.sourceUid == row.sourceUid && r.status == row.status
    ensures r.title == it.title && r.course == it.course && r.kind == it.kind && r.dueAt == it.dueAt
  {
    row.(title := it.title, course := it.course, kind := it.kind, dueAt := it.dueAt)
  }

  /** The insert branch: a row of the caller with status "todo". */
  function NewRow(id: nat, user: string, it: AssignmentIn): Row
  {
    Row(id, user, it.sourceUid, it.title, it.course, it.kind, it.dueAt, "todo")
  }

  /** The rows present before the request, after the batch's updates. */
  function Updated(pre: seq<Row>, user: string, items: seq<AssignmentIn>): (rows: seq<Row>)
    decreases |items|
    ensures |rows| == |pre|
  {
    if items == [] then pre
    else
      var c := Updated(pre, user, items[..|items| - 1]);
      var it := items[|items| - 1];
      var k := Target(pre, user, it);
      if k >= 0 then c[k := Overwrite(c[k], it)] else c
  }

  /** The rows the batch inserts, numbered from `firstId` in item order. */
  function Inserted(pre: seq<Row>, user: string, items: seq<AssignmentIn>, firstId: nat): seq<Row>
    decreases |items|
  {
    if items == [] then []
    else
      var a := Inserted(pre, user, items[..|items| - 1], firstId);
      var it := items[|items| - 1];
      if Target(pre, user, it) >= 0 then a else a + [NewRow(firstId + |a|, user, it)]
  }

  /** How many items take the update branch. */
  function UpdateCount(pre: seq<Row>, user: string, items: seq<AssignmentIn>): nat
    decreases |items|
  {
    if items == [] then 0
    else UpdateCount(pre, user, items[..|items| - 1]) + (if Target(pre, user, items[|items| - 1]) >= 0 then 1 else 0)
  }

  /** The table the commit would write. */
  function AfterUpsert(pre: seq<Row>, user: string, items: seq<AssignmentIn>, firstId: nat): seq<Row>
  {
    Updated(pre, user, items) + Inserted(pre, user, items, firstId)
  }

  /** One more item: what the three folds do with it. */
  lemma UpsertStep(pre: seq<Row>, user: string, items: seq<AssignmentIn>, firstId: nat, k: nat)
    requires k < |items|
    ensures var it := items[k];
      var t := Target(pre, user, it);
      var c := Updated(pre, user, items[..k]);
      var a := Inserted(pre, user, items[..k], firstId);
      && Updated(pre, user, items[..k + 1]) == (if t >= 0 then c[t := Overwrite(c[t], it)] else c)
      && Inserted(pre, user, items[..k + 1], firstId) == (if t >= 0 then a else a + [NewRow(firstId + |a|, user, it)])
      && UpdateCount(pre, user, items[..k + 1]) == UpdateCount(pre, user, items[..k]) + (if t >= 0 then 1 else 0)
  {
    assert items[..k + 1][..k] == items[..k];
  }

  /** Every item is counted once: `imported + updated` is the batch size. */
  lemma {:induction false} CountsAddUp(pre: seq<Row>, user: string, items: seq<AssignmentIn>, firstId: nat)
    decreases |items|
    ensures |Inserted(pre, user, items, firstId)| + UpdateCount(pre, user, items) == |items|
  {
    if items != [] {
      CountsAddUp(pre, user, items[..|items| - 1], firstId);
    }
  }

  /** The updates keep every row's id, owner, uid and status, and leave the
      rows of other users exactly as they were. */
  lemma {:induction false} UpdatedKeeps(pre: seq<Row>, user: string, items: seq<AssignmentIn>)
    decreases |items|
    ensures var rows := Updated(pre, user, items);
      forall i :: 0 <= i < |pre| ==>
        && rows[i].id == pre[i].id && rows[i].userId == pre[i].userId
        && rows[i].sourceUid == pre[i].sourceUid && rows[i].status == pre[i].status
        && (pre[i].userId != user ==> rows[i] == pre[i])
  {
    if items != [] {
      UpdatedKeeps(pre, user, items[..|items| - 1]);
    }
  }

  /** The last item aimed at row `i`, or -1. */
  function LastFor(pre: seq<Row>, user: string, items: seq<AssignmentIn>, i: nat): (k: int)
    decreases |items|
    ensures -1 <= k < |items|
    ensures k >= 0 ==> Target(pre, user, items[k]) == i && forall j :: k < j < |items| ==> Target(pre, user, items[j]) != i
    ensures k == -1 ==> forall j :: 0 <= j < |items| ==> Target(pre, user, items[j]) != i
  {
    if items == [] then -1
    else if Target(pre, user, items[|items| - 1]) == i then |items| - 1
    else
      var k := LastFor(pre, user, items[..|items| - 1], i);
      assert forall j :: 0 <= j < |items| - 1 ==> items[..|items| - 1][j] == items[j];
      k
  }

  /** The last write wins: a row the batch aims at carries the fields of the
      last item aimed at it, and any other row is untouched. */
  lemma {:induction false} LastWriteWins(pre: seq<Row>, user: string, items: seq<AssignmentIn>, i: nat)
    requires i < |pre|
    decreases |items|
    ensures var k := LastFor(pre, user, items, i);
      Updated(pre, user, items)[i] == if k == -1 then pre[i] else Overwrite(pre[i], items[k])
  {
    if items != [] {
      var init := items[..|items| - 1];
      LastWriteWins(pre, user, init, i);
    }
  }

  /** The inserted rows belong to the caller, have status "todo" and take
      consecutive ids from `firstId`. */
  lemma {:induction false} InsertedShape(pre: seq<Row>, user: string, items: seq<AssignmentIn>, firstId: nat)
    decreases |items|
    ensures forall k :: 0 <= k < |Inserted(pre, user, items, firstId)| ==>
      && Inserted(pre, user, items, firstId)[k].userId == user
      && Inserted(pre, user, items, firstId)[k].status == "todo"
      && Inserted(pre, user, items, firstId)[k].id == firstId + k
  {
    if items != [] {
      InsertedShape(pre, user, items[..|items| - 1], firstId);
    }
  }

  /** A batch without uids only inserts, one row per item. */
  lemma {:induction false} NoUidsOnlyInsert(pre: seq<Row>, user: string, items: seq<AssignmentIn>, firstId: nat)
    requires forall k :: 0 <= k < |items| ==> !Truthy(items[k].sourceUid)
    decreases |items|
    ensures Updated(pre, user, items) == pre && UpdateCount(pre, user, items) == 0
    ensures |Inserted(pre, user, items, firstId)| == |items|
  {
    if items != [] {
      NoUidsOnlyInsert(pre, user, items[..|items| - 1], firstId);
    }
  }

  /** The rows inserted for a prefix of the batch are a prefix of those
      inserted for the batch. */
  lemma {:induction false} InsertedPrefix(pre: seq<Row>, user: string, items: seq<AssignmentIn>, firstId: nat, m: nat)
    requires m <= |items|
    decreases |items| - m
    ensures var a := Inserted(pre, user, items[..m], firstId);
      var b := Inserted(pre, user, items, firstId);
      |a| <= |b| && b[..|a|] == a
  {
    if m < |items| {
      InsertedPrefix(pre, user, items, firstId, m + 1);
      UpsertStep(pre, user, items, firstId, m);
      assert items[..|items|] == items;
    } else {
      assert items[..m] == items;
    }
  }

  /** An item that takes the insert branch has its row among the inserted
      ones, after the rows of the items before it. */
  lemma InsertedAt(pre: seq<Row>, user: string, items: seq<AssignmentIn>, firstId: nat, k: nat)
    requires k < |items| && Target(pre, user, items[k]) == -1
    ensures var p := |Inserted(pre, user, items[..k], firstId)|;
      var b := Inserted(pre, user, items, firstId);
      p < |b| && b[p] == NewRow(firstId + p, user, items[k])
  {
    UpsertStep(pre, user, items, firstId, k);
    InsertedPrefix(pre, user, items, firstId, k + 1);
  }

  /** Two items of one batch with the same uid that no stored row carries
      both take the insert branch, so the commit breaks the unique
      constraint and the request fails. */
  lemma DuplicateNewUidFails(pre: seq<Row>, user: string, items: seq<AssignmentIn>, firstId: nat, j: nat, k: nat)
    requires j < k < |items| && Truthy(items[j].sourceUid) && items[k].sourceUid == items[j].sourceUid
    requires Lookup(pre, user, items[j].sourceUid.value) == -1
    ensures !UniqueKeys(AfterUpsert(pre, user, items, firstId))
  {
    InsertedAt(pre, user, items, firstId, j);
    InsertedAt(pre, user, items, firstId, k);
    InsertedGrows(pre, user, items, firstId, j, k);
    var pj := |Inserted(pre, user, items[..j], firstId)|;
    var pk := |Inserted(pre, user, items[..k], firstId)|;
    var ins := Inserted(pre, user, items, firstId);
    assert ins[pj].sourceUid == ins[pk].sourceUid && ins[pj].userId == ins[pk].userId;
    KeyClash(Updated(pre, user, items), ins, pj, pk);
  }

  /** An item that inserts adds a row after those of the items before it. */
  lemma InsertedGrows(pre: seq<Row>, user: string, items: seq<AssignmentIn>, firstId: nat, j: nat, k: nat)
    requires j < k <= |items| && Target(pre, user, items[j]) == -1
    ensures |Inserted(pre, user, items[..j], firstId)| < |Inserted(pre, user, items[..k], firstId)|
  {
    var ik := items[..k];
    InsertedPrefix(pre, user, ik, firstId, j + 1);
    assert ik[..j + 1] == items[..j + 1];
    UpsertStep(pre, user, items, firstId, j);
  }

  /** An item whose uid is the empty string is never looked up, so when the
      caller already has a row with that uid the commit fails. */
  lemma EmptyUidCollides(pre: seq<Row>, user: string, items: seq<AssignmentIn>, firstId: nat, i: nat, k: nat)
    requires i < |pre| && pre[i].userId == user && pre[i].sourceUid == Some("")
    requires k < |items| && items[k].sourceUid == Some("")
    ensures !UniqueKeys(AfterUpsert(pre, user, items, firstId))
  {
    UpdatedKeeps(pre, user, items);
    InsertedAt(pre, user, items, firstId, k);
    var p := |Inserted(pre, user, items[..k], firstId)|;
    var after := AfterUpsert(pre, user, items, firstId);
    assert after[i].userId == user && after[i].sourceUid == Some("");
    assert after[|pre| + p] == NewRow(firstId + p, user, items[k]);
  }

  /** Ids stay distinct and below the next free id after an upsert. */
  lemma UpsertKeepsIds(pre: seq<Row>, user: string, items: seq<AssignmentIn>, firstId: nat)
    requires DistinctIds(pre) && forall i :: 0 <= i < |pre| ==> pre[i].id < firstId
    ensures var after := AfterUpsert(pre, user, items, firstId);
      DistinctIds(after) && forall i :: 0 <= i < |after| ==> after[i].id < firstId + |Inserted(pre, user, items, firstId)|
  {
    UpdatedKeeps(pre, user, items);
    InsertedShape(pre, user, items, firstId);
  }

  /** The loop of `upsert_bulk` before the commit: each item either
      overwrites the stored row of its uid, looked up among the rows `pre`
      present before the request, or is queued for insertion with the next
      id. */
  method StageBatch(pre: seq<Row>, user: string, items: seq<AssignmentIn>, firstId: nat)
    returns (cur: seq<Row>, pending: seq<Row>, imported: nat, updated: nat)
    ensures cur == Updated(pre, user, items) && pending == Inserted(pre, user, items, firstId)
    ensures imported == |pending| && updated == UpdateCount(pre, user, items)
  {
    cur := pre;
    pending := [];
    imported, updated := 0, 0;
    for k := 0 to |items|
      invariant cur == Updated(pre, user, items[..k])
      invariant pending == Inserted(pre, user, items[..k], firstId)
      invariant imported == |pending| && updated == UpdateCount(pre, user, items[..k])
    {
      var it := items[k];
      var idx := -1;
      if Truthy(it.sourceUid) {
        idx := Lookup(pre, user, it.sourceUid.value);
      }
      assert idx == Target(pre, user, it);
      UpsertStep(pre, user, items, firstId, k);
      ghost var next := Inserted(pre, user, items[..k + 1], firstId);
      if idx >= 0 {
        cur := cur[idx := Overwrite(cur[idx], it)];
        updated := updated + 1;
        assert pending == next;
      } else {
        pending := pending + [NewRow(firstId + |pending|, user, it)];
        imported := imported + 1;
        assert pending == next;
      }
    }
    assert items[..|items|] == items;
  }

  /** A share link: the user it belongs to and its token, if any. */
  datatype Link = Link(userId: string, shareToken: Option<string>)

  /** One link per user (the primary key) and no token on two links (the
      unique index). */
  predicate LinksValid(links: seq<Link>)
  {
    && (forall i, j :: 0 <= i < j < |links| ==> links[i].userId != links[j].userId)
    && (forall i, j :: 0 <= i < j < |links| && links[i].shareToken.Some? ==> links[i].shareToken != links[j].shareToken)
  }

  /** The link of `user`, or -1: `db.get(CalendarLink, user.id)`. */
  function LinkOf(links: seq<Link>, user: string): (k: int)
    decreases |links|
    ensures -1 <= k < |links|
    ensures k >= 0 ==> links[k].userId == user
    ensures k == -1 <==> forall i :: 0 <= i < |links| ==> links[i].userId != user
  {
    if links == [] then -1
    else
      var k := LinkOf(links[..|links| - 1], user);
      if k >= 0 then k else if links[|links| - 1].userId == user then |links| - 1 else -1
  }

  /** The first link whose token is `token`, or -1. */
  function TokenOwner(links: seq<Link>, token: string): (k: int)
    decreases |links|
    ensures -1 <= k < |links|
    ensures k >= 0 ==> links[k].shareToken == Some(token)
    ensures k == -1 <==> forall i :: 0 <= i < |links| ==> links[i].shareToken != Some(token)
  {
    if links == [] then -1
    else
      var k := TokenOwner(links[..|links| - 1], token);
      if k >= 0 then k else if links[|links| - 1].shareToken == Some(token) then |links| - 1 else -1
  }

  /** The feed address: the base URL without trailing slashes, then
      "/calendar/", the token and ".ics". */
  function ShareUrl(base: string, token: string): (url: string)
    ensures var b := RStrip(base, '/');
      url == b + "/calendar/" + token + ".ics" && (b == [] || b[|b| - 1] != '/')
  {
    RStrip(base, '/') + "/calendar/" + token + ".ics"
  }

  /** The links after `get_share_url` and its answer. */
  datatype Shared = Shared(links: seq<Link>, url: Result<string>)

  /** `get_share_url` for `user`, with `drawn` the token `secrets` would
      draw (22 URL-safe characters, never empty): the link is created (and committed) when missing; a link without
      a non-empty token gets `drawn`, which fails the second commit when
      another link already has it. */
  function Share(links: seq<Link>, user: string, base: string, drawn: string): (s: Shared)
    requires LinksValid(links) && drawn != ""
    ensures LinksValid(s.links) && LinkOf(s.links, user) >= 0
    ensures |s.links| == |links| + (if LinkOf(links, user) == -1 then 1 else 0)
    ensures forall i :: 0 <= i < |links| && links[i].userId != user ==> s.links[i] == links[i]
    ensures s.url.Ok? ==> var t := s.links[LinkOf(s.links, user)].shareToken;
      Truthy(t) && s.url.value == ShareUrl(base, t.value)
    ensures HasToken(links, user) ==>
      s == Shared(links, Ok(ShareUrl(base, links[LinkOf(links, user)].shareToken.value)))
    ensures s.url.Failed? <==> !HasToken(links, user) && TokenOwner(links, drawn) != -1
    ensures s.url.Failed? ==> s.links == WithLink(links, user)
    ensures !HasToken(links, user) && s.url.Ok? ==>
      s.links[LinkOf(s.links, user)].shareToken == Some(drawn) && s.url == Ok(ShareUrl(base, drawn))
  {
    TokenOwnerWithLink(links, user, drawn);
    var created := WithLink(links, user);
    var k := LinkOf(created, user);
    var t := created[k].shareToken;
    if Truthy(t) then Shared(created, Ok(ShareUrl(base, t.value)))
    else if TokenOwner(created, drawn) != -1 then Shared(created, Failed("IntegrityError: share_token"))
    else Shared(WithToken(created, user, drawn), Ok(ShareUrl(base, drawn)))
  }

  /** The user's link exists and carries a non-empty token. */
  predicate HasToken(links: seq<Link>, user: string)
  {
    LinkOf(links, user) >= 0 && Truthy(links[LinkOf(links, user)].shareToken)
  }

  /** The link the first commit adds has no token, so it owns no token. */
  lemma TokenOwnerWithLink(links: seq<Link>, user: string, token: string)
    requires LinksValid(links)
    ensures (TokenOwner(WithLink(links, user), token) == -1) == (TokenOwner(links, token) == -1)
  {
    var c := WithLink(links, user);
    if TokenOwner(c, token) != -1 {
      var k := TokenOwner(c, token);
      assert k < |links| && links[k].shareToken == Some(token);
    }
  }

  /** The first commit of `get_share_url`: a link without a token for a
      user who has none. */
  function WithLink(links: seq<Link>, user: string): (c: seq<Link>)
    requires LinksValid(links)
    ensures LinksValid(c) && LinkOf(c, user) >= 0
    ensures |c| == |links| + (if LinkOf(links, user) == -1 then 1 else 0)
    ensures forall i :: 0 <= i < |links| ==> c[i] == links[i]
    ensures LinkOf(links, user) >= 0 ==> c == links
  {
    if LinkOf(links, user) == -1 then
      var c := links + [Link(user, None)];
      assert c[..|c| - 1] == links;
      c
    else links
  }

  /** The second commit: the user's link gets the token `drawn`, which no
      link has yet. */
  function WithToken(links: seq<Link>, user: string, drawn: string): (u: seq<Link>)
    requires LinksValid(links) && LinkOf(links, user) >= 0 && TokenOwner(links, drawn) == -1
    ensures LinksValid(u) && |u| == |links| && LinkOf(u, user) == LinkOf(links, user)
    ensures forall i :: 0 <= i < |links| && links[i].userId != user ==> u[i] == links[i]
    ensures u[LinkOf(links, user)].shareToken == Some(drawn)
  {
    var k := LinkOf(links, user);
    var u := links[k := Link(user, Some(drawn))];
    assert forall i :: 0 <= i < |u| && i != k ==> u[i] == links[i];
    LinkOfUnique(u, user, k);
    u
  }

  /** Under one link per user the link found is the only one. */
  lemma LinkOfUnique(links: seq<Link>, user: string, k: nat)
    requires k < |links| && links[k].userId == user
    requires forall i :: 0 <= i < |links| && i != k ==> links[i].userId != user
    ensures LinkOf(links, user) == k
  {
  }

  /** Asking again returns the same URL and changes nothing, whatever token
      would be drawn the second time. */
  lemma ShareIdempotent(links: seq<Link>, user: string, base: string, drawn: string, again: string)
    requires LinksValid(links) && drawn != "" && again != "" && Share(links, user, base, drawn).url.Ok?
    ensures var s := Share(links, user, base, drawn);
      Share(s.links, user, base, again) == s
  {
  }

  /** Another user's `get_share_url` leaves this user's link as it was, so a
      user who has a token gets the same URL, with nothing changed, whatever
      other users ask for in between. */
  lemma OtherSharesKeepToken(links: seq<Link>, user: string, other: string, base: string, drawn: string, again: string)
    requires LinksValid(links) && drawn != "" && again != "" && user != other && HasToken(links, user)
    ensures var s := Share(links, other, base, drawn);
      && HasToken(s.links, user) && s.links[LinkOf(s.links, user)] == links[LinkOf(links, user)]
      && Share(s.links, user, base, again) == Shared(s.links, Share(links, user, base, drawn).url)
  {
    var s := Share(links, other, base, drawn);
    var k := LinkOf(links, user);
    assert s.links[k] == links[k];
    LinkOfUnique(s.links, user, k);
  }

  /** Where `token_feed` goes: no link has the token, or the calendar of the
      owner's rows. */
  datatype FeedResponse = NotFound | Feed(calendar: Calendar)

  /** `token_feed(token)` at time `now`: 404 when no link has the token,
      otherwise the owner's rows in listing order built into a calendar of
      future events with alarms. */
  function FeedFor(rows: seq<Row>, links: seq<Link>, token: string, now: int): FeedResponse
  {
    var k := TokenOwner(links, token);
    if k == -1 then NotFound
    else Feed(Calendar(ProductId, Version, CalendarName, Events(ListRows(rows, links[k].userId, None, None), true, true, now)))
  }

  /** An unknown token is 404; a known one gives only events of its owner's
      rows that are not yet past. */
  lemma FeedProperties(rows: seq<Row>, links: seq<Link>, token: string, now: int)
    ensures (forall i :: 0 <= i < |links| ==> links[i].shareToken != Some(token)) <==> FeedFor(rows, links, token, now).NotFound?
    ensures FeedFor(rows, links, token, now).Feed? ==>
      var owner := links[TokenOwner(links, token)].userId;
      forall e :: e in FeedFor(rows, links, token, now).calendar.events ==>
        exists r :: r in rows && r.userId == owner && Kept(r, true, now) && e == EventOf(r, true, now)
  {
    var k := TokenOwner(links, token);
    if k != -1 {
      var own := ListRows(rows, links[k].userId, None, None);
      var kept := KeptRows(own, true, now);
      var es := Events(own, true, true, now);
      forall e | e in es
        ensures exists r :: r in rows && r.userId == links[k].userId && Kept(r, true, now) && e == EventOf(r, true, now)
      {
        var p :| 0 <= p < |es| && es[p] == e;
        assert kept[p] in kept;
      }
    }
  }

  /** The database: the `assignments` rows, the next id the table hands
      out, and the `calendar_links` rows. */
  class Database {
    var rows: seq<Row>
    var nextId: nat
    var links: seq<Link>

    ghost predicate Valid()
      reads this
    {
      && UniqueKeys(rows) && DistinctIds(rows)
      && (forall i :: 0 <= i < |rows| ==> rows[i].id < nextId)
      && LinksValid(links)
    }

    constructor ()
      ensures Valid() && rows == [] && links == []
    {
      rows := [];
      nextId := 1;
      links := [];
    }

    /** `upsert_bulk(items)` for `user`: one pass over the items, each
        updating the stored row of its uid or queued for insertion; then the
        commit, which either writes all of it or, on a constraint
        violation, nothing. The answer is (imported, updated). */
    method UpsertBulk(user: string, items: seq<AssignmentIn>) returns (r: Result<(nat, nat)>)
      requires Valid()
      modifies this
      ensures Valid() && links == old(links)
      ensures var after := AfterUpsert(old(rows), user, items, old(nextId));
        var ins := Inserted(old(rows), user, items, old(nextId));
        if UniqueKeys(after) then
          rows == after && nextId == old(nextId) + |ins|
          && r == Ok((|ins|, UpdateCount(old(rows), user, items)))
        else
          rows == old(rows) && nextId == old(nextId) && r.Failed?
    {
      var pre := rows;
      var cur, pending, imported, updated := StageBatch(pre, user, items, nextId);
      if !UniqueKeys(cur + pending) {
        return Failed("IntegrityError: uq_assignment_source");
      }
      UpsertKeepsIds(pre, user, items, nextId);
      rows := cur + pending;
      nextId := nextId + |pending|;
      r := Ok((imported, updated));
    }

    /** `get_share_url` for `user` behind `base`, with `drawn` the token
        drawn for a link that has none. */
    method GetShareUrl(user: string, base: string, drawn: string) returns (url: Result<string>)
      requires Valid() && drawn != ""
      modifies this
      ensures Valid() && rows == old(rows) && nextId == old(nextId)
      ensures links == Share(old(links), user, base, drawn).links
      ensures url == Share(old(links), user, base, drawn).url
    {
      var k := LinkOf(links, user);
      if k == -1 {
        links := links + [Link(user, None)];
        k := |links| - 1;
        assert links[..k] == old(links);
      }
      assert links == WithLink(old(links), user) && k == LinkOf(links, user);
      var t := links[k].shareToken;
      if !Truthy(t) {
        if TokenOwner(links, drawn) != -1 {
          return Failed("IntegrityError: share_token");
        }
        ghost var created := links;
        links := links[k := Link(user, Some(drawn))];
        assert links == WithToken(created, user, drawn);
        t := Some(drawn);
      }
      url := Ok(RStrip(base, '/') + "/calendar/" + t.value + ".ics");
    }

    /** `token_feed(token)` at time `now`. */
    method TokenFeed(token: string, now: int) returns (resp: FeedResponse)
      ensures resp == FeedFor(rows, links, token, now)
    {
      var k := TokenOwner(links, token);
      if k == -1 {
        return NotFound;
      }
      var own := ListRows(rows, links[k].userId, None, None);
      var cal := BuildIcs(own, true, true, now);
      return Feed(cal);
    }
  }
}

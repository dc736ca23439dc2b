/** What the scrapers of extension/content.js read and what they produce: the
    page as a snapshot instead of a DOM, the options, and the scraped items. */
module PageModel {
  import opened Wrappers
  import opened Strings
  import DateResolver

  /** The options the popup passes: `includeAll` and `defaultTime`. */
  datatype Prefs = Prefs(includeAll: bool, defaultTime: Option<string>)

  /** What a scraper reads besides the page: the options, the current year
      (`new Date().getFullYear()`) and the browser's date functions. */
  datatype Env = Env(prefs: Prefs, year: nat, host: DateResolver.Host)

  /** A row of the calendar list: its `innerText`, and the `innerText` of its
      first link, when it has one. */
  datatype ListRow = ListRow(text: string, link: Option<string>)

  /** A table: the texts of its header cells, and of the cells of each body row. */
  datatype Table = Table(headers: seq<string>, rows: seq<seq<string>>)

  /** The page: `location.pathname`, `location.href`, the calendar-list rows,
      the tables, and the `innerText`s of the candidate nodes under the
      "Upcoming events" heading (`None` when there is no such heading). */
  datatype Page = Page(
    pathname: string,
    href: string,
    listRows: seq<ListRow>,
    tables: seq<Table>,
    upcoming: Option<seq<string>>)

  /** A scraped record: what the extension posts as one assignment. */
  datatype Item = Item(title: string, course: Option<string>, dueAt: Option<string>, kind: string, sourceUid: string)

  /** The "Available"-only filter: with `includeAll` off, a title that
      mentions "available" but not "due", in any ASCII case, is dropped. */
  predicate Unavailable(prefs: Prefs, title: string)
  {
    !prefs.includeAll && Contains(Lower(title), "available") && !Contains(Lower(title), "due")
  }

  /** The uids of a list of items. */
  function UidsOf(xs: seq<Item>): (u: set<string>)
    decreases |xs|
    ensures forall i :: 0 <= i < |xs| ==> xs[i].sourceUid in u
  {
    if xs == [] then {} else UidsOf(xs[..|xs| - 1]) + {xs[|xs| - 1].sourceUid}
  }

  /** A uid no item carries is not among the uids. */
  lemma {:induction false} NotInUids(xs: seq<Item>, uid: string)
    requires forall i :: 0 <= i < |xs| ==> xs[i].sourceUid != uid
    decreases |xs|
    ensures uid !in UidsOf(xs)
  {
    if xs != [] {
      NotInUids(xs[..|xs| - 1], uid);
    }
  }

  /** The uid the calendar and home scrapers build: a prefix, then the year,
      the month number, the day number and the first 64 characters of the
      lower-cased title, joined by dashes. */
  function DatedUid(prefix: string, year: nat, month: nat, day: nat, title: string): string
  {
    prefix + NatToString(year) + "-" + NatToString(month) + "-" + NatToString(day) + "-" + Take(Lower(title), 64)
  }

  /** Two such uids with one prefix are equal only for the same year, month
      and day and the same title start: items dated differently never share
      a uid, and the `seen` test drops only a same-dated item. */
  lemma DatedUidInjective(prefix: string, y: nat, m: nat, d: nat, t: string, y': nat, m': nat, d': nat, t': string)
    requires DatedUid(prefix, y, m, d, t) == DatedUid(prefix, y', m', d', t')
    ensures y == y' && m == m' && d == d' && Take(Lower(t), 64) == Take(Lower(t'), 64)
  {
    var r, r' := DatedUidRest(y, m, d, t), DatedUidRest(y', m', d', t');
    assert prefix + r == prefix + r';
    assert r == (prefix + r)[|prefix|..] && r' == (prefix + r')[|prefix|..];
    DatedUidRestInjective(y, m, d, t, y', m', d', t');
  }

  /** A dated uid after its prefix, grouped from the right. */
  function DatedUidRest(year: nat, month: nat, day: nat, title: string): (r: string)
    ensures forall prefix :: DatedUid(prefix, year, month, day, title) == prefix + r
  {
    NatToString(year) + "-" + (NatToString(month) + "-" + (NatToString(day) + "-" + Take(Lower(title), 64)))
  }

  /** The part of a dated uid after its prefix determines the date and the title start. */
  lemma DatedUidRestInjective(y: nat, m: nat, d: nat, t: string, y': nat, m': nat, d': nat, t': string)
    requires DatedUidRest(y, m, d, t) == DatedUidRest(y', m', d', t')
    ensures y == y' && m == m' && d == d' && Take(Lower(t), 64) == Take(Lower(t'), 64)
  {
    var ms, ds, ts := NatToString(m), NatToString(d), Take(Lower(t), 64);
    var ms', ds', ts' := NatToString(m'), NatToString(d'), Take(Lower(t'), 64);
    DateResolver.DigitsThenDash(NatToString(y), ms + "-" + (ds + "-" + ts), NatToString(y'), ms' + "-" + (ds' + "-" + ts'));
    DateResolver.DigitsThenDash(ms, ds + "-" + ts, ms', ds' + "-" + ts');
    DateResolver.DigitsThenDash(ds, ts, ds', ts');
    NatToStringInjective(y, y');
    NatToStringInjective(m, m');
    NatToStringInjective(d, d');
  }

  /** No two items share a uid. */
  predicate UidsDistinct(xs: seq<Item>)
  {
    forall i, j :: 0 <= i < j < |xs| ==> xs[i].sourceUid != xs[j].sourceUid
  }

  /** The `seen`-set loop: the items in order, each kept unless an item with
      its uid was kept before it. */
  function DedupFirst(xs: seq<Item>): (r: seq<Item>)
    decreases |xs|
    ensures |r| <= |xs|
  {
    if xs == [] then []
    else
      var d := DedupFirst(xs[..|xs| - 1]);
      var x := xs[|xs| - 1];
      if x.sourceUid in UidsOf(d) then d else d + [x]
  }

  /** The deduplicated items carry distinct uids, every one of them is an
      input item, and every input uid is still present. */
  lemma {:induction false} DedupFirstProperties(xs: seq<Item>)
    decreases |xs|
    ensures UidsDistinct(DedupFirst(xs))
    ensures forall i :: 0 <= i < |DedupFirst(xs)| ==> DedupFirst(xs)[i] in xs
    ensures UidsOf(DedupFirst(xs)) == UidsOf(xs)
  {
    if xs != [] {
      var pre := xs[..|xs| - 1];
      var x := xs[|xs| - 1];
      DedupFirstProperties(pre);
      var d := DedupFirst(pre);
      assert UidsOf(xs) == UidsOf(pre) + {x.sourceUid};
      assert forall y :: y in pre ==> y in xs;
      if x.sourceUid !in UidsOf(d) {
        UidsOfSnoc(d, x);
        DistinctSnoc(d, x);
        assert forall k :: 0 <= k < |d| ==> (d + [x])[k] == d[k];
      }
    }
  }

  /** An item whose uid is new keeps the uids distinct. */
  lemma DistinctSnoc(d: seq<Item>, x: Item)
    requires UidsDistinct(d) && x.sourceUid !in UidsOf(d)
    ensures UidsDistinct(d + [x])
  {
    var e := d + [x];
    forall i, j | 0 <= i < j < |e|
      ensures e[i].sourceUid != e[j].sourceUid
    {
      assert e[i] == d[i];
      if j < |d| {
        assert e[j] == d[j];
      }
    }
  }

  /** One more item: the `seen` test of the loop. */
  lemma DedupStep(xs: seq<Item>, x: Item)
    ensures DedupFirst(xs + [x]) ==
      if x.sourceUid in UidsOf(DedupFirst(xs)) then DedupFirst(xs) else DedupFirst(xs) + [x]
  {
    assert (xs + [x])[..|xs|] == xs;
  }

  /** One step of a `seen`-set loop: item `x` is pushed, and its uid added
      to `seen`, exactly when no item with its uid was pushed before. */
  lemma SeenStep(xs: seq<Item>, out: seq<Item>, seen: set<string>, x: Item)
    requires out == DedupFirst(xs) && seen == UidsOf(out)
    ensures DedupFirst(xs + [x]) == if x.sourceUid in seen then out else out + [x]
    ensures x.sourceUid !in seen ==> UidsOf(out + [x]) == seen + {x.sourceUid}
  {
    DedupStep(xs, x);
    UidsOfSnoc(out, x);
  }

  /** One step of a `seen`-set loop over per-row results: the result `r` of
      row `i` is pushed exactly when it is an item whose uid is not in `seen`. */
  lemma PushStep(rs: seq<Option<Item>>, i: nat, out: seq<Item>, seen: set<string>, r: Option<Item>)
    requires i < |rs| && r == rs[i] && out == DedupFirst(Kept(rs[..i])) && seen == UidsOf(out)
    ensures DedupFirst(Kept(rs[..i + 1])) ==
      if r.Some? && r.value.sourceUid !in seen then out + [r.value] else out
    ensures r.Some? && r.value.sourceUid !in seen ==> UidsOf(out + [r.value]) == seen + {r.value.sourceUid}
  {
    KeptStep(rs, i);
    if r.Some? {
      assert Kept(rs[..i + 1]) == Kept(rs[..i]) + [r.value];
      SeenStep(Kept(rs[..i]), out, seen, r.value);
    } else {
      assert Kept(rs[..i + 1]) == Kept(rs[..i]) + [];
      assert Kept(rs[..i]) + [] == Kept(rs[..i]);
    }
  }

  /** The result of each candidate under the loop body `step`, in order. */
  function Results(step: string -> Option<Item>, xs: seq<string>): (rs: seq<Option<Item>>)
    ensures |rs| == |xs| && forall i :: 0 <= i < |xs| ==> rs[i] == step(xs[i])
  {
    seq(|xs|, i requires 0 <= i < |xs| => step(xs[i]))
  }

  /** A loop with a `seen` set over candidates: `step` gives each candidate's
      item, if any, and an item is pushed unless its uid was seen before. */
  method PushFirst(step: string -> Option<Item>, xs: seq<string>) returns (out: seq<Item>)
    ensures out == DedupFirst(Kept(Results(step, xs)))
  {
    ghost var rs := Results(step, xs);
    var seen: set<string> := {};
    out := [];
    var i := 0;
    assert rs[..i] == [];
    while i < |xs|
      invariant 0 <= i <= |xs|
      invariant out == DedupFirst(Kept(rs[..i]))
      invariant seen == UidsOf(out)
    {
      var r := step(xs[i]);
      PushStep(rs, i, out, seen, r);
      if r.Some? && r.value.sourceUid !in seen {
        seen := seen + {r.value.sourceUid};
        out := out + [r.value];
      }
      i := i + 1;
    }
    assert rs[..i] == rs;
  }

  /** One more item adds its uid. */
  lemma UidsOfSnoc(xs: seq<Item>, x: Item)
    ensures UidsOf(xs + [x]) == UidsOf(xs) + {x.sourceUid}
  {
    assert (xs + [x])[..|xs|] == xs;
  }

  /** An item whose uid no earlier item carries is kept. */
  lemma {:induction false} DedupKeepsFirst(xs: seq<Item>, i: nat)
    requires i < |xs|
    requires forall j :: 0 <= j < i ==> xs[j].sourceUid != xs[i].sourceUid
    decreases |xs|
    ensures xs[i] in DedupFirst(xs)
  {
    var pre := xs[..|xs| - 1];
    var d := DedupFirst(pre);
    if i < |xs| - 1 {
      assert pre[i] == xs[i];
      DedupKeepsFirst(pre, i);
    } else {
      DedupFirstProperties(pre);
      forall k | 0 <= k < |d|
        ensures d[k].sourceUid != xs[i].sourceUid
      {
        assert d[k] in pre;
        var j :| 0 <= j < |pre| && pre[j] == d[k];
        assert xs[j] == pre[j];
      }
      NotInUids(d, xs[i].sourceUid);
    }
  }

  /** The first occurrence wins: the one item kept with a uid is the first
      item that carries it. */
  lemma DedupFirstWins(xs: seq<Item>, i: nat)
    requires i < |xs|
    requires forall j :: 0 <= j < i ==> xs[j].sourceUid != xs[i].sourceUid
    ensures var r := DedupFirst(xs);
      xs[i] in r && forall k :: 0 <= k < |r| && r[k].sourceUid == xs[i].sourceUid ==> r[k] == xs[i]
  {
    DedupKeepsFirst(xs, i);
    DedupFirstProperties(xs);
    OnlyOneWithUid(DedupFirst(xs), xs[i]);
  }

  /** Under distinct uids an item is the only one that carries its uid. */
  lemma OnlyOneWithUid(r: seq<Item>, x: Item)
    requires UidsDistinct(r) && x in r
    ensures forall k :: 0 <= k < |r| && r[k].sourceUid == x.sourceUid ==> r[k] == x
  {
    var p :| 0 <= p < |r| && r[p] == x;
    forall k | 0 <= k < |r| && r[k].sourceUid == x.sourceUid
      ensures r[k] == x
    {
      assert k == p;
    }
  }

  /** The items of a run of per-row results, in order, the empty results
      left out. */
  function Kept(xs: seq<Option<Item>>): (r: seq<Item>)
    decreases |xs|
    ensures |r| <= |xs|
  {
    if xs == [] then []
    else
      var pre := Kept(xs[..|xs| - 1]);
      match xs[|xs| - 1]
      case None => pre
      case Some(it) => pre + [it]
  }

  /** Every kept item is one of the results. */
  lemma {:induction false} KeptFrom(xs: seq<Option<Item>>)
    decreases |xs|
    ensures forall it :: it in Kept(xs) ==> Some(it) in xs
  {
    if xs != [] {
      KeptFrom(xs[..|xs| - 1]);
      assert forall x :: x in xs[..|xs| - 1] ==> x in xs;
    }
  }

  /** Every item among the results is kept. */
  lemma {:induction false} KeptHas(xs: seq<Option<Item>>, i: nat)
    requires i < |xs| && xs[i].Some?
    decreases |xs|
    ensures xs[i].value in Kept(xs)
  {
    var pre := xs[..|xs| - 1];
    if i < |pre| {
      assert pre[i] == xs[i];
      KeptHas(pre, i);
    }
  }

  /** The uid of every result's item survives the `seen` test. */
  lemma KeptUidListed(rs: seq<Option<Item>>, i: nat)
    requires i < |rs| && rs[i].Some?
    ensures rs[i].value.sourceUid in UidsOf(DedupFirst(Kept(rs)))
  {
    var ks := Kept(rs);
    KeptHas(rs, i);
    DedupFirstProperties(ks);
    var k :| 0 <= k < |ks| && ks[k] == rs[i].value;
  }

  /** Each item after the `seen` test is the item of one of the results. */
  lemma DedupKeptFrom(rs: seq<Option<Item>>, j: nat)
    requires j < |DedupFirst(Kept(rs))|
    ensures exists k :: 0 <= k < |rs| && rs[k] == Some(DedupFirst(Kept(rs))[j])
  {
    KeptFrom(rs);
    DedupFirstProperties(Kept(rs));
    assert DedupFirst(Kept(rs))[j] in Kept(rs);
  }

  /** One more result: what `Kept` does with it. */
  lemma KeptStep(xs: seq<Option<Item>>, i: nat)
    requires i < |xs|
    ensures Kept(xs[..i + 1]) == Kept(xs[..i]) + (if xs[i].Some? then [xs[i].value] else [])
  {
    assert xs[..i + 1][..i] == xs[..i];
  }

  /** One step of a loop that pushes each result's item onto `out0`. */
  lemma AppendStep(rs: seq<Option<Item>>, i: nat, out0: seq<Item>, out: seq<Item>)
    requires i < |rs| && out == out0 + Kept(rs[..i])
    ensures out0 + Kept(rs[..i + 1]) == if rs[i].Some? then out + [rs[i].value] else out
  {
    KeptStep(rs, i);
    if rs[i].Some? {
      assert out0 + (Kept(rs[..i]) + [rs[i].value]) == out0 + Kept(rs[..i]) + [rs[i].value];
    } else {
      assert Kept(rs[..i]) + [] == Kept(rs[..i]);
    }
  }

  /** Keeping distributes over concatenation: nothing is merged or dropped
      across the seam. */
  lemma {:induction false} KeptConcat(a: seq<Option<Item>>, b: seq<Option<Item>>)
    decreases |b|
    ensures Kept(a + b) == Kept(a) + Kept(b)
  {
    if b == [] {
      assert a + b == a;
    } else {
      var b' := b[..|b| - 1];
      KeptConcat(a, b');
      assert (a + b)[..|a + b| - 1] == a + b';
      assert (a + b)[|a + b| - 1] == b[|b| - 1];
    }
  }

  /** An empty result leaves a run of results as if it were absent. */
  lemma KeptSkip(a: seq<Option<Item>>, b: seq<Option<Item>>)
    ensures Kept(a + [None] + b) == Kept(a + b)
  {
    KeptConcat(a + [None], b);
    KeptConcat(a, [None]);
    KeptConcat(a, b);
  }

  /** The lists one after another. */
  function Flatten(xss: seq<seq<Item>>): seq<Item>
    decreases |xss|
  {
    if xss == [] then [] else Flatten(xss[..|xss| - 1]) + xss[|xss| - 1]
  }

  /** Every item of the flattened list is in one of the lists. */
  lemma {:induction false} FlattenFrom(xss: seq<seq<Item>>)
    decreases |xss|
    ensures forall it :: it in Flatten(xss) ==> exists i :: 0 <= i < |xss| && it in xss[i]
  {
    if xss != [] {
      var pre := xss[..|xss| - 1];
      FlattenFrom(pre);
      forall it | it in Flatten(xss)
        ensures exists i :: 0 <= i < |xss| && it in xss[i]
      {
        if it in Flatten(pre) {
          var i :| 0 <= i < |pre| && it in pre[i];
          assert xss[i] == pre[i];
        } else {
          assert it in xss[|xss| - 1];
        }
      }
    }
  }

  /** One more list: what `Flatten` does with it. */
  lemma FlattenStep(xss: seq<seq<Item>>, i: nat)
    requires i < |xss|
    ensures Flatten(xss[..i + 1]) == Flatten(xss[..i]) + xss[i]
  {
    assert xss[..i + 1][..i] == xss[..i];
  }
}

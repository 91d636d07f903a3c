/**
 The Maven dependency audit: locked packages are looked up at an advisory service in batches
 of 100, further pages are followed by token, and anything unexpected fails the audit.
 */
module DependencyAudit {
  import opened Bytes
  import opened Json

  const BATCH := 100

  const MAX_FOLLOW_UPS := 100

  datatype Row = Row(name: string, version: string)

  datatype Query = Query(name: string, version: string, token: Option<string>)

  /** The service: any answer at all to any list of queries; `None` when the request fails. */
  type Service = seq<Query> -> Option<Json>

  /** What is read from one result: its advisory ids and the token of the next page. */
  datatype Page = Page(ids: set<string>, next: Option<string>)

  // ---- reading a response ----

  predicate IsAdvisory(v: Json)
  {
    v.Obj? && "id" in v.fields && v.fields["id"].Str? && v.fields["id"].s != ""
  }

  /** The advisory list of a result, empty when there is none. */
  function Advisories(fields: map<string, Json>): Json
  {
    if "vulns" in fields then fields["vulns"] else Arr([])
  }

  predicate WellFormed(v: Json)
  {
    && v.Obj? && "error" !in v.fields
    && Advisories(v.fields).Arr?
    && (forall i :: 0 <= i < |Advisories(v.fields).items| ==> IsAdvisory(Advisories(v.fields).items[i]))
    && ("next_page_token" in v.fields ==> v.fields["next_page_token"].Str? && v.fields["next_page_token"].s != "")
  }

  function ReadPage(v: Json): Page
    requires WellFormed(v)
  {
    var list := Advisories(v.fields).items;
    Page(set i | 0 <= i < |list| :: list[i].fields["id"].s,
         if "next_page_token" in v.fields then Some(v.fields["next_page_token"].s) else None)
  }

  function ReadPages(values: seq<Json>): (pages: Option<seq<Page>>)
    ensures pages.Some? ==> |pages.value| == |values|
  {
    if values == [] then Some([])
    else if !WellFormed(values[0]) then None
    else
      var rest := ReadPages(values[1..]);
      if rest.None? then None else Some([ReadPage(values[0])] + rest.value)
  }

  /** The pages of a response to `count` queries, if every one of them is usable. */
  function Results(response: Option<Json>, count: nat): (pages: Option<seq<Page>>)
    ensures pages.Some? ==> |pages.value| == count
  {
    if response.None? || !response.value.Obj? || "results" !in response.value.fields then None
    else
      var values := response.value.fields["results"];
      if !values.Arr? || |values.items| != count then None else ReadPages(values.items)
  }

  // ---- one package ----

  function QueryOf(row: Row, token: Option<string>): Query
  {
    Query(row.name, row.version, token)
  }

  /** A query asked on its own. */
  function Ask(service: Service, q: Query): Option<Page>
  {
    var pages := Results(service([q]), 1);
    if pages.None? then None else Some(pages.value[0])
  }

  /** Follows page tokens, collecting advisories; a repeated token or a 101st one fails. */
  function Follow(service: Service, row: Row, page: Page, tokens: set<string>, ids: set<string>): Option<set<string>>
    requires |tokens| <= MAX_FOLLOW_UPS
    decreases MAX_FOLLOW_UPS - |tokens|
  {
    if page.next.None? then Some(ids)
    else
      var token := page.next.value;
      if token in tokens || |tokens| >= MAX_FOLLOW_UPS then None
      else
        var next := Ask(service, QueryOf(row, Some(token)));
        if next.None? then None
        else Follow(service, row, next.value, tokens + {token}, ids + next.value.ids)
  }

  function FollowAll(service: Service, rows: seq<Row>, pages: seq<Page>): Option<seq<set<string>>>
    requires |rows| == |pages|
  {
    if rows == [] then Some([])
    else
      var first := Follow(service, rows[0], pages[0], {}, pages[0].ids);
      var rest := FollowAll(service, rows[1..], pages[1..]);
      if first.None? || rest.None? then None else Some([first.value] + rest.value)
  }

  // ---- the audit in batches ----

  function Queries(rows: seq<Row>): (qs: seq<Query>)
    ensures |qs| == |rows|
  {
    seq(|rows|, i requires 0 <= i < |rows| => QueryOf(rows[i], None))
  }

  function FirstBatch(rows: seq<Row>): nat
  {
    if |rows| < BATCH then |rows| else BATCH
  }

  function AuditBatch(service: Service, rows: seq<Row>): Option<seq<set<string>>>
  {
    var pages := Results(service(Queries(rows)), |rows|);
    if pages.None? then None else FollowAll(service, rows, pages.value)
  }

  /** The advisories of every row, in order, or `None` when the audit fails. */
  function Audit(service: Service, rows: seq<Row>): Option<seq<set<string>>>
    decreases |rows|
  {
    if rows == [] then Some([])
    else
      var n := FirstBatch(rows);
      var first := AuditBatch(service, rows[..n]);
      var rest := Audit(service, rows[n..]);
      if first.None? || rest.None? then None else Some(first.value + rest.value)
  }

  // ---- the simple audit: one package at a time ----

  /** The response holds, for each query in turn, what `answer` says about it. */
  ghost predicate AnswersEach(response: Option<Json>, qs: seq<Query>, answer: Query -> Json)
  {
    && response.Some? && response.value.Obj? && "results" in response.value.fields
    && response.value.fields["results"].Arr? && |response.value.fields["results"].items| == |qs|
    && forall i :: 0 <= i < |qs| ==> response.value.fields["results"].items[i] == answer(qs[i])
  }

  /** `service` answers every query on its own terms, whatever else is in the batch. */
  ghost predicate Independent(service: Service, answer: Query -> Json)
  {
    forall qs: seq<Query> :: AnswersEach(service(qs), qs, answer)
  }

  function AuditOne(service: Service, row: Row): Option<set<string>>
  {
    var page := Ask(service, QueryOf(row, None));
    if page.None? then None else Follow(service, row, page.value, {}, page.value.ids)
  }

  function AuditEach(service: Service, rows: seq<Row>): Option<seq<set<string>>>
  {
    if rows == [] then Some([])
    else
      var first := AuditOne(service, rows[0]);
      var rest := AuditEach(service, rows[1..]);
      if first.None? || rest.None? then None else Some([first.value] + rest.value)
  }

  lemma AskIsAnswer(service: Service, answer: Query -> Json, q: Query)
    requires Independent(service, answer)
    ensures Ask(service, q) == if WellFormed(answer(q)) then Some(ReadPage(answer(q))) else None
  {
    assert AnswersEach(service([q]), [q], answer);
    var items := service([q]).value.fields["results"].items;
    assert items[0] == answer([q][0]) && items[1..] == [];
    assert ReadPages(items) == if WellFormed(items[0]) then Some([ReadPage(items[0])] + []) else None;
  }

  /** Reading a batch and following each row is auditing each row. */
  lemma {:induction false} PagesThenFollow(service: Service, answer: Query -> Json, rows: seq<Row>, values: seq<Json>)
    requires Independent(service, answer) && |values| == |rows|
    requires forall i :: 0 <= i < |rows| ==> values[i] == answer(QueryOf(rows[i], None))
    ensures AuditEach(service, rows)
         == if ReadPages(values).None? then None else FollowAll(service, rows, ReadPages(values).value)
  {
    if rows != [] {
      AskIsAnswer(service, answer, QueryOf(rows[0], None));
      PagesThenFollow(service, answer, rows[1..], values[1..]);
      if ReadPages(values).Some? {
        assert ReadPages(values).value[1..] == ReadPages(values[1..]).value;
      }
    }
  }

  lemma BatchIsEach(service: Service, answer: Query -> Json, rows: seq<Row>)
    requires Independent(service, answer)
    ensures AuditBatch(service, rows) == AuditEach(service, rows)
  {
    var qs := Queries(rows);
    assert AnswersEach(service(qs), qs, answer);
    PagesThenFollow(service, answer, rows, service(qs).value.fields["results"].items);
  }

  lemma {:induction false} EachConcat(service: Service, a: seq<Row>, b: seq<Row>)
    ensures AuditEach(service, a + b)
         == if AuditEach(service, a).None? || AuditEach(service, b).None? then None
            else Some(AuditEach(service, a).value + AuditEach(service, b).value)
  {
    if a == [] {
      assert a + b == b;
      assert AuditEach(service, b).Some? ==> [] + AuditEach(service, b).value == AuditEach(service, b).value;
    } else {
      EachConcat(service, a[1..], b);
      assert (a + b)[0] == a[0] && (a + b)[1..] == a[1..] + b;
      if AuditEach(service, a).Some? && AuditEach(service, b).Some? {
        ConcatAssoc([AuditOne(service, a[0]).value], AuditEach(service, a[1..]).value, AuditEach(service, b).value);
      }
    }
  }

  /**
   Batching and paging are invisible: against a service that answers each query on its own,
   the audit gives what asking for every package separately gives, row by row and in order.
   */
  lemma {:induction false} AuditIsEach(service: Service, answer: Query -> Json, rows: seq<Row>)
    requires Independent(service, answer)
    ensures Audit(service, rows) == AuditEach(service, rows)
    decreases |rows|
  {
    if rows != [] {
      var n := FirstBatch(rows);
      BatchIsEach(service, answer, rows[..n]);
      AuditIsEach(service, answer, rows[n..]);
      assert rows[..n] + rows[n..] == rows;
      EachConcat(service, rows[..n], rows[n..]);
    }
  }

  // ---- when a package can be audited ----

  ghost function AllIds(pages: seq<Page>): set<string>
  {
    if pages == [] then {} else pages[0].ids + AllIds(pages[1..])
  }

  ghost predicate LinkAt(service: Service, row: Row, pages: seq<Page>, i: nat)
    requires i + 1 < |pages|
  {
    pages[i].next.Some? && Ask(service, QueryOf(row, pages[i].next)) == Some(pages[i + 1])
  }

  /** `pages` run from the first to the last, each found under the token of the one before. */
  ghost predicate Linked(service: Service, row: Row, pages: seq<Page>)
  {
    && |pages| > 0 && pages[|pages| - 1].next.None?
    && forall i :: 0 <= i < |pages| - 1 ==> LinkAt(service, row, pages, i)
  }

  /** No token comes twice or was used before, and together there are at most 100. */
  ghost predicate Bounded(pages: seq<Page>, tokens: set<string>)
  {
    && |tokens| + |pages| - 1 <= MAX_FOLLOW_UPS
    && (forall i, j :: 0 <= i < j < |pages| - 1 ==> pages[i].next != pages[j].next)
    && forall i :: 0 <= i < |pages| - 1 ==> pages[i].next.Some? && pages[i].next.value !in tokens
  }

  lemma LinkedMore(service: Service, row: Row, page: Page, rest: seq<Page>)
    requires |rest| > 0
    ensures Linked(service, row, [page] + rest) <==>
      page.next.Some? && Ask(service, QueryOf(row, page.next)) == Some(rest[0]) && Linked(service, row, rest)
  {
    var pages := [page] + rest;
    if Linked(service, row, pages) {
      assert LinkAt(service, row, pages, 0);
      forall i | 0 <= i < |rest| - 1
        ensures LinkAt(service, row, rest, i)
      {
        assert LinkAt(service, row, pages, i + 1);
      }
    }
    if page.next.Some? && Ask(service, QueryOf(row, page.next)) == Some(rest[0]) && Linked(service, row, rest) {
      forall i | 0 <= i < |pages| - 1
        ensures LinkAt(service, row, pages, i)
      {
        assert i == 0 || LinkAt(service, row, rest, i - 1);
      }
    }
  }

  lemma BoundedMore(page: Page, rest: seq<Page>, tokens: set<string>)
    requires |rest| > 0 && page.next.Some?
    ensures Bounded([page] + rest, tokens) <==>
      page.next.value !in tokens && Bounded(rest, tokens + {page.next.value})
  {
    var pages := [page] + rest;
    assert forall i :: 0 <= i < |rest| ==> pages[i + 1] == rest[i];
    if Bounded(pages, tokens) {
      assert pages[0].next.value !in tokens;
      forall i | 0 <= i < |rest| - 1
        ensures rest[i].next.Some? && rest[i].next.value !in tokens + {page.next.value}
      {
        assert pages[0].next != pages[i + 1].next;
      }
      forall i, j | 0 <= i < j < |rest| - 1
        ensures rest[i].next != rest[j].next
      {
        assert pages[i + 1].next != pages[j + 1].next;
      }
    }
    if page.next.value !in tokens && Bounded(rest, tokens + {page.next.value}) {
      assert |tokens + {page.next.value}| == |tokens| + 1;
      forall i | 0 <= i < |pages| - 1
        ensures pages[i].next.Some? && pages[i].next.value !in tokens
      {
        assert i == 0 || rest[i - 1].next.value !in tokens + {page.next.value};
      }
      forall i, j | 0 <= i < j < |pages| - 1
        ensures pages[i].next != pages[j].next
      {
        assert rest[j - 1].next.value !in tokens + {page.next.value};
        assert i == 0 || rest[i - 1].next != rest[j - 1].next;
      }
    }
  }

  lemma {:induction false} FollowGivesPages(service: Service, row: Row, page: Page, tokens: set<string>, ids: set<string>)
    returns (pages: seq<Page>)
    requires |tokens| <= MAX_FOLLOW_UPS && Follow(service, row, page, tokens, ids).Some?
    ensures Linked(service, row, pages) && pages[0] == page && Bounded(pages, tokens)
    ensures Follow(service, row, page, tokens, ids).value == ids + AllIds(pages[1..])
    decreases MAX_FOLLOW_UPS - |tokens|
  {
    if page.next.None? {
      pages := [page];
    } else {
      var token := page.next.value;
      var next := Ask(service, QueryOf(row, Some(token))).value;
      var rest := FollowGivesPages(service, row, next, tokens + {token}, ids + next.ids);
      LinkedMore(service, row, page, rest);
      BoundedMore(page, rest, tokens);
      pages := [page] + rest;
      assert pages[1..] == rest;
    }
  }

  lemma {:induction false} PagesLetFollow(service: Service, row: Row, page: Page, rest: seq<Page>, tokens: set<string>, ids: set<string>)
    requires Linked(service, row, [page] + rest) && Bounded([page] + rest, tokens)
    ensures |tokens| <= MAX_FOLLOW_UPS && Follow(service, row, page, tokens, ids) == Some(ids + AllIds(rest))
    decreases |rest|
  {
    if rest == [] {
      assert ([page] + rest)[0].next.None?;
    } else {
      LinkedMore(service, row, page, rest);
      BoundedMore(page, rest, tokens);
      assert rest == [rest[0]] + rest[1..];
      assert |tokens + {page.next.value}| == |tokens| + 1;
      PagesLetFollow(service, row, rest[0], rest[1..], tokens + {page.next.value}, ids + rest[0].ids);
      assert ids + rest[0].ids + AllIds(rest[1..]) == ids + AllIds(rest);
    }
  }

  /** `ids` are the advisories of a chain of usable pages that starts with `page` and has at most 100 distinct tokens. */
  ghost predicate ReadFrom(service: Service, row: Row, page: Page, ids: set<string>)
  {
    exists pages: seq<Page> :: Linked(service, row, pages) && Bounded(pages, {}) && pages[0] == page && ids == AllIds(pages)
  }

  lemma FollowExactlyWhen(service: Service, row: Row, page: Page, ids: set<string>)
    ensures Follow(service, row, page, {}, page.ids) == Some(ids) <==> ReadFrom(service, row, page, ids)
  {
    if Follow(service, row, page, {}, page.ids) == Some(ids) {
      var pages := FollowGivesPages(service, row, page, {}, page.ids);
      assert ids == AllIds(pages);
    }
    if ReadFrom(service, row, page, ids) {
      var pages: seq<Page> :| Linked(service, row, pages) && Bounded(pages, {}) && pages[0] == page && ids == AllIds(pages);
      assert pages == [page] + pages[1..];
      PagesLetFollow(service, row, page, pages[1..], {}, page.ids);
    }
  }

  /** A package asked for on its own has a result exactly when it can be read from its first page to its last. */
  lemma AuditOneExactlyWhen(service: Service, row: Row, ids: set<string>)
    ensures AuditOne(service, row) == Some(ids) <==>
      Ask(service, QueryOf(row, None)).Some? && ReadFrom(service, row, Ask(service, QueryOf(row, None)).value, ids)
  {
    hide Follow, ReadFrom;
    var page := Ask(service, QueryOf(row, None));
    if page.Some? {
      FollowExactlyWhen(service, row, page.value, ids);
    }
  }

  // ---- when the audit has a result, for any service ----

  /** What is found for every row, each from its own first page. */
  ghost predicate AllRead(service: Service, rows: seq<Row>, pages: seq<Page>, found: seq<set<string>>)
  {
    && |rows| == |pages| == |found|
    && forall i :: 0 <= i < |rows| ==> ReadFrom(service, rows[i], pages[i], found[i])
  }

  lemma AllReadMore(service: Service, rows: seq<Row>, pages: seq<Page>, found: seq<set<string>>)
    requires |rows| == |pages| == |found| > 0
    ensures AllRead(service, rows, pages, found) <==>
      ReadFrom(service, rows[0], pages[0], found[0]) && AllRead(service, rows[1..], pages[1..], found[1..])
  {
    hide ReadFrom;
    if ReadFrom(service, rows[0], pages[0], found[0]) && AllRead(service, rows[1..], pages[1..], found[1..]) {
      forall i | 0 <= i < |rows|
        ensures ReadFrom(service, rows[i], pages[i], found[i])
      {
        assert i > 0 ==> ReadFrom(service, rows[1..][i - 1], pages[1..][i - 1], found[1..][i - 1]);
      }
    }
    if AllRead(service, rows, pages, found) {
      forall i | 0 <= i < |rows| - 1
        ensures ReadFrom(service, rows[1..][i], pages[1..][i], found[1..][i])
      {
        assert ReadFrom(service, rows[i + 1], pages[i + 1], found[i + 1]);
      }
    }
  }

  lemma {:induction false} FollowAllExactlyWhen(service: Service, rows: seq<Row>, pages: seq<Page>, found: seq<set<string>>)
    requires |rows| == |pages|
    ensures FollowAll(service, rows, pages) == Some(found) <==> AllRead(service, rows, pages, found)
  {
    hide Follow, ReadFrom;
    if rows != [] {
      FollowAllLength(service, rows, pages);
      if |found| == |rows| {
        FollowExactlyWhen(service, rows[0], pages[0], found[0]);
        FollowAllExactlyWhen(service, rows[1..], pages[1..], found[1..]);
        AllReadMore(service, rows, pages, found);
        assert found == [found[0]] + found[1..];
      }
    }
  }

  function BatchAt(rows: seq<Row>, start: nat): seq<Row>
    requires start <= |rows|
  {
    rows[start..if start + BATCH < |rows| then start + BATCH else |rows|]
  }

  /** The batch in which row `i` is asked for. */
  function BatchOf(rows: seq<Row>, i: nat): (batch: seq<Row>)
    requires i < |rows|
    ensures i % BATCH < |batch| && batch[i % BATCH] == rows[i]
  {
    BatchAt(rows, i - i % BATCH)
  }

  /** The page that the answer to its batch gives row `i`; none if any part of that answer is unusable. */
  function FirstPage(service: Service, rows: seq<Row>, i: nat): Option<Page>
    requires i < |rows|
  {
    var batch := BatchOf(rows, i);
    var pages := Results(service(Queries(batch)), |batch|);
    if pages.None? then None else Some(pages.value[i % BATCH])
  }

  ghost predicate ReadInBatch(service: Service, rows: seq<Row>, i: nat, ids: set<string>)
    requires i < |rows|
  {
    FirstPage(service, rows, i).Some? && ReadFrom(service, rows[i], FirstPage(service, rows, i).value, ids)
  }

  lemma SliceLater<T>(s: seq<T>, n: nat, lo: nat, hi: nat)
    requires n <= lo <= hi <= |s|
    ensures s[lo..hi] == s[n..][lo - n..hi - n]
  {
  }

  lemma BatchLater(rows: seq<Row>, start: nat)
    requires BATCH <= start <= |rows|
    ensures BatchAt(rows, start) == BatchAt(rows[BATCH..], start - BATCH)
  {
    SliceLater(rows, BATCH, start, if start + BATCH < |rows| then start + BATCH else |rows|);
  }

  lemma PlaceLater(i: nat)
    requires BATCH <= i
    ensures i % BATCH == (i - BATCH) % BATCH && BATCH <= i - i % BATCH
  {
  }

  lemma LaterBatch(rows: seq<Row>, i: nat)
    requires BATCH <= i < |rows|
    ensures BatchOf(rows, i) == BatchOf(rows[BATCH..], i - BATCH) && i % BATCH == (i - BATCH) % BATCH
  {
    hide BatchAt;
    PlaceLater(i);
    BatchLater(rows, i - i % BATCH);
  }

  lemma EarlyBatch(rows: seq<Row>, i: nat)
    requires i < BATCH && i < |rows|
    ensures BatchOf(rows, i) == rows[..FirstBatch(rows)] && i % BATCH == i
  {
  }

  lemma FromBatch(service: Service, rows: seq<Row>, i: nat, ids: set<string>)
    requires i < |rows|
    ensures var n := FirstBatch(rows);
            ReadInBatch(service, rows, i, ids) <==>
              if i < n then
                var pages := Results(service(Queries(rows[..n])), n);
                pages.Some? && ReadFrom(service, rows[..n][i], pages.value[i], ids)
              else ReadInBatch(service, rows[n..], i - n, ids)
  {
    hide Results, ReadFrom, BatchOf, Queries;
    if i < BATCH {
      EarlyBatch(rows, i);
    } else {
      LaterBatch(rows, i);
    }
  }

  ghost predicate AllReadInBatch(service: Service, rows: seq<Row>, found: seq<set<string>>)
  {
    |found| == |rows| && forall i :: 0 <= i < |rows| ==> ReadInBatch(service, rows, i, found[i])
  }

  lemma BatchesMore(service: Service, rows: seq<Row>, found: seq<set<string>>)
    requires |found| == |rows| > 0
    ensures var n := FirstBatch(rows);
            AllReadInBatch(service, rows, found) <==>
              && Results(service(Queries(rows[..n])), n).Some?
              && AllRead(service, rows[..n], Results(service(Queries(rows[..n])), n).value, found[..n])
              && AllReadInBatch(service, rows[n..], found[n..])
  {
    hide Results, ReadFrom, ReadInBatch, Queries;
    var n := FirstBatch(rows);
    var pages := Results(service(Queries(rows[..n])), n);
    forall i: nat | i < |rows|
      ensures ReadInBatch(service, rows, i, found[i]) <==>
        if i < n then pages.Some? && ReadFrom(service, rows[..n][i], pages.value[i], found[..n][i])
        else ReadInBatch(service, rows[n..], i - n, found[n..][i - n])
    {
      FromBatch(service, rows, i, found[i]);
    }
    if AllReadInBatch(service, rows, found) {
      assert ReadInBatch(service, rows, 0, found[0]);
      forall i: nat | i < |rows| - n
        ensures ReadInBatch(service, rows[n..], i, found[n..][i])
      {
        assert ReadInBatch(service, rows, n + i, found[n + i]);
      }
    }
  }

  /**
   For any service whatever: the audit finds `found` exactly when every row can be read, from the
   page its batch was answered with to its last page, and `found` lists what was read.
   */
  lemma {:induction false} AuditExactlyWhen(service: Service, rows: seq<Row>, found: seq<set<string>>)
    ensures Audit(service, rows) == Some(found) <==> AllReadInBatch(service, rows, found)
    decreases |rows|
  {
    hide Results, AllRead, FollowAll, ReadInBatch;
    if rows != [] {
      var n := FirstBatch(rows);
      AuditLength(service, rows);
      if |found| == |rows| {
        var pages := Results(service(Queries(rows[..n])), n);
        if pages.Some? {
          FollowAllExactlyWhen(service, rows[..n], pages.value, found[..n]);
        }
        BatchLength(service, rows[..n]);
        AuditExactlyWhen(service, rows[n..], found[n..]);
        BatchesMore(service, rows, found);
        SplitSome(AuditBatch(service, rows[..n]), Audit(service, rows[n..]), found, n);
      }
    }
  }

  lemma SplitSome<T>(a: Option<seq<T>>, b: Option<seq<T>>, all: seq<T>, n: nat)
    requires n <= |all| && (a.Some? ==> |a.value| == n)
    ensures (a.Some? && b.Some? && a.value + b.value == all) <==> (a == Some(all[..n]) && b == Some(all[n..]))
  {
    assert all[..n] + all[n..] == all;
  }

  lemma {:induction false} AuditLength(service: Service, rows: seq<Row>)
    ensures Audit(service, rows).Some? ==> |Audit(service, rows).value| == |rows|
    decreases |rows|
  {
    hide AuditBatch;
    if rows != [] {
      var n := FirstBatch(rows);
      BatchLength(service, rows[..n]);
      AuditLength(service, rows[n..]);
    }
  }

  // ---- the audit as written ----

  datatype Report = Report(packages: nat, affected: nat, advisories: seq<set<string>>)

  function CountAffected(found: seq<set<string>>): nat
  {
    if found == [] then 0
    else CountAffected(found[..|found| - 1]) + if found[|found| - 1] != {} then 1 else 0
  }

  /** Further pages of one package. */
  method FollowPages(service: Service, row: Row, first: Page) returns (ids: Option<set<string>>)
    ensures ids == Follow(service, row, first, {}, first.ids)
  {
    var page, advisories, tokens := first, first.ids, {};
    while page.next.Some?
      invariant |tokens| <= MAX_FOLLOW_UPS
      invariant Follow(service, row, page, tokens, advisories) == Follow(service, row, first, {}, first.ids)
      decreases MAX_FOLLOW_UPS - |tokens|
    {
      var token := page.next.value;
      if token in tokens || |tokens| >= MAX_FOLLOW_UPS {
        return None;
      }
      tokens := tokens + {token};
      var pages := Results(service([QueryOf(row, Some(token))]), 1);
      if pages.None? {
        return None;
      }
      page := pages.value[0];
      advisories := advisories + page.ids;
    }
    return Some(advisories);
  }

  method RunBatch(service: Service, batch: seq<Row>) returns (found: Option<seq<set<string>>>)
    ensures found == AuditBatch(service, batch)
  {
    var pages := Results(service(Queries(batch)), |batch|);
    if pages.None? {
      return None;
    }
    var list := [];
    assert batch[0..] == batch && pages.value[0..] == pages.value;
    PrependNothing(FollowAll(service, batch, pages.value));
    for i := 0 to |batch|
      invariant |list| == i && FollowAll(service, batch, pages.value)
             == Prepend(list, FollowAll(service, batch[i..], pages.value[i..]))
    {
      assert batch[i..][1..] == batch[i + 1..] && pages.value[i..][1..] == pages.value[i + 1..];
      var ids := FollowPages(service, batch[i], pages.value[i]);
      if ids.None? {
        return None;
      }
      PrependTwice(list, [ids.value], FollowAll(service, batch[i + 1..], pages.value[i + 1..]));
      list := list + [ids.value];
    }
    assert list + [] == list;
    return Some(list);
  }

  function Prepend<T>(a: seq<T>, b: Option<seq<T>>): Option<seq<T>>
  {
    if b.None? then None else Some(a + b.value)
  }

  lemma PrependNothing<T>(b: Option<seq<T>>)
    ensures Prepend([], b) == b
  {
    if b.Some? {
      assert [] + b.value == b.value;
    }
  }

  lemma PrependTwice<T>(a: seq<T>, b: seq<T>, c: Option<seq<T>>)
    ensures Prepend(a, Prepend(b, c)) == Prepend(a + b, c)
  {
    if c.Some? {
      ConcatAssoc(a, b, c.value);
    }
  }

  /** The report, or `None` when anything at all went wrong. */
  method RunAudit(service: Service, rows: seq<Row>) returns (r: Option<Report>)
    ensures r.Some? <==> Audit(service, rows).Some?
    ensures r.Some? ==> r.value.advisories == Audit(service, rows).value && r.value.packages == |rows|
                        && r.value.affected == CountAffected(Audit(service, rows).value)
  {
    var list, offset := [], 0;
    assert rows[0..] == rows;
    PrependNothing(Audit(service, rows));
    while offset < |rows|
      invariant offset <= |rows| && |list| == offset
      invariant Audit(service, rows) == Prepend(list, Audit(service, rows[offset..]))
    {
      var n := FirstBatch(rows[offset..]);
      assert rows[offset..][..n] == rows[offset..offset + n] && rows[offset..][n..] == rows[offset + n..];
      var found := RunBatch(service, rows[offset..offset + n]);
      if found.None? {
        return None;
      }
      BatchLength(service, rows[offset..offset + n]);
      PrependTwice(list, found.value, Audit(service, rows[offset + n..]));
      list := list + found.value;
      offset := offset + n;
    }
    assert list + [] == list;
    return Some(Report(|list|, CountAffected(list), list));
  }

  lemma BatchLength(service: Service, rows: seq<Row>)
    ensures AuditBatch(service, rows).Some? ==> |AuditBatch(service, rows).value| == |rows|
  {
    var pages := Results(service(Queries(rows)), |rows|);
    if pages.Some? {
      FollowAllLength(service, rows, pages.value);
    }
  }

  lemma {:induction false} FollowAllLength(service: Service, rows: seq<Row>, pages: seq<Page>)
    requires |rows| == |pages|
    ensures FollowAll(service, rows, pages).Some? ==> |FollowAll(service, rows, pages).value| == |rows|
  {
    if rows != [] {
      FollowAllLength(service, rows[1..], pages[1..]);
    }
  }

  lemma {:induction false} NoneAffected(found: seq<set<string>>)
    ensures CountAffected(found) == 0 <==> AllEmpty(found)
  {
    if found != [] {
      NoneAffected(found[..|found| - 1]);
      assert found == found[..|found| - 1] + [found[|found| - 1]];
    }
  }

  predicate AllEmpty(found: seq<set<string>>)
  {
    forall i :: 0 <= i < |found| ==> found[i] == {}
  }

  /** The exit status: 2 when anything went wrong, 1 when a package has an advisory, else 0. */
  method Gate(service: Service, rows: seq<Row>) returns (status: int)
    ensures status == 0 || status == 1 || status == 2
    ensures status == 2 <==> Audit(service, rows).None?
    ensures status == 0 <==> Audit(service, rows).Some? && AllEmpty(Audit(service, rows).value)
  {
    var report := RunAudit(service, rows);
    if report.None? {
      return 2;
    }
    NoneAffected(Audit(service, rows).value);
    return if report.value.affected > 0 then 1 else 0;
  }

  // ---- what a clean audit means ----

  /** From `page` on every page of `row` was reached, within the bounds, and none lists an advisory. */
  ghost predicate CleanFrom(service: Service, row: Row, page: Page)
  {
    exists pages: seq<Page> :: && Linked(service, row, pages) && Bounded(pages, {}) && pages[0] == page
                               && forall i :: 0 <= i < |pages| ==> pages[i].ids == {}
  }

  ghost predicate FullyReadAndClean(service: Service, row: Row)
  {
    Ask(service, QueryOf(row, None)).Some? && CleanFrom(service, row, Ask(service, QueryOf(row, None)).value)
  }

  /** The same, read from the page that row `i` was given in its batch. */
  ghost predicate CleanInBatch(service: Service, rows: seq<Row>, i: nat)
    requires i < |rows|
  {
    FirstPage(service, rows, i).Some? && CleanFrom(service, rows[i], FirstPage(service, rows, i).value)
  }

  lemma {:induction false} NoIds(pages: seq<Page>)
    ensures AllIds(pages) == {} <==> forall i :: 0 <= i < |pages| ==> pages[i].ids == {}
  {
    if pages != [] {
      NoIds(pages[1..]);
      assert pages == [pages[0]] + pages[1..];
      assert forall i :: 0 <= i < |pages| - 1 ==> pages[1..][i] == pages[i + 1];
      assert forall i :: 0 < i < |pages| ==> pages[i] == pages[1..][i - 1];
    }
  }

  lemma CleanOne(service: Service, row: Row, page: Page)
    ensures ReadFrom(service, row, page, {}) <==> CleanFrom(service, row, page)
  {
    forall pages: seq<Page>
      ensures AllIds(pages) == {} <==> forall i :: 0 <= i < |pages| ==> pages[i].ids == {}
    {
      NoIds(pages);
    }
  }

  /** As many empty sets as there are rows. */
  ghost function Nothing(n: nat): (found: seq<set<string>>)
    ensures |found| == n && AllEmpty(found)
  {
    seq(n, _ => {})
  }

  /**
   The release gate, for any service: the audit comes out clean exactly when every package was
   read, from the page its batch was answered with to its last page, and no page lists an advisory.
   */
  lemma GateOpensExactlyWhen(service: Service, rows: seq<Row>)
    ensures (Audit(service, rows).Some? && AllEmpty(Audit(service, rows).value)) <==>
      forall i :: 0 <= i < |rows| ==> CleanInBatch(service, rows, i)
  {
    hide Audit, FirstPage, ReadFrom, CleanFrom, Nothing;
    var none := Nothing(|rows|);
    AuditLength(service, rows);
    if Audit(service, rows).Some? && AllEmpty(Audit(service, rows).value) {
      assert Audit(service, rows).value == none;
    }
    AuditExactlyWhen(service, rows, none);
    forall i: nat | i < |rows|
      ensures ReadInBatch(service, rows, i, none[i]) <==> CleanInBatch(service, rows, i)
    {
      if FirstPage(service, rows, i).Some? {
        CleanOne(service, rows[i], FirstPage(service, rows, i).value);
      }
    }
    assert AllReadInBatch(service, rows, none) <==> forall i :: 0 <= i < |rows| ==> ReadInBatch(service, rows, i, none[i]);
  }

  /** A service that answers each query on its own gives a row the page it would get alone, unless its batch is spoilt. */
  lemma PageAlone(service: Service, answer: Query -> Json, rows: seq<Row>, i: nat)
    requires Independent(service, answer) && i < |rows| && FirstPage(service, rows, i).Some?
    ensures Ask(service, QueryOf(rows[i], None)) == FirstPage(service, rows, i)
  {
    hide Independent, Ask, WellFormed, ReadPage;
    var batch, at := BatchOf(rows, i), i % BATCH;
    AnswersBatch(service, answer, Queries(batch));
    var values := service(Queries(batch)).value.fields["results"].items;
    PageAt(values, at);
    AskIsAnswer(service, answer, QueryOf(rows[i], None));
  }

  lemma AnswersBatch(service: Service, answer: Query -> Json, qs: seq<Query>)
    requires Independent(service, answer)
    ensures AnswersEach(service(qs), qs, answer)
  {
  }

  lemma {:induction false} PageAt(values: seq<Json>, i: nat)
    requires ReadPages(values).Some? && i < |values|
    ensures WellFormed(values[i]) && ReadPages(values).value[i] == ReadPage(values[i])
  {
    hide WellFormed, ReadPage;
    if i > 0 {
      PageAt(values[1..], i - 1);
    }
  }

  lemma {:induction false} AllPages(values: seq<Json>)
    requires forall i :: 0 <= i < |values| ==> WellFormed(values[i])
    ensures ReadPages(values).Some?
  {
    hide WellFormed, ReadPage;
    if values != [] {
      AllPages(values[1..]);
    }
  }

  /** If every row can be asked for alone, no batch is spoilt. */
  lemma BatchUsable(service: Service, answer: Query -> Json, rows: seq<Row>, i: nat)
    requires Independent(service, answer) && i < |rows|
    requires forall j :: 0 <= j < |rows| ==> Ask(service, QueryOf(rows[j], None)).Some?
    ensures FirstPage(service, rows, i).Some?
  {
    hide Independent, Ask, WellFormed, ReadPage, ReadPages;
    var batch := BatchOf(rows, i);
    AnswersBatch(service, answer, Queries(batch));
    var values := service(Queries(batch)).value.fields["results"].items;
    forall k: nat | k < |batch|
      ensures WellFormed(values[k])
    {
      var j := i - i % BATCH + k;
      assert batch[k] == rows[j];
      AskIsAnswer(service, answer, QueryOf(rows[j], None));
    }
    AllPages(values);
  }

  /** Against a service that answers each query on its own, the gate can be told package by package. */
  lemma GateOpensOneByOne(service: Service, answer: Query -> Json, rows: seq<Row>)
    requires Independent(service, answer)
    ensures (Audit(service, rows).Some? && AllEmpty(Audit(service, rows).value)) <==>
      forall i :: 0 <= i < |rows| ==> FullyReadAndClean(service, rows[i])
  {
    hide Audit, AllEmpty, Independent, FirstPage, Ask, CleanFrom;
    GateOpensExactlyWhen(service, rows);
    if forall i :: 0 <= i < |rows| ==> FullyReadAndClean(service, rows[i]) {
      forall i: nat | i < |rows|
        ensures CleanInBatch(service, rows, i)
      {
        assert forall j :: 0 <= j < |rows| ==> FullyReadAndClean(service, rows[j]);
        BatchUsable(service, answer, rows, i);
        PageAlone(service, answer, rows, i);
      }
    }
    if forall i :: 0 <= i < |rows| ==> CleanInBatch(service, rows, i) {
      forall i: nat | i < |rows|
        ensures FullyReadAndClean(service, rows[i])
      {
        assert CleanInBatch(service, rows, i);
        PageAlone(service, answer, rows, i);
      }
    }
  }
}

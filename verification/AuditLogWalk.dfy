/** Walking the audit log page by page while rows keep being appended. */
module AuditLogWalk {
  import opened Wrappers
  import opened AuditLog

  // ---- One listing ----

  lemma {:induction false} InsertMembers(r: AuditRow, s: seq<AuditRow>, x: AuditRow)
    ensures x in Insert(r, s) <==> x == r || x in s
  {
    if s != [] && !Newer(r, s[0]) {
      InsertMembers(r, s[1..], x);
      assert s == [s[0]] + s[1..];
    }
  }

  lemma {:induction false} InsertDescending(r: AuditRow, s: seq<AuditRow>)
    requires Descending(s) && forall x | x in s :: x.id != r.id
    ensures Descending(Insert(r, s))
  {
    if s == [] {
    } else if Newer(r, s[0]) {
      forall k | 0 <= k < |s| ensures Newer(r, s[k]) { NewerIsStrictOrder(r, s[0], s[k]); }
    } else {
      NewerIsStrictOrder(r, s[0], r);
      assert s[0] in s;
      forall x | x in s[1..] ensures x in s { }
      InsertDescending(r, s[1..]);
      var rest := Insert(r, s[1..]);
      forall k | 0 <= k < |rest| ensures Newer(s[0], rest[k]) {
        InsertMembers(r, s[1..], rest[k]);
      }
    }
  }

  lemma {:induction false} ListingMembers(
    rows: seq<AuditRow>, from: int, filters: Filters, cursor: Option<Cursor>, x: AuditRow)
    ensures x in Listing(rows, from, filters, cursor) <==> x in rows && Wanted(x, from, filters, cursor)
  {
    if rows != [] {
      ListingMembers(rows[1..], from, filters, cursor, x);
      InsertMembers(rows[0], Listing(rows[1..], from, filters, cursor), x);
      assert rows == [rows[0]] + rows[1..];
    }
  }

  lemma {:induction false} ListingDescending(rows: seq<AuditRow>, from: int, filters: Filters, cursor: Option<Cursor>)
    requires DistinctIds(rows)
    ensures Descending(Listing(rows, from, filters, cursor))
  {
    if rows != [] {
      ListingDescending(rows[1..], from, filters, cursor);
      var rest := Listing(rows[1..], from, filters, cursor);
      forall x | x in rest ensures x.id != rows[0].id {
        ListingMembers(rows[1..], from, filters, cursor, x);
      }
      InsertDescending(rows[0], rest);
    }
  }

  function CursorOf(r: AuditRow): Cursor {
    Cursor(r.createdAt, r.id)
  }

  lemma BelowIsOlder(a: AuditRow, b: AuditRow)
    ensures IsBelow(a, CursorOf(b)) <==> Newer(b, a)
  {
  }

  // Rows that came from the domain: identifiers are not empty, hold no underscore and never repeat; times are dates.
  predicate WellKept(rows: seq<AuditRow>) {
    DistinctIds(rows) && forall r | r in rows :: r.id != "" && '_' !in r.id && IsDate(r.createdAt)
  }

  lemma PageContents(codec: Codec, rows: seq<AuditRow>, limit: nat, from: int, filters: Filters, cursor: Option<Cursor>)
    requires WellKept(rows) && Lawful(codec) && limit >= 1
    ensures var page := PageOf(codec, rows, limit, from, filters, cursor);
      && Descending(page.items)
      && (forall i, j | 0 <= i < j < |page.items| :: page.items[i].createdAt >= page.items[j].createdAt)
      && (forall r | r in page.items :: r in rows && Wanted(r, from, filters, cursor))
      && (page.nextCursor.Some? <==> exists r :: r in rows && Wanted(r, from, filters, cursor) && r !in page.items)
      && match page.nextCursor
         case None => forall r | r in rows && Wanted(r, from, filters, cursor) :: r in page.items
         case Some(next) =>
           && |page.items| == limit
           && DecodeCursor(codec, Some(next)) == Ok(Some(CursorOf(page.items[limit - 1])))
           && forall r | r in rows && Wanted(r, from, filters, cursor) ::
               r in page.items || Newer(page.items[limit - 1], r)
  {
    var all := Listing(rows, from, filters, cursor);
    forall r ensures r in all <==> r in rows && Wanted(r, from, filters, cursor) {
      ListingMembers(rows, from, filters, cursor, r);
    }
    ListingDescending(rows, from, filters, cursor);
    if |all| > limit {
      assert all[limit] in all;
      forall k | 0 <= k < limit ensures all[limit] != all[k] { NewerIsStrictOrder(all[k], all[k], all[k]); }
      var last := all[limit - 1];
      assert last in all;
      CursorRoundTrip(codec, last);
      forall r | r in all ensures r in all[..limit] || Newer(last, r) {
        var k :| 0 <= k < |all| && all[k] == r;
        if k < limit { assert all[..limit][k] == r; }
      }
    }
  }

  // ---- The walk ----

  datatype Request = Request(codec: Codec, limit: nat, from: int, filters: Filters)

  // One call: the log as it was at that moment, and the page it gave.
  datatype Visit = Visit(log: seq<AuditRow>, page: Page)

  predicate Asks(req: Request, r: AuditRow) {
    Selected(r, req.from, req.filters)
  }

  function Init(visits: seq<Visit>): seq<Visit>
    requires visits != []
  {
    visits[..|visits| - 1]
  }

  function Last<T>(s: seq<T>): T
    requires s != []
  {
    s[|s| - 1]
  }

  // Each page is asked for with the cursor of the page before; between calls the log may only grow.
  ghost predicate Walk(req: Request, visits: seq<Visit>) {
    visits != [] ==>
      var init, last := Init(visits), Last(visits);
      && Walk(req, init)
      && WellKept(last.log)
      && (init != [] ==> Last(init).log <= last.log && Last(init).page.nextCursor.Some?)
      && FindPage(req.codec, last.log, req.limit, req.from, req.filters,
                  if init == [] then None else Last(init).page.nextCursor) == Ok(last.page)
  }

  function Delivered(visits: seq<Visit>): seq<AuditRow> {
    if visits == [] then [] else Delivered(Init(visits)) + Last(visits).page.items
  }

  // What one more page brings to a walk that has delivered something and has a cursor to go on with.
  lemma NextPage(req: Request, init: seq<Visit>, last: Visit, previous: AuditRow)
    requires Lawful(req.codec) && req.limit >= 1 && Walk(req, init + [last]) && init != []
    requires DecodeCursor(req.codec, Last(init).page.nextCursor) == Ok(Some(CursorOf(previous)))
    ensures var items := last.page.items;
      && Descending(items)
      && (forall r | r in items :: r in last.log && Asks(req, r) && Newer(previous, r))
      && match last.page.nextCursor
         case None => forall r | r in last.log && Asks(req, r) && Newer(previous, r) :: r in items
         case Some(next) =>
           && items != []
           && DecodeCursor(req.codec, Some(next)) == Ok(Some(CursorOf(Last(items))))
           && forall r | r in last.log && Asks(req, r) && Newer(previous, r) :: r in items || Newer(Last(items), r)
  {
    assert Init(init + [last]) == init;
    PageContents(req.codec, last.log, req.limit, req.from, req.filters, Some(CursorOf(previous)));
    forall r
      ensures Wanted(r, req.from, req.filters, Some(CursorOf(previous))) <==> Asks(req, r) && Newer(previous, r)
    {
      BelowIsOlder(r, previous);
    }
  }

  // After any number of pages: what was delivered descends, and what of the first log is still missing lies below
  // the cursor.
  ghost predicate Progress(req: Request, first: seq<AuditRow>, last: Visit, delivered: seq<AuditRow>) {
    && Descending(delivered)
    && (forall r | r in first :: r in last.log)
    && (forall r | r in delivered :: r in last.log && Asks(req, r))
    && match last.page.nextCursor
       case None => forall r | r in first && Asks(req, r) :: r in delivered
       case Some(next) =>
         && delivered != []
         && DecodeCursor(req.codec, Some(next)) == Ok(Some(CursorOf(Last(delivered))))
         && forall r | r in first && Asks(req, r) :: r in delivered || Newer(Last(delivered), r)
  }

  lemma DescendingAppend(a: seq<AuditRow>, b: seq<AuditRow>)
    requires Descending(a) && Descending(b)
    requires a != [] && forall r | r in b :: Newer(Last(a), r)
    ensures Descending(a + b)
  {
    forall i, j | 0 <= i < j < |a + b| ensures Newer((a + b)[i], (a + b)[j]) {
      if i < |a| <= j {
        assert b[j - |a|] in b;
        NewerIsStrictOrder(a[i], Last(a), b[j - |a|]);
      }
    }
  }

  lemma ProgressKept(req: Request, first: seq<AuditRow>, init: seq<Visit>, last: Visit, delivered: seq<AuditRow>)
    requires Lawful(req.codec) && req.limit >= 1 && Walk(req, init + [last]) && init != []
    requires Last(init).log <= last.log && Last(init).page.nextCursor.Some?
    requires Progress(req, first, Last(init), delivered)
    ensures Progress(req, first, last, delivered + last.page.items)
  {
    NextPage(req, init, last, Last(delivered));
    DescendingAppend(delivered, last.page.items);
    forall r | r in Last(init).log ensures r in last.log { }
    hide Walk, Descending, Newer, WellKept, DecodeCursor, Asks;
  }

  lemma FirstPage(req: Request, visit: Visit)
    requires Lawful(req.codec) && req.limit >= 1 && WellKept(visit.log)
    requires FindPage(req.codec, visit.log, req.limit, req.from, req.filters, None) == Ok(visit.page)
    ensures Progress(req, visit.log, visit, visit.page.items)
    ensures visit.page.nextCursor.Some? ==> |visit.page.items| == req.limit
  {
    PageContents(req.codec, visit.log, req.limit, req.from, req.filters, None);
  }

  lemma {:induction false} WalkProgress(req: Request, visits: seq<Visit>)
    requires Lawful(req.codec) && req.limit >= 1 && Walk(req, visits) && visits != []
    ensures Progress(req, visits[0].log, Last(visits), Delivered(visits))
  {
    hide Progress, WellKept, FindPage, Lawful;
    var init, last := Init(visits), Last(visits);
    if init == [] {
      FirstPage(req, last);
      assert Delivered(visits) == last.page.items;
    } else {
      WalkProgress(req, init);
      assert visits == init + [last];
      ProgressKept(req, visits[0].log, init, last, Delivered(init));
    }
  }

  // A finished walk delivers every selected row that was there when it began exactly once,
  // whatever was appended meanwhile, newest first and nothing twice.
  lemma ExactlyOnce(req: Request, visits: seq<Visit>, r: AuditRow)
    requires Lawful(req.codec) && req.limit >= 1 && Walk(req, visits)
    requires visits != [] && Last(visits).page.nextCursor.None?
    requires r in visits[0].log && Asks(req, r)
    ensures Descending(Delivered(visits))
    ensures multiset(Delivered(visits))[r] == 1
    ensures forall i, j | 0 <= i < j < |Delivered(visits)| :: Delivered(visits)[i] != Delivered(visits)[j]
  {
    WalkProgress(req, visits);
    DescendingHasNoRepeats(Delivered(visits), r);
  }

  lemma DescendingHasNoRepeats(s: seq<AuditRow>, r: AuditRow)
    requires Descending(s)
    ensures forall i, j | 0 <= i < j < |s| :: s[i] != s[j]
    ensures multiset(s)[r] == if r in s then 1 else 0
  {
    forall i, j | 0 <= i < j < |s| ensures s[i] != s[j] { NewerIsStrictOrder(s[i], s[i], s[i]); }
    OnceEach(s, r);
  }

  lemma {:induction false} OnceEach(s: seq<AuditRow>, r: AuditRow)
    requires forall i, j | 0 <= i < j < |s| :: s[i] != s[j]
    ensures multiset(s)[r] == if r in s then 1 else 0
  {
    if s != [] {
      OnceEach(s[1..], r);
      assert s == [s[0]] + s[1..];
    }
  }

  // ---- Termination ----

  predicate BelowEncoded(codec: Codec, cursor: Option<string>, r: AuditRow) {
    match DecodeCursor(codec, cursor)
    case Ok(Some(c)) => IsBelow(r, c)
    case _ => false
  }

  // No row appended after the walk began turns up below the cursor it is continued with.
  ghost predicate AppendedAbove(req: Request, first: seq<AuditRow>, visits: seq<Visit>) {
    visits != [] ==>
      var init, last := Init(visits), Last(visits);
      && AppendedAbove(req, first, init)
      && (init != [] ==>
          forall r | r in last.log && r !in first :: !BelowEncoded(req.codec, Last(init).page.nextCursor, r))
  }

  // A later page then holds rows of the first log only, and is full unless it is the last.
  lemma LaterPage(req: Request, first: seq<AuditRow>, init: seq<Visit>, last: Visit)
    requires Lawful(req.codec) && req.limit >= 1 && Walk(req, init + [last]) && init != []
    requires first == init[0].log && Last(init).page.nextCursor.Some?
    requires forall r | r in last.log && r !in first :: !BelowEncoded(req.codec, Last(init).page.nextCursor, r)
    ensures forall r | r in last.page.items :: r in first
    ensures last.page.nextCursor.Some? ==> |last.page.items| == req.limit
  {
    assert Init(init + [last]) == init;
    WalkProgress(req, init);
    var previous := Last(Delivered(init));
    NextPage(req, init, last, previous);
    forall r | r in last.page.items ensures r in first {
      BelowIsOlder(r, previous);
    }
    PageSize(req, last.log, Some(CursorOf(previous)), last.page);
  }

  lemma {:induction false} OnlyFirstRows(req: Request, first: seq<AuditRow>, visits: seq<Visit>)
    requires Lawful(req.codec) && req.limit >= 1 && Walk(req, visits) && visits != []
    requires first == visits[0].log && AppendedAbove(req, first, visits)
    ensures forall r | r in Delivered(visits) :: r in first
    ensures (|visits| - 1) * req.limit <= |Delivered(visits)|
    ensures Last(visits).page.nextCursor.Some? ==> |visits| * req.limit <= |Delivered(visits)|
  {
    hide FindPage, WellKept, Lawful, BelowEncoded;
    var init, last := Init(visits), Last(visits);
    if init == [] {
      assert Delivered(visits) == last.page.items;
      FirstPage(req, last);
    } else {
      OnlyFirstRows(req, first, init);
      assert visits == init + [last];
      LaterPage(req, first, init, last);
      assert |visits| * req.limit == |init| * req.limit + req.limit;
    }
  }

  lemma PageSize(req: Request, log: seq<AuditRow>, cursor: Option<Cursor>, page: Page)
    requires Lawful(req.codec) && req.limit >= 1 && WellKept(log)
    requires page == PageOf(req.codec, log, req.limit, req.from, req.filters, cursor)
    ensures page.nextCursor.Some? ==> |page.items| == req.limit
  {
  }

  // Then the walk ends: it has no more full pages than the first log has rows for.
  lemma WalkTerminates(req: Request, visits: seq<Visit>)
    requires Lawful(req.codec) && req.limit >= 1 && Walk(req, visits) && visits != []
    requires AppendedAbove(req, visits[0].log, visits)
    ensures (|visits| - 1) * req.limit <= |visits[0].log|
  {
    WalkProgress(req, visits);
    OnlyFirstRows(req, visits[0].log, visits);
    forall r { DescendingHasNoRepeats(Delivered(visits), r); }
    DistinctFit(Delivered(visits), visits[0].log);
  }

  lemma DistinctFit(s: seq<AuditRow>, t: seq<AuditRow>)
    requires forall r :: multiset(s)[r] == if r in s then 1 else 0
    requires forall r | r in s :: r in t
    ensures |s| <= |t|
  {
    forall r ensures multiset(s)[r] <= multiset(t)[r] { }
    assert multiset(s) <= multiset(t);
    assert multiset(t) == multiset(s) + (multiset(t) - multiset(s));
    assert |multiset(s)| <= |multiset(t)|;
  }
}

/** The append-only audit log and its keyset pagination. */
module AuditLog {
  import opened Wrappers

  // Times are in milliseconds, the precision rows are written with.
  datatype AuditRow = AuditRow(
    id: string,
    createdAt: int,
    auditType: string,
    entityType: string,
    entityId: string,
    actorType: string,
    actorId: string)

  datatype Cursor = Cursor(createdAt: int, id: string)

  // An absent list and an empty one both mean: no restriction.
  datatype Filters = Filters(
    targets: Option<seq<(string, string)>>,
    actors: Option<seq<(string, string)>>,
    auditTypes: Option<seq<string>>)

  datatype FindError = InvalidCursor

  datatype Page = Page(items: seq<AuditRow>, nextCursor: Option<string>)

  // ---- Order ----

  // Identifiers compare like the bytes of their text.
  predicate IdLess(a: string, b: string) {
    if b == "" then false
    else if a == "" then true
    else if a[0] != b[0] then a[0] < b[0]
    else IdLess(a[1..], b[1..])
  }

  lemma {:induction false} IdLessIsStrict(a: string, b: string, c: string)
    ensures !IdLess(a, a)
    ensures IdLess(a, b) && IdLess(b, c) ==> IdLess(a, c)
    ensures a != b ==> IdLess(a, b) || IdLess(b, a)
  {
    if a != "" {
      IdLessIsStrict(a[1..], if b == "" then "" else b[1..], if c == "" then "" else c[1..]);
      if b != "" && a[0] == b[0] && a[1..] == b[1..] {
        assert a == [a[0]] + a[1..] && b == [b[0]] + b[1..];
      }
    }
  }

  // The order is lexicographic: at the first difference the lesser character decides, and a prefix comes first.
  lemma {:induction false} IdLessIsLexicographic(a: string, b: string)
    ensures IdLess(a, b) <==>
      exists k | 0 <= k < |b| && k <= |a| :: a[..k] == b[..k] && (k == |a| || a[k] < b[k])
  {
    if a == "" || b == "" || a[0] != b[0] {
      if b != "" { assert a[..0] == b[..0]; }
      if a != "" && b != "" {
        forall k | 0 < k < |b| && k <= |a| ensures a[..k] != b[..k] { assert a[..k][0] == a[0] && b[..k][0] == b[0]; }
      }
    } else {
      IdLessIsLexicographic(a[1..], b[1..]);
      forall k | 0 <= k < |b| - 1 && k <= |a| - 1
        ensures a[1..][..k] == b[1..][..k] <==> a[..k + 1] == b[..k + 1]
      {
        assert a[..k + 1] == [a[0]] + a[1..][..k] && b[..k + 1] == [b[0]] + b[1..][..k];
        assert a[..k + 1][1..] == a[1..][..k] && b[..k + 1][1..] == b[1..][..k];
      }
      if IdLess(a, b) {
        var k :| 0 <= k < |b[1..]| && k <= |a[1..]| && a[1..][..k] == b[1..][..k]
          && (k == |a[1..]| || a[1..][k] < b[1..][k]);
        assert a[..k + 1] == b[..k + 1] && (k + 1 == |a| || a[k + 1] < b[k + 1]);
      }
      if k :| 0 <= k < |b| && k <= |a| && a[..k] == b[..k] && (k == |a| || a[k] < b[k]) {
        assert k > 0;
        assert a[1..][..k - 1] == b[1..][..k - 1];
        assert k - 1 == |a[1..]| || a[1..][k - 1] < b[1..][k - 1];
      }
    }
  }

  // a comes before b in the listing: newer first, greater identifier first on ties.
  predicate Newer(a: AuditRow, b: AuditRow) {
    a.createdAt > b.createdAt || (a.createdAt == b.createdAt && IdLess(b.id, a.id))
  }

  predicate Descending(s: seq<AuditRow>) {
    forall i, j | 0 <= i < j < |s| :: Newer(s[i], s[j])
  }

  predicate DistinctIds(rows: seq<AuditRow>) {
    forall i, j | 0 <= i < j < |rows| :: rows[i].id != rows[j].id
  }

  lemma NewerIsStrictOrder(a: AuditRow, b: AuditRow, c: AuditRow)
    ensures !Newer(a, a)
    ensures Newer(a, b) && Newer(b, c) ==> Newer(a, c)
    ensures a.id != b.id ==> Newer(a, b) || Newer(b, a)
  {
    IdLessIsStrict(a.id, a.id, a.id);
    IdLessIsStrict(c.id, b.id, a.id);
    IdLessIsStrict(a.id, b.id, a.id);
  }

  // ---- The where clause ----

  datatype Condition =
    | CreatedAtGte(from: int)
    | TargetIn(targets: seq<(string, string)>)
    | ActorIn(actors: seq<(string, string)>)
    | AuditTypeIn(auditTypes: seq<string>)
    | After(cursor: Cursor)

  predicate IsBelow(r: AuditRow, c: Cursor) {
    r.createdAt < c.createdAt || (r.createdAt == c.createdAt && IdLess(r.id, c.id))
  }

  predicate Meets(r: AuditRow, c: Condition) {
    match c
    case CreatedAtGte(from) => r.createdAt >= from
    case TargetIn(targets) => (r.entityType, r.entityId) in targets
    case ActorIn(actors) => (r.actorType, r.actorId) in actors
    case AuditTypeIn(types) => r.auditType in types
    case After(cursor) => IsBelow(r, cursor)
  }

  predicate MeetsAll(r: AuditRow, where: seq<Condition>) {
    forall c | c in where :: Meets(r, c)
  }

  predicate Allows<T(==)>(list: Option<seq<T>>, x: T) {
    list.None? || list.value == [] || x in list.value
  }

  // What the caller asked to see, the position of the page aside.
  predicate Selected(r: AuditRow, from: int, filters: Filters) {
    && r.createdAt >= from
    && Allows(filters.targets, (r.entityType, r.entityId))
    && Allows(filters.actors, (r.actorType, r.actorId))
    && Allows(filters.auditTypes, r.auditType)
  }

  predicate Wanted(r: AuditRow, from: int, filters: Filters, cursor: Option<Cursor>) {
    Selected(r, from, filters) && (cursor.Some? ==> IsBelow(r, cursor.value))
  }

  lemma PushCondition(where: seq<Condition>, c: Condition)
    ensures forall r :: MeetsAll(r, where + [c]) <==> MeetsAll(r, where) && Meets(r, c)
  {
    forall r ensures MeetsAll(r, where + [c]) <==> MeetsAll(r, where) && Meets(r, c) {
      assert forall d | d in where :: d in where + [c];
      assert c in where + [c];
    }
  }

  method BuildWhere(from: int, filters: Filters, cursor: Option<Cursor>) returns (where: seq<Condition>)
    ensures forall r :: MeetsAll(r, where) <==> Wanted(r, from, filters, cursor)
    ensures forall r :: MeetsAll(r, where) <==>
      && r.createdAt >= from
      && (filters.targets in {None, Some([])} || (r.entityType, r.entityId) in filters.targets.value)
      && (filters.actors in {None, Some([])} || (r.actorType, r.actorId) in filters.actors.value)
      && (filters.auditTypes in {None, Some([])} || r.auditType in filters.auditTypes.value)
      && (cursor.None? || r.createdAt < cursor.value.createdAt
          || (r.createdAt == cursor.value.createdAt && IdLess(r.id, cursor.value.id)))
  {
    where := [CreatedAtGte(from)];
    assert forall r :: MeetsAll(r, where) <==> r.createdAt >= from by {
      PushCondition([], CreatedAtGte(from));
      assert [] + [CreatedAtGte(from)] == where;
    }
    if filters.targets.Some? && filters.targets.value != [] {
      PushCondition(where, TargetIn(filters.targets.value));
      where := where + [TargetIn(filters.targets.value)];
    }
    if filters.actors.Some? && filters.actors.value != [] {
      PushCondition(where, ActorIn(filters.actors.value));
      where := where + [ActorIn(filters.actors.value)];
    }
    if filters.auditTypes.Some? && filters.auditTypes.value != [] {
      PushCondition(where, AuditTypeIn(filters.auditTypes.value));
      where := where + [AuditTypeIn(filters.auditTypes.value)];
    }
    if cursor.Some? {
      PushCondition(where, After(cursor.value));
      where := where + [After(cursor.value)];
    }
  }

  // ---- The cursor ----

  // Node's date and base64 functions, of which only the laws below are used.
  datatype Codec = Codec(
    toIso: int -> string,
    parseIso: string -> Option<int>,
    toBase64: string -> string,
    fromBase64: string -> Option<string>)

  // The times a date can hold: a hundred million days to either side of the epoch.
  const MAX_DATE := 100_000_000 * 24 * 60 * 60 * 1000

  predicate IsDate(t: int) {
    -MAX_DATE <= t <= MAX_DATE
  }

  ghost predicate Lawful(codec: Codec) {
    && (forall t | IsDate(t) :: codec.parseIso(codec.toIso(t)) == Some(t))
    && (forall t | IsDate(t) :: codec.toIso(t) != "" && '_' !in codec.toIso(t))
    && (forall s :: codec.fromBase64(codec.toBase64(s)) == Some(s))
    && (forall s :: s != "" ==> codec.toBase64(s) != "")
  }

  function Split(s: string): (parts: seq<string>)
    ensures |parts| >= 1
  {
    if s == "" then [""]
    else
      var rest := Split(s[1..]);
      if s[0] == '_' then [""] + rest else [[s[0]] + rest[0]] + rest[1..]
  }

  function EncodeCursor(codec: Codec, last: AuditRow): string {
    codec.toBase64(codec.toIso(last.createdAt) + "_" + last.id)
  }

  function DecodeCursor(codec: Codec, cursor: Option<string>): Result<Option<Cursor>, FindError> {
    if cursor.None? || cursor.value == "" then Ok(None)
    else
      var decoded := codec.fromBase64(cursor.value);
      if decoded.None? then Err(InvalidCursor)
      else
        var parts := Split(decoded.value);
        if parts[0] == "" || |parts| < 2 || parts[1] == "" then Err(InvalidCursor)
        else
          var createdAt := codec.parseIso(parts[0]);
          if createdAt.None? then Err(InvalidCursor) else Ok(Some(Cursor(createdAt.value, parts[1])))
  }

  lemma {:induction false} SplitPlain(s: string)
    requires '_' !in s
    ensures Split(s) == [s]
  {
    if s != "" {
      SplitPlain(s[1..]);
      assert s == [s[0]] + s[1..];
    }
  }

  // The first underscore ends the first part.
  lemma {:induction false} SplitAt(a: string, b: string)
    requires '_' !in a
    ensures Split(a + "_" + b) == [a] + Split(b)
  {
    var s := a + "_" + b;
    if a == "" {
      assert s[1..] == b;
    } else {
      assert s[1..] == a[1..] + "_" + b;
      SplitAt(a[1..], b);
      assert a == [a[0]] + a[1..];
    }
  }

  lemma SplitTwo(a: string, b: string)
    requires '_' !in a && '_' !in b
    ensures Split(a + "_" + b) == [a, b]
  {
    SplitAt(a, b);
    SplitPlain(b);
  }

  // A cursor decodes to the very row it was made from.
  lemma CursorRoundTrip(codec: Codec, last: AuditRow)
    requires Lawful(codec) && IsDate(last.createdAt) && last.id != "" && '_' !in last.id
    ensures DecodeCursor(codec, Some(EncodeCursor(codec, last))) == Ok(Some(Cursor(last.createdAt, last.id)))
  {
    SplitTwo(codec.toIso(last.createdAt), last.id);
  }

  // What a decoded cursor must look like: a date and an identifier, and whatever follows another underscore is ignored.
  predicate Reads(text: string, date: string, id: string, rest: string) {
    && text == date + "_" + id + rest
    && date != "" && id != "" && '_' !in date && '_' !in id
    && (rest == "" || rest[0] == '_')
  }

  ghost predicate ReadsAs(text: string, date: string, id: string) {
    exists rest :: Reads(text, date, id, rest)
  }

  // The first part ends at the first underscore; the others are those of what follows it.
  lemma {:induction false} SplitHead(s: string)
    ensures '_' !in Split(s)[0]
    ensures |Split(s)| == 1 ==> s == Split(s)[0]
    ensures |Split(s)| > 1 ==>
      var n := |Split(s)[0]|;
      n < |s| && s == Split(s)[0] + "_" + s[n + 1..] && Split(s[n + 1..]) == Split(s)[1..]
  {
    hide Split;
    if s == "" {
      SplitPlain(s);
    } else {
      SplitStep(s);
      if s[0] == '_' {
        assert s == "" + "_" + s[1..];
      } else {
        SplitHead(s[1..]);
        if |Split(s)| > 1 { AfterFirst(s, |Split(s[1..])[0]|); } else { assert s == [s[0]] + s[1..]; }
      }
    }
  }

  lemma AfterFirst(s: string, n: nat)
    requires n + 1 < |s| && s[1..] == s[1..][..n] + "_" + s[1..][n + 1..]
    ensures s[1..][n + 1..] == s[n + 2..]
    ensures s == [s[0]] + s[1..][..n] + "_" + s[n + 2..]
  {
    assert s[1..][n] == '_';
    assert s[n + 1] == '_';
  }

  lemma SplitStep(s: string)
    requires s != ""
    ensures s[0] == '_' ==> Split(s) == [""] + Split(s[1..])
    ensures s[0] != '_' ==> Split(s) == [[s[0]] + Split(s[1..])[0]] + Split(s[1..])[1..]
  {
  }

  lemma ReadsExactly(text: string, date: string, id: string)
    ensures ReadsAs(text, date, id) <==>
      date != "" && id != "" && |Split(text)| > 1 && Split(text)[0] == date && Split(text)[1] == id
  {
    hide Split;
    if date != "" && id != "" && |Split(text)| > 1 && Split(text)[0] == date && Split(text)[1] == id {
      var rest := SplitReads(text);
    }
    if rest :| Reads(text, date, id, rest) {
      ReadsSplit(text, date, id, rest);
    }
  }

  lemma Regroup(a: string, b: string, c: string)
    ensures a + b + c == a + (b + c)
  {
  }

  lemma SplitReads(text: string) returns (rest: string)
    requires |Split(text)| > 1 && Split(text)[0] != "" && Split(text)[1] != ""
    ensures Reads(text, Split(text)[0], Split(text)[1], rest)
  {
    var date, id := Split(text)[0], Split(text)[1];
    SplitHead(text);
    var tail := text[|date| + 1..];
    SplitHead(tail);
    hide Split;
    rest := tail[|id|..];
    assert tail == id + rest;
    Regroup(date + "_", id, rest);
  }

  lemma ReadsSplit(text: string, date: string, id: string, rest: string)
    requires Reads(text, date, id, rest)
    ensures |Split(text)| > 1 && Split(text)[0] == date && Split(text)[1] == id
  {
    hide Split;
    Regroup(date + "_", id, rest);
    SplitAt(date, id + rest);
    if rest == "" {
      SplitPlain(id);
      assert id + rest == id;
    } else {
      assert id + rest == id + "_" + rest[1..];
      SplitAt(id, rest[1..]);
    }
  }

  // A cursor is understood exactly if its text reads as a date and an identifier; an absent or empty one asks for the
  // first page; any other is refused.
  lemma DecodeExactly(codec: Codec, cursor: Option<string>)
    ensures DecodeCursor(codec, cursor) == Ok(None) <==> cursor in {None, Some("")}
    ensures forall c: Cursor :: DecodeCursor(codec, cursor) == Ok(Some(c)) <==>
      && cursor.Some? && cursor.value != "" && codec.fromBase64(cursor.value).Some?
      && exists date ::
        ReadsAs(codec.fromBase64(cursor.value).value, date, c.id) && codec.parseIso(date) == Some(c.createdAt)
  {
    if cursor.Some? && cursor.value != "" && codec.fromBase64(cursor.value).Some? {
      var text := codec.fromBase64(cursor.value).value;
      forall date, id { ReadsExactly(text, date, id); }
    }
    hide Split, ReadsAs;
  }

  // ---- The query ----

  function Insert(r: AuditRow, s: seq<AuditRow>): seq<AuditRow> {
    if s == [] || Newer(r, s[0]) then [r] + s else [s[0]] + Insert(r, s[1..])
  }

  // The rows wanted, newest first.
  function Listing(rows: seq<AuditRow>, from: int, filters: Filters, cursor: Option<Cursor>): seq<AuditRow> {
    if rows == [] then []
    else
      var rest := Listing(rows[1..], from, filters, cursor);
      if Wanted(rows[0], from, filters, cursor) then Insert(rows[0], rest) else rest
  }

  function PageOf(
    codec: Codec, rows: seq<AuditRow>, limit: nat, from: int, filters: Filters, cursor: Option<Cursor>): Page
  {
    var all := Listing(rows, from, filters, cursor);
    if |all| <= limit then Page(all, None)
    else Page(all[..limit], if limit == 0 then None else Some(EncodeCursor(codec, all[limit - 1])))
  }

  function FindPage(codec: Codec, rows: seq<AuditRow>, limit: nat, from: int, filters: Filters, cursor: Option<string>)
    : Result<Page, FindError>
  {
    match DecodeCursor(codec, cursor)
    case Err(e) => Err(e)
    case Ok(position) => Ok(PageOf(codec, rows, limit, from, filters, position))
  }

  class AuditLogTable {
    var rows: seq<AuditRow>

    constructor ()
      ensures rows == []
    {
      rows := [];
    }

    // The only write the database client lets through.
    method Persist(row: AuditRow)
      modifies this
      ensures rows == old(rows) + [row]
    {
      rows := rows + [row];
    }

    // The database's part: the rows that meet the conditions, in listing order, no more than asked for.
    method Query(
      where: seq<Condition>, take: nat, ghost from: int, ghost filters: Filters, ghost cursor: Option<Cursor>)
      returns (items: seq<AuditRow>)
      requires forall r :: MeetsAll(r, where) <==> Wanted(r, from, filters, cursor)
      ensures var all := Listing(rows, from, filters, cursor); items == if |all| <= take then all else all[..take]
    {
      items := [];
      var i := |rows|;
      while i > 0
        invariant 0 <= i <= |rows|
        invariant items == Listing(rows[i..], from, filters, cursor)
      {
        i := i - 1;
        assert rows[i..][1..] == rows[i + 1..];
        if MeetsAll(rows[i], where) {
          items := Insert(rows[i], items);
        }
      }
      assert rows[0..] == rows;
      if |items| > take {
        items := items[..take];
      }
    }

    method FindMany(codec: Codec, limit: nat, from: int, cursor: Option<string>, filters: Filters)
      returns (r: Result<Page, FindError>)
      ensures r == FindPage(codec, rows, limit, from, filters, cursor)
    {
      // One row more than the page holds tells whether there is a next page.
      var position := DecodeCursor(codec, cursor);
      if position.Err? {
        return Err(position.error);
      }
      var where := BuildWhere(from, filters, position.value);
      var items := Query(where, limit + 1, from, filters, position.value);
      var hasMore := |items| > limit;
      var toReturn := if hasMore then items[..limit] else items;
      ghost var all := Listing(rows, from, filters, position.value);
      assert |all| > limit ==> all[..limit + 1][..limit] == all[..limit];
      var next := None;
      if hasMore && toReturn != [] {
        next := Some(EncodeCursor(codec, toReturn[|toReturn| - 1]));
      }
      r := Ok(Page(toReturn, next));
    }
  }
}

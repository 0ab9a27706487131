/** Keyset pages of a link's clicks, newest first, and the opaque cursor that leads from one to the next. */
module ClickPagination {
  import opened Options
  import opened TenantTransaction
  import opened Texts

  /** A click's row; `id` is the 128-bit value its uuid compares by. */
  datatype Click = Click(id: nat, tenantId: string, linkId: string, at: int, userAgent: Option<string>)

  datatype Cursor = Cursor(at: int, id: nat)

  const INSTANT_MIN_MS := 0
  const INSTANT_MAX_MS := 253_402_300_799_999

  predicate IsStorableInstant(ms: int) { INSTANT_MIN_MS <= ms <= INSTANT_MAX_MS }

  // ---------------------------------------------------------------------------------------------
  // The cursor's text
  // ---------------------------------------------------------------------------------------------

  /**
   Dates, uuids and base64url as text. `date` is `None` for what does not parse; `cast` is what Postgres
   makes of text shaped like a uuid.
   */
  datatype Codec = Codec(
    iso: int -> string, date: string -> Option<int>, text: nat -> string, cast: string -> nat,
    base64: string -> string, unbase64: string -> string)

  ghost predicate Lawful(c: Codec) {
    && (forall ms :: IsStorableInstant(ms) ==> Lacks(c.iso(ms), '|') && c.date(c.iso(ms)) == Some(ms))
    && (forall id: nat :: IsUuid(c.text(id)) && c.cast(c.text(id)) == id)
    && (forall s :: c.unbase64(c.base64(s)) == s)
  }

  function EncodeCursor(c: Codec, cursor: Cursor): string {
    c.base64(c.iso(cursor.at) + "|" + c.text(cursor.id))
  }

  /** `None` for anything this endpoint did not issue. */
  function DecodeCursor(c: Codec, text: string): Option<Cursor> {
    var parts := Split(c.unbase64(text), '|');
    if |parts| != 2 || !IsUuid(parts[1]) then None
    else
      var at := c.date(parts[0]);
      if at.None? || !IsStorableInstant(at.value) then None else Some(Cursor(at.value, c.cast(parts[1])))
  }

  lemma UuidHasNoBar(s: string)
    requires IsUuid(s)
    ensures Lacks(s, '|')
  {
    forall i | 0 <= i < |s| ensures s[i] != '|' {
      assert if i < 8 then s[i] == s[..8][i]
             else if i == 8 || i == 13 || i == 18 || i == 23 then s[i] == '-'
             else if i < 13 then s[i] == s[9..13][i - 9]
             else if i < 18 then s[i] == s[14..18][i - 14]
             else if i < 23 then s[i] == s[19..23][i - 19]
             else s[i] == s[24..][i - 24];
    }
  }

  /** Decoding inverts encoding on every instant the table can hold. */
  lemma DecodeInvertsEncode(c: Codec, cursor: Cursor)
    requires Lawful(c) && IsStorableInstant(cursor.at)
    ensures DecodeCursor(c, EncodeCursor(c, cursor)) == Some(cursor)
  {
    UuidHasNoBar(c.text(cursor.id));
    SplitConcat(c.iso(cursor.at), c.text(cursor.id), '|');
    SplitOne(c.iso(cursor.at), '|');
    SplitOne(c.text(cursor.id), '|');
  }

  /**
   Whatever text a client sends, what it decodes to is a position this endpoint could have issued: an
   instant Postgres can hold, and a cursor whose own text decodes to it again.
   */
  lemma DecodedCouldHaveBeenIssued(c: Codec, text: string)
    requires Lawful(c) && DecodeCursor(c, text).Some?
    ensures IsStorableInstant(DecodeCursor(c, text).value.at)
    ensures DecodeCursor(c, EncodeCursor(c, DecodeCursor(c, text).value)) == DecodeCursor(c, text)
  {
    DecodeInvertsEncode(c, DecodeCursor(c, text).value);
  }

  /** A text decodes to a cursor iff it is an instant the table can hold, one bar and a uuid, encoded. */
  lemma DecodesIff(c: Codec, text: string, cursor: Cursor)
    ensures DecodeCursor(c, text) == Some(cursor) <==>
            && 0 <= cursor.at <= 253_402_300_799_999
            && exists date, id ::
                 && c.unbase64(text) == date + "|" + id && Lacks(date, '|') && IsUuid(id)
                 && c.date(date) == Some(cursor.at) && c.cast(id) == cursor.id
  {
    var whole := c.unbase64(text);
    var parts := Split(whole, '|');
    SplitPieces(whole, '|');
    if |parts| == 2 {
      SplitOfTwo(whole, '|');
    }
    forall date, id | whole == date + "|" + id && Lacks(date, '|') && IsUuid(id) ensures parts == [date, id] {
      UuidHasNoBar(id);
      SplitConcat(date, id, '|');
      SplitOne(date, '|');
      SplitOne(id, '|');
    }
  }

  // ---------------------------------------------------------------------------------------------
  // One page
  // ---------------------------------------------------------------------------------------------

  predicate Newer(a: Click, b: Click) { a.at > b.at || (a.at == b.at && a.id > b.id) }

  predicate Below(row: Click, after: Cursor) { row.at < after.at || (row.at == after.at && row.id < after.id) }

  datatype Query = Query(tenantId: string, linkId: string, from: int, to: int, limit: nat)

  predicate Selected(row: Click, q: Query, after: Option<Cursor>) {
    && row.tenantId == q.tenantId && row.linkId == q.linkId && q.from <= row.at <= q.to
    && (after.Some? ==> Below(row, after.value))
  }

  function Where(table: seq<Click>, q: Query, after: Option<Cursor>): seq<Click> {
    if table == [] then []
    else (if Selected(table[0], q, after) then [table[0]] else []) + Where(table[1..], q, after)
  }

  function InsertInOrder(row: Click, rows: seq<Click>): seq<Click> {
    if rows == [] || Newer(row, rows[0]) then [row] + rows else [rows[0]] + InsertInOrder(row, rows[1..])
  }

  /** Newest first, ties by id. */
  function OrderBy(rows: seq<Click>): seq<Click> {
    if rows == [] then [] else InsertInOrder(rows[0], OrderBy(rows[1..]))
  }

  function Limit(rows: seq<Click>, n: nat): seq<Click> {
    if |rows| <= n then rows else rows[..n]
  }

  datatype Page = Page(items: seq<Click>, nextCursor: Option<string>, hasMore: bool)

  /** One row more than asked for tells whether there are more. */
  function Read(c: Codec, table: seq<Click>, q: Query, after: Option<Cursor>): Page {
    if !IsUuid(q.linkId) then Page([], None, false)
    else
      var rows := Limit(OrderBy(Where(table, q, after)), q.limit + 1);
      var hasMore := |rows| > q.limit;
      var items := if hasMore then rows[..q.limit] else rows;
      Page(items,
           if hasMore && items != [] then
             Some(EncodeCursor(c, Cursor(items[|items| - 1].at, items[|items| - 1].id)))
           else None,
           hasMore)
  }

  ghost predicate Descending(rows: seq<Click>) {
    forall i, j :: 0 <= i < j < |rows| ==> Newer(rows[i], rows[j])
  }

  /** The primary key. */
  ghost predicate UniqueIds(table: seq<Click>) {
    forall i, j :: 0 <= i < j < |table| ==> table[i].id != table[j].id
  }

  ghost predicate Storable(table: seq<Click>) {
    forall i :: 0 <= i < |table| ==> IsStorableInstant(table[i].at)
  }

  lemma {:induction false} WhereMember(table: seq<Click>, q: Query, after: Option<Cursor>, row: Click)
    ensures row in Where(table, q, after) <==> row in table && Selected(row, q, after)
    ensures |Where(table, q, after)| <= |table|
  {
    if table != [] {
      WhereMember(table[1..], q, after, row);
      assert row in table <==> row == table[0] || row in table[1..];
    }
  }

  lemma {:induction false} WhereUnique(table: seq<Click>, q: Query, after: Option<Cursor>)
    requires UniqueIds(table)
    ensures UniqueIds(Where(table, q, after))
  {
    if table != [] {
      assert forall i :: 0 <= i < |table| - 1 ==> table[1..][i] == table[i + 1];
      WhereUnique(table[1..], q, after);
      var rest := Where(table[1..], q, after);
      forall i | 0 <= i < |rest| ensures rest[i].id != table[0].id {
        WhereMember(table[1..], q, after, rest[i]);
        assert rest[i] in table[1..];
      }
    }
  }

  lemma {:induction false} InsertMembers(row: Click, rows: seq<Click>, x: Click)
    ensures x in InsertInOrder(row, rows) <==> x == row || x in rows
    ensures |InsertInOrder(row, rows)| == |rows| + 1
  {
    if !(rows == [] || Newer(row, rows[0])) {
      InsertMembers(row, rows[1..], x);
      assert x in rows <==> x == rows[0] || x in rows[1..];
    }
  }

  lemma {:induction false} InsertKeepsOrder(row: Click, rows: seq<Click>)
    requires Descending(rows) && forall i :: 0 <= i < |rows| ==> rows[i].id != row.id
    ensures Descending(InsertInOrder(row, rows))
  {
    if !(rows == [] || Newer(row, rows[0])) {
      var rest := rows[1..];
      assert forall i :: 0 <= i < |rest| ==> rest[i] == rows[i + 1];
      InsertKeepsOrder(row, rest);
      var tail := InsertInOrder(row, rest);
      forall i | 0 <= i < |tail| ensures Newer(rows[0], tail[i]) {
        InsertMembers(row, rest, tail[i]);
      }
    }
  }

  lemma {:induction false} OrderByOrders(rows: seq<Click>)
    requires UniqueIds(rows)
    ensures Descending(OrderBy(rows)) && |OrderBy(rows)| == |rows|
    ensures forall x :: x in OrderBy(rows) <==> x in rows
  {
    if rows != [] {
      assert forall i :: 0 <= i < |rows| - 1 ==> rows[1..][i] == rows[i + 1];
      OrderByOrders(rows[1..]);
      var rest := OrderBy(rows[1..]);
      forall i | 0 <= i < |rest| ensures rest[i].id != rows[0].id {
        assert rest[i] in rest && rest[i] in rows[1..];
      }
      InsertKeepsOrder(rows[0], rest);
      InsertMembers(rows[0], rest, rows[0]);
      forall x ensures x in OrderBy(rows) <==> x in rows {
        InsertMembers(rows[0], rest, x);
        assert x in rows <==> x == rows[0] || x in rows[1..];
      }
    }
  }

  /** The rows a page is cut from: exactly the selected ones, in strictly descending order. */
  lemma Ordered(table: seq<Click>, q: Query, after: Option<Cursor>)
    requires UniqueIds(table)
    ensures Descending(OrderBy(Where(table, q, after)))
    ensures |OrderBy(Where(table, q, after))| <= |table|
    ensures forall x :: x in OrderBy(Where(table, q, after)) <==> x in table && Selected(x, q, after)
  {
    WhereUnique(table, q, after);
    OrderByOrders(Where(table, q, after));
    forall x ensures x in Where(table, q, after) <==> x in table && Selected(x, q, after) {
      WhereMember(table, q, after, x);
    }
    if table != [] {
      WhereMember(table, q, after, table[0]);
    }
  }

  /** A descending list cut at a row: the row's cursor separates the two parts. */
  lemma CutAt(rows: seq<Click>, n: nat, row: Click)
    requires Descending(rows) && 1 <= n < |rows|
    ensures row in rows <==> row in rows[..n] || row in rows[n..]
    ensures row in rows[..n] ==> !Below(row, Cursor(rows[n - 1].at, rows[n - 1].id))
    ensures row in rows[n..] ==> Below(row, Cursor(rows[n - 1].at, rows[n - 1].id))
  {
    assert rows == rows[..n] + rows[n..];
    if row in rows[..n] {
      var i :| 0 <= i < n && rows[..n][i] == row;
      assert i < n - 1 ==> Newer(rows[i], rows[n - 1]);
    }
    if row in rows[n..] {
      var j :| 0 <= j < |rows| - n && rows[n..][j] == row;
      assert Newer(rows[n - 1], rows[n + j]);
    }
  }

  /** What is left after a page: exactly the selected rows below its last one. */
  lemma RestOfThePage(table: seq<Click>, q: Query, after: Option<Cursor>, row: Click)
    requires UniqueIds(table) && q.limit >= 1
    requires var rows := OrderBy(Where(table, q, after)); |rows| > q.limit
    ensures var rows := OrderBy(Where(table, q, after));
            var next := Cursor(rows[q.limit - 1].at, rows[q.limit - 1].id);
            && (row in rows[q.limit..] <==> row in table && Selected(row, q, Some(next)))
            && (row in rows ==> row in rows[..q.limit] || Below(row, next))
  {
    Ordered(table, q, after);
    var rows := OrderBy(Where(table, q, after));
    var last := rows[q.limit - 1];
    CutAt(rows, q.limit, row);
    assert last in rows;
    assert Selected(row, q, Some(Cursor(last.at, last.id))) ==> Selected(row, q, after);
  }

  // ---------------------------------------------------------------------------------------------
  // Following the cursors
  // ---------------------------------------------------------------------------------------------

  /** A client's walk: the page of each table in turn, from wherever the last cursor pointed. */
  function Walk(c: Codec, tables: seq<seq<Click>>, q: Query, after: Option<Cursor>): seq<Click> {
    if tables == [] then []
    else
      var page := Read(c, tables[0], q, after);
      page.items + (if page.nextCursor.None? then []
                    else
                      var next := DecodeCursor(c, page.nextCursor.value);
                      if next.None? then [] else Walk(c, tables[1..], q, next))
  }

  /** The walk reaches a page that says there are no more. */
  predicate Complete(c: Codec, tables: seq<seq<Click>>, q: Query, after: Option<Cursor>) {
    && tables != []
    && var page := Read(c, tables[0], q, after);
       if !page.hasMore then true
       else
         && page.nextCursor.Some?
         && var next := DecodeCursor(c, page.nextCursor.value);
            next.Some? && Complete(c, tables[1..], q, next)
  }

  /** Rows are appended between pages and none goes. */
  ghost predicate Growing(tables: seq<seq<Click>>) {
    && (forall i :: 0 <= i < |tables| ==> UniqueIds(tables[i]) && Storable(tables[i]))
    && (forall i, j :: 0 <= i < j < |tables| ==> Kept(tables[i], tables[j]))
  }

  ghost predicate Kept(table: seq<Click>, later: seq<Click>) {
    forall x :: x in table ==> x in later
  }

  lemma RowIsStorable(table: seq<Click>, q: Query, after: Option<Cursor>, i: nat)
    requires UniqueIds(table) && Storable(table) && i < |OrderBy(Where(table, q, after))|
    ensures IsStorableInstant(OrderBy(Where(table, q, after))[i].at)
  {
    Ordered(table, q, after);
    var row := OrderBy(Where(table, q, after))[i];
    assert row in OrderBy(Where(table, q, after));
    var k :| 0 <= k < |table| && table[k] == row;
  }

  lemma PageIsPrefix(c: Codec, table: seq<Click>, q: Query, after: Option<Cursor>)
    requires IsUuid(q.linkId)
    ensures var rows, page := OrderBy(Where(table, q, after)), Read(c, table, q, after);
            && page.items == (if |rows| > q.limit then rows[..q.limit] else rows)
            && (page.hasMore <==> |rows| > q.limit)
  {
    var rows := OrderBy(Where(table, q, after));
    if |rows| > q.limit {
      assert rows[..q.limit + 1][..q.limit] == rows[..q.limit];
    }
  }

  lemma PageShape(c: Codec, table: seq<Click>, q: Query, after: Option<Cursor>)
    requires q.limit >= 1
    ensures var page := Read(c, table, q, after);
            var rows := OrderBy(Where(table, q, after));
            && (page.hasMore <==> IsUuid(q.linkId) && |rows| > q.limit)
            && (page.hasMore ==>
                  && page.items == rows[..q.limit]
                  && page.nextCursor == Some(EncodeCursor(c, Cursor(rows[q.limit - 1].at, rows[q.limit - 1].id))))
            && (!page.hasMore ==> page.nextCursor == None && page.items == (if IsUuid(q.linkId) then rows else []))
  {
    if IsUuid(q.linkId) {
      PageIsPrefix(c, table, q, after);
    }
  }

  /** A page with more behind it issues the cursor of its last row, and that cursor decodes. */
  lemma PageCursor(c: Codec, table: seq<Click>, q: Query, after: Option<Cursor>)
    requires Lawful(c) && UniqueIds(table) && Storable(table) && q.limit >= 1
    ensures var page := Read(c, table, q, after);
            var rows := OrderBy(Where(table, q, after));
            && (page.hasMore <==> IsUuid(q.linkId) && |rows| > q.limit)
            && (page.hasMore ==>
                  && page.items == rows[..q.limit] && page.nextCursor.Some?
                  && DecodeCursor(c, page.nextCursor.value) == Some(Cursor(rows[q.limit - 1].at, rows[q.limit - 1].id)))
            && (!page.hasMore ==> page.nextCursor == None && page.items == (if IsUuid(q.linkId) then rows else []))
  {
    PageShape(c, table, q, after);
    var rows := OrderBy(Where(table, q, after));
    if |rows| > q.limit {
      RowIsStorable(table, q, after, q.limit - 1);
      DecodeInvertsEncode(c, Cursor(rows[q.limit - 1].at, rows[q.limit - 1].id));
    }
  }

  lemma TailGrows(tables: seq<seq<Click>>)
    requires Growing(tables) && tables != []
    ensures Growing(tables[1..])
  {
    assert forall i :: 0 <= i < |tables| - 1 ==> tables[1..][i] == tables[i + 1];
  }

  ghost predicate AllBelow(rows: seq<Click>, after: Option<Cursor>) {
    after.Some? ==> forall x :: x in rows ==> Below(x, after.value)
  }

  lemma PageDescends(c: Codec, table: seq<Click>, q: Query, after: Option<Cursor>)
    requires UniqueIds(table)
    ensures Descending(Read(c, table, q, after).items) && AllBelow(Read(c, table, q, after).items, after)
  {
    Ordered(table, q, after);
    var rows := OrderBy(Where(table, q, after));
    var items := Read(c, table, q, after).items;
    assert forall i :: 0 <= i < |items| ==> items[i] == rows[i];
    forall x | x in items ensures x in rows {
    }
  }

  /**
   A page holds the newest of what the query selects behind the cursor, no more than asked for; it says
   there are more iff something selected is not on it, and then its cursor points at its last row.
   */
  lemma PageSays(c: Codec, table: seq<Click>, q: Query, after: Option<Cursor>)
    requires Lawful(c) && UniqueIds(table) && Storable(table)
    ensures var page := Read(c, table, q, after);
            if !IsUuid(q.linkId) then page == Page([], None, false)
            else
              && |page.items| <= q.limit && (forall x :: x in page.items ==> x in table && Selected(x, q, after))
              && (forall x, y :: x in page.items && y in table && Selected(y, q, after) && y !in page.items ==>
                    x.at > y.at || (x.at == y.at && x.id > y.id))
              && (page.hasMore <==> exists y :: y in table && Selected(y, q, after) && y !in page.items)
              && (page.nextCursor.Some? <==> page.hasMore && q.limit >= 1)
              && (page.nextCursor.Some? ==>
                    && |page.items| == q.limit
                    && var last := page.items[q.limit - 1];
                       DecodeCursor(c, page.nextCursor.value) == Some(Cursor(last.at, last.id)))
  {
    if IsUuid(q.linkId) {
      Ordered(table, q, after);
      var rows, page := OrderBy(Where(table, q, after)), Read(c, table, q, after);
      PageIsPrefix(c, table, q, after);
      if |rows| > q.limit {
        assert rows[q.limit] in rows && rows[q.limit] !in page.items;
      }
      if page.nextCursor.Some? {
        RowIsStorable(table, q, after, q.limit - 1);
        DecodeInvertsEncode(c, Cursor(rows[q.limit - 1].at, rows[q.limit - 1].id));
      }
    }
  }

  /** NO ROW REPEATS, whatever is appended meanwhile: the walk is strictly descending. */
  lemma {:induction false} WalkDescends(c: Codec, tables: seq<seq<Click>>, q: Query, after: Option<Cursor>)
    requires Lawful(c) && Growing(tables) && q.limit >= 1
    ensures Descending(Walk(c, tables, q, after)) && AllBelow(Walk(c, tables, q, after), after)
    decreases |tables|
  {
    if tables != [] {
      PageDescends(c, tables[0], q, after);
      PageCursor(c, tables[0], q, after);
      var page := Read(c, tables[0], q, after);
      if page.hasMore {
        var next := DecodeCursor(c, page.nextCursor.value);
        assert page.items[|page.items| - 1] == OrderBy(Where(tables[0], q, after))[q.limit - 1];
        TailGrows(tables);
        WalkDescends(c, tables[1..], q, next);
        JoinDescending(page.items, Walk(c, tables[1..], q, next), after);
      } else {
        assert page.items + [] == page.items;
      }
    }
  }

  /** A page's rows followed by rows below its last one. */
  lemma JoinDescending(items: seq<Click>, rest: seq<Click>, after: Option<Cursor>)
    requires items != [] && Descending(items) && Descending(rest) && AllBelow(items, after)
    requires AllBelow(rest, Some(Cursor(items[|items| - 1].at, items[|items| - 1].id)))
    ensures Descending(items + rest) && AllBelow(items + rest, after)
  {
    var all, last := items + rest, items[|items| - 1];
    assert last in items;
    forall x | x in rest ensures Newer(last, x) {
    }
    forall i, j | 0 <= i < j < |all| ensures Newer(all[i], all[j]) {
      if i < |items| <= j {
        assert rest[j - |items|] in rest;
        assert i < |items| - 1 ==> Newer(items[i], last);
      }
    }
  }

  /** NO ROW IS LOST: a complete walk returns every row the query selects from the first page's table. */
  lemma {:induction false} WalkReturnsEveryRow(
      c: Codec, tables: seq<seq<Click>>, q: Query, after: Option<Cursor>, row: Click)
    requires Lawful(c) && Growing(tables) && q.limit >= 1 && IsUuid(q.linkId)
    requires Complete(c, tables, q, after) && row in tables[0] && Selected(row, q, after)
    ensures row in Walk(c, tables, q, after)
    decreases |tables|
  {
    Ordered(tables[0], q, after);
    PageCursor(c, tables[0], q, after);
    var rows := OrderBy(Where(tables[0], q, after));
    if |rows| > q.limit && row !in rows[..q.limit] {
      RestOfThePage(tables[0], q, after, row);
      TailGrows(tables);
      assert Kept(tables[0], tables[1]);
      WalkReturnsEveryRow(c, tables[1..], q, Some(Cursor(rows[q.limit - 1].at, rows[q.limit - 1].id)), row);
    }
  }

  /** And nothing else but rows selected from a table the walk read. */
  lemma {:induction false} WalkReturnsOnlySelected(
      c: Codec, tables: seq<seq<Click>>, q: Query, after: Option<Cursor>, row: Click)
    requires Lawful(c) && Growing(tables) && q.limit >= 1 && row in Walk(c, tables, q, after)
    ensures Selected(row, q, after)
    ensures row.tenantId == q.tenantId && row.linkId == q.linkId && q.from <= row.at <= q.to
    ensures exists i :: 0 <= i < |tables| && row in tables[i]
    decreases |tables|
  {
    Ordered(tables[0], q, after);
    PageCursor(c, tables[0], q, after);
    var page := Read(c, tables[0], q, after);
    var rows := OrderBy(Where(tables[0], q, after));
    if row !in page.items {
      var last := rows[q.limit - 1];
      assert last in rows;
      TailGrows(tables);
      WalkReturnsOnlySelected(c, tables[1..], q, Some(Cursor(last.at, last.id)), row);
      var i :| 0 <= i < |tables| - 1 && row in tables[1..][i];
      assert row in tables[i + 1];
    } else {
      assert row in tables[0];
    }
  }

  function Unchanged(table: seq<Click>, pages: nat): seq<seq<Click>> {
    seq(pages, _ => table)
  }

  lemma {:induction false} WalkEnds(c: Codec, table: seq<Click>, pages: nat, q: Query, after: Option<Cursor>)
    requires Lawful(c) && UniqueIds(table) && Storable(table) && q.limit >= 1
    requires pages > |OrderBy(Where(table, q, after))|
    ensures Complete(c, Unchanged(table, pages), q, after)
    decreases pages
  {
    PageCursor(c, table, q, after);
    var rows := OrderBy(Where(table, q, after));
    assert Unchanged(table, pages)[1..] == Unchanged(table, pages - 1);
    if Read(c, table, q, after).hasMore {
      var next := Some(Cursor(rows[q.limit - 1].at, rows[q.limit - 1].id));
      RestIsShorter(table, q, after);
      WalkEnds(c, table, pages - 1, q, next);
    }
  }

  lemma FirstIsNewest(rows: seq<Click>, x: Click)
    requires Descending(rows)
    ensures x in rows ==> x == rows[0] || Newer(rows[0], x)
    ensures rows == [] || rows[0] in rows
    ensures x in rows && x != rows[0] ==> x in rows[1..]
    ensures rows != [] && x in rows[1..] ==> x in rows && x != rows[0]
  {
    assert forall k :: 1 <= k < |rows| ==> rows[1..][k - 1] == rows[k];
  }

  /** Descending lists with the same members are the same list. */
  lemma {:induction false} SameMembers(a: seq<Click>, b: seq<Click>)
    requires Descending(a) && Descending(b) && forall x :: x in a <==> x in b
    ensures a == b
    decreases |a|
  {
    if a == [] {
      FirstIsNewest(b, Click(0, "", "", 0, None));
    } else {
      FirstIsNewest(b, a[0]);
      FirstIsNewest(a, b[0]);
      assert a[0] == b[0];
      assert forall k :: 0 <= k < |a| - 1 ==> a[1..][k] == a[k + 1];
      assert forall k :: 0 <= k < |b| - 1 ==> b[1..][k] == b[k + 1];
      forall x ensures x in a[1..] <==> x in b[1..] {
        FirstIsNewest(a, x);
        FirstIsNewest(b, x);
      }
      SameMembers(a[1..], b[1..]);
    }
  }

  lemma RestIsShorter(table: seq<Click>, q: Query, after: Option<Cursor>)
    requires UniqueIds(table) && q.limit >= 1 && |OrderBy(Where(table, q, after))| > q.limit
    ensures var rows := OrderBy(Where(table, q, after));
            OrderBy(Where(table, q, Some(Cursor(rows[q.limit - 1].at, rows[q.limit - 1].id)))) == rows[q.limit..]
  {
    var rows := OrderBy(Where(table, q, after));
    var next := Some(Cursor(rows[q.limit - 1].at, rows[q.limit - 1].id));
    Ordered(table, q, after);
    Ordered(table, q, next);
    forall x ensures x in OrderBy(Where(table, q, next)) <==> x in rows[q.limit..] {
      RestOfThePage(table, q, after, x);
    }
    SameMembers(OrderBy(Where(table, q, next)), rows[q.limit..]);
  }

  /**
   FOLLOWED TO THE END over a table that does not change, the cursors return exactly the selected rows
   in descending order, each once.
   */
  lemma WalkIsTheWholeList(c: Codec, table: seq<Click>, pages: nat, q: Query)
    requires Lawful(c) && UniqueIds(table) && Storable(table) && q.limit >= 1 && IsUuid(q.linkId)
    requires pages > |table|
    ensures Complete(c, Unchanged(table, pages), q, None)
    ensures Descending(Walk(c, Unchanged(table, pages), q, None))
    ensures forall x :: x in Walk(c, Unchanged(table, pages), q, None) <==>
              x in table && x.tenantId == q.tenantId && x.linkId == q.linkId && q.from <= x.at <= q.to
    ensures var rows := Walk(c, Unchanged(table, pages), q, None);
            forall i, j :: 0 <= i < j < |rows| ==>
              rows[i].at > rows[j].at || (rows[i].at == rows[j].at && rows[i].id > rows[j].id)
  {
    var tables := Unchanged(table, pages);
    Ordered(table, q, None);
    WalkEnds(c, table, pages, q, None);
    WalkDescends(c, tables, q, None);
    forall x ensures x in Walk(c, tables, q, None) <==> x in table && Selected(x, q, None) {
      if x in Walk(c, tables, q, None) {
        WalkReturnsOnlySelected(c, tables, q, None, x);
      }
      if x in table && Selected(x, q, None) {
        WalkReturnsEveryRow(c, tables, q, None, x);
      }
    }
  }
}

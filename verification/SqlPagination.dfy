/** The PostgreSQL paginator.  One call issues up to four statements with no transaction around
    them, so each statement reads its own snapshot of the table. */
module SqlPagination {
  import opened Text
  import opened Keyset
  import opened Cursor
  import opened Paging

  /** The table as each statement of one call sees it, and the clock reading of that call. */
  datatype Database = Database(find: set<Row>, count: set<Row>, next: set<Row>, previous: set<Row>, now: int)

  function Unchanging(s: set<Row>, now: int): Database {
    Database(s, s, s, s, now)
  }

  datatype PageError = AfterCursor(error: CursorError) | BeforeCursor(error: CursorError)

  // ---- the statements ----------------------------------------------------

  function BelowCursor(s: set<Row>, c: Option<Row>): set<Row> {
    if c.None? then s else Below(s, c.value)
  }

  function OverCursor(s: set<Row>, c: Option<Row>): set<Row> {
    if c.None? then s else Over(s, c.value)
  }

  /** What `queryItems` returns, in page order. */
  function QueryRows(s: set<Row>, args: Arguments, after: Option<Row>, before: Option<Row>): seq<Row> {
    if args.first.Some? then Take(Desc(BelowCursor(s, after)), args.first.value)
    else if args.last.Some? then TakeLast(Desc(OverCursor(s, before)), args.last.value)
    else Desc(BelowCursor(s, after))
  }

  /** `hasNextPage`: without an identifier only the times are compared. */
  predicate RowFollows(s: set<Row>, c: Row) {
    if c.id == [] then exists r :: r in s && r.rank < c.rank
    else exists r :: r in s && Less(r, c)
  }

  /** `hasPreviousPage`. */
  predicate RowPrecedes(s: set<Row>, c: Row) {
    if c.id == [] then exists r :: r in s && r.rank > c.rank
    else exists r :: r in s && Less(c, r)
  }

  // ---- ListItems ---------------------------------------------------------

  /** The key the probes of a forward page use: its last row, else the cursor, else now. */
  function ForwardProbe(now: int, after: Option<Row>, end: Option<Row>): Row {
    if end.Some? then end.value else if after.Some? then after.value else Row(now, [])
  }

  /** The key the probes of a backward page use: its first row, else the cursor, else the zero time. */
  function BackwardProbe(before: Option<Row>, start: Option<Row>): Row {
    if start.Some? then start.value else if before.Some? then before.value else Row(0, [])
  }

  /** `getPageInfo`: the pair (HasPreviousPage, HasNextPage). */
  function Flags(db: Database, args: Arguments, after: Option<Row>, before: Option<Row>, q: seq<Row>): (bool, bool) {
    if args.first.Some? then
      var at := ForwardProbe(db.now, after, Last(q));
      (after.Some? && RowPrecedes(db.previous, at), RowFollows(db.next, at))
    else
      var at := BackwardProbe(before, First(q));
      (RowPrecedes(db.previous, at), before.Some? && RowFollows(db.next, at))
  }

  function ItemsOf(tt: TimeText, q: seq<Row>): (items: seq<Item>)
    ensures |items| == |q|
  {
    seq(|q|, i requires 0 <= i < |q| => Item(q[i], CursorText(tt, q[i])))
  }

  function BuildPage(tt: TimeText, q: seq<Row>, flags: (bool, bool), total: nat): (p: Page)
    ensures p.Rows() == q
  {
    var items := ItemsOf(tt, q);
    var start := if items == [] then None else Some(items[0].cursor);
    var end := if items == [] then None else Some(items[|items| - 1].cursor);
    Page(items, PageInfo(flags.0, flags.1, start, end, total))
  }

  function DecodeCursor(tt: TimeText, text: Option<Str>): Result<Option<Row>, CursorError> {
    match text
    case None => Ok(None)
    case Some(t) =>
      match ParseCursor(tt, t)
      case Err(e) => Err(e)
      case Ok(row) => Ok(Some(row))
  }

  /** What a call of `ListItems` returns. */
  function PageOf(tt: TimeText, db: Database, args: Arguments): Result<Page, PageError> {
    match DecodeCursor(tt, args.after)
    case Err(e) => Err(AfterCursor(e))
    case Ok(after) =>
      match DecodeCursor(tt, args.before)
      case Err(e) => Err(BeforeCursor(e))
      case Ok(before) =>
        var q := QueryRows(db.find, args, after, before);
        Ok(BuildPage(tt, q, Flags(db, args, after, before, q), |db.count|))
  }

  // ---- the code ----------------------------------------------------------

  /** `Find` with an order, a strict key condition already applied, and an optional limit. */
  method Find(scope: set<Row>, descending: bool, limit: Option<nat>) returns (a: array<Row>)
    ensures fresh(a)
    ensures a[..] == var q := if descending then Desc(scope) else Reverse(Desc(scope));
                     if limit.None? then q else Take(q, limit.value)
  {
    var q := Desc(scope);
    if !descending {
      q := Reverse(q);
    }
    if limit.Some? {
      q := Take(q, limit.value);
    }
    a := ToArray(q);
  }

  method QueryItems(s: set<Row>, args: Arguments, after: Option<Row>, before: Option<Row>) returns (items: array<Row>)
    requires args.OneDirection()
    ensures fresh(items)
    ensures items[..] == QueryRows(s, args, after, before)
  {
    items := new Row[0];
    if args.first.None? && args.last.None? {
      items := Find(BelowCursor(s, after), true, None);
    }
    if args.first.Some? {
      items := Find(BelowCursor(s, after), true, args.first);
    }
    if args.last.Some? {
      items := Find(OverCursor(s, before), false, args.last);
      ReverseItems(items);
      ReverseTakeReverse(Desc(OverCursor(s, before)), args.last.value);
    }
  }

  method ForwardPageInfo(db: Database, after: Option<Row>, end: Option<Row>) returns (hasPrevious: bool, hasNext: bool)
    ensures hasNext == RowFollows(db.next, ForwardProbe(db.now, after, end))
    ensures hasPrevious == (after.Some? && RowPrecedes(db.previous, ForwardProbe(db.now, after, end)))
  {
    var createdAt, id := db.now, [];
    if end.Some? {
      createdAt, id := end.value.rank, end.value.id;
    } else if after.Some? {
      createdAt, id := after.value.rank, after.value.id;
    }
    hasNext := RowFollows(db.next, Row(createdAt, id));
    if after.None? {
      return false, hasNext;
    }
    hasPrevious := RowPrecedes(db.previous, Row(createdAt, id));
  }

  method BackwardPageInfo(db: Database, before: Option<Row>, start: Option<Row>)
    returns (hasPrevious: bool, hasNext: bool)
    ensures hasPrevious == RowPrecedes(db.previous, BackwardProbe(before, start))
    ensures hasNext == (before.Some? && RowFollows(db.next, BackwardProbe(before, start)))
  {
    var createdAt, id := 0, [];
    if start.Some? {
      createdAt, id := start.value.rank, start.value.id;
    } else if before.Some? {
      createdAt, id := before.value.rank, before.value.id;
    }
    hasPrevious := RowPrecedes(db.previous, Row(createdAt, id));
    if before.None? {
      return hasPrevious, false;
    }
    hasNext := RowFollows(db.next, Row(createdAt, id));
  }

  method DecodeArgument(tt: TimeText, text: Option<Str>) returns (r: Result<Option<Row>, CursorError>)
    ensures r == DecodeCursor(tt, text)
  {
    if text.None? {
      return Ok(None);
    }
    var box := new CursorBox();
    var parsed := box.SetString(tt, text.value);
    if parsed.Err? {
      return Err(parsed.error);
    }
    r := Ok(Some(parsed.value));
  }

  /** The loop that attaches a cursor to every item and remembers the first and the last. */
  method AttachCursors(tt: TimeText, items: array<Row>)
    returns (paginated: array<Item>, start: Option<Row>, end: Option<Row>)
    ensures paginated[..] == ItemsOf(tt, items[..])
    ensures paginated.Length == items.Length
    ensures forall i :: 0 <= i < items.Length ==> paginated[i] == Item(items[i], CursorText(tt, items[i]))
    ensures start == First(items[..]) && end == Last(items[..])
  {
    var n := items.Length;
    paginated := new Item[n](_ => Item(Row(0, []), []));
    start, end := None, None;
    for i := 0 to n
      invariant forall j :: 0 <= j < i ==> paginated[j] == Item(items[j], CursorText(tt, items[j]))
      invariant start == if i == 0 then None else Some(items[0])
      invariant end == if i < n || n == 0 then None else Some(items[n - 1])
    {
      var cursor := items[i];
      if i == 0 {
        start := Some(cursor);
      }
      if i == n - 1 {
        end := Some(cursor);
      }
      paginated[i] := Item(items[i], CursorText(tt, cursor));
    }
  }

  method ListItems(tt: TimeText, db: Database, args: Arguments) returns (r: Result<Page, PageError>)
    requires args.OneDirection()
    ensures r == PageOf(tt, db, args)
    ensures r.Ok? ==>
              forall i :: 0 <= i < |r.value.items| ==> r.value.items[i].cursor == CursorText(tt, r.value.items[i].row)
  {
    hide QueryRows, DecodeCursor, RowFollows, RowPrecedes, ForwardProbe, BackwardProbe;
    var after := DecodeArgument(tt, args.after);
    if after.Err? {
      return Err(AfterCursor(after.error));
    }
    var before := DecodeArgument(tt, args.before);
    if before.Err? {
      return Err(BeforeCursor(before.error));
    }
    var items := QueryItems(db.find, args, after.value, before.value);
    var paginated, start, end := AttachCursors(tt, items);
    var hasPrevious, hasNext;
    if args.first.Some? {
      hasPrevious, hasNext := ForwardPageInfo(db, after.value, end);
    } else {
      hasPrevious, hasNext := BackwardPageInfo(db, before.value, start);
    }
    var info := PageInfo(hasPrevious, hasNext, None, None, |db.count|);
    if paginated.Length > 0 {
      info := info.(startCursor := Some(paginated[0].cursor),
                    endCursor := Some(paginated[paginated.Length - 1].cursor));
    }
    r := Ok(Page(paginated[..], info));
  }
}

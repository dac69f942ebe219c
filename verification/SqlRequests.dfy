/** What single requests return, over any snapshots and for any combination of arguments: which cursor
    errors there are, what each item carries, and where a client gets from the cursor of any item. */
module SqlRequests {
  import opened Text
  import opened Codec
  import opened Keyset
  import opened Cursor
  import opened Paging
  import opened SqlPagination
  import opened SqlChangingWalk
  import opened SqlStaticWalk

  // ---- rejected cursors --------------------------------------------------

  /** Not base64, no colon inside, or no time behind the first colon. */
  ghost predicate Malformed(tt: TimeText, text: Str, e: CursorError) {
    var raw := Base64Decode(text);
    match e
    case BadBase64 => raw.None?
    case NoSeparator => raw.Some? && 0x3A !in raw.value
    case BadTime => raw.Some? && exists id, time :: CutAt(raw.value, id, time) && tt.parse(time).None?
    case BadIdType => false
  }

  lemma MalformedIs(tt: TimeText, text: Str)
    ensures forall e :: ParseCursor(tt, text) == Err(e) <==> Malformed(tt, text, e)
    ensures ParseCursor(tt, text).Err? <==> exists e :: Malformed(tt, text, e)
  {
    ParseExactly(tt, text);
    var r := ParseCursor(tt, text);
    hide Base64Decode, CutAt;
    forall e
      ensures r == Err(e) <==> Malformed(tt, text, e)
    {
      if e == BadIdType {
        assert r != Err(e);
      }
    }
    if r.Err? {
      assert Malformed(tt, text, r.error);
    }
  }

  /** A request is rejected exactly for a malformed After or, if that is in order, a malformed Before, with
      the error that says what is wrong with it; limits and table do not matter. */
  lemma RejectedExactly(tt: TimeText, db: Database, args: Arguments)
    ensures var r := PageOf(tt, db, args);
            var badAfter := args.after.Some? && exists e :: Malformed(tt, args.after.value, e);
            && (forall e :: r == Err(AfterCursor(e)) <==> args.after.Some? && Malformed(tt, args.after.value, e))
            && (forall e :: r == Err(BeforeCursor(e)) <==>
                  !badAfter && args.before.Some? && Malformed(tt, args.before.value, e))
  {
    hide ParseCursor, Malformed, QueryRows, Flags;
    if args.after.Some? {
      MalformedIs(tt, args.after.value);
    }
    if args.before.Some? {
      MalformedIs(tt, args.before.value);
    }
  }

  // ---- what the items carry ----------------------------------------------

  /** Every item of every page carries its own row's cursor, the page's start and end cursors are those of
      its first and last item, and the total is what the count statement saw. */
  lemma ItemsCarryOwnCursors(tt: TimeText, db: Database, args: Arguments)
    requires tt.Lawful() && PageOf(tt, db, args).Ok?
    ensures var p := PageOf(tt, db, args).value;
            && (forall i :: 0 <= i < |p.items| && Sendable(tt, p.items[i].row) ==>
                  ParseCursor(tt, p.items[i].cursor) == Ok(p.items[i].row))
            && (if p.items == [] then p.info.startCursor == p.info.endCursor == None
                else && p.info.startCursor == Some(p.items[0].cursor)
                     && p.info.endCursor == Some(p.items[|p.items| - 1].cursor))
            && p.info.totalCount == |db.count|
  {
    var p := PageOf(tt, db, args).value;
    hide QueryRows, Flags, CursorText, ParseCursor, DecodeCursor, Addressable;
    forall i | 0 <= i < |p.items| && Sendable(tt, p.items[i].row)
      ensures ParseCursor(tt, p.items[i].cursor) == Ok(p.items[i].row)
    {
      CursorRoundTrip(tt, p.items[i].row);
    }
  }

  /** All rows on a page come from the table as the item query saw it. */
  lemma PageRowsFromTable(tt: TimeText, db: Database, args: Arguments, i: nat)
    requires PageOf(tt, db, args).Ok? && i < |PageOf(tt, db, args).value.items|
    ensures PageOf(tt, db, args).value.items[i].row in db.find
  {
    var p := PageOf(tt, db, args).value;
    assert DecodeCursor(tt, args.after).Ok? && DecodeCursor(tt, args.before).Ok?;
    var after, before := DecodeCursor(tt, args.after).value, DecodeCursor(tt, args.before).value;
    assert p.Rows() == QueryRows(db.find, args, after, before);
    assert p.items[i].row == p.Rows()[i];
    hide Flags, CursorText, DecodeCursor, Desc, PageOf, Page.Rows;
    QueriedFromTable(db.find, args, after, before, i);
  }

  lemma QueriedFromTable(s: set<Row>, args: Arguments, after: Option<Row>, before: Option<Row>, i: nat)
    requires i < |QueryRows(s, args, after, before)|
    ensures QueryRows(s, args, after, before)[i] in s
  {
    hide Desc, Less;
    DescLists(BelowCursor(s, after));
    DescLists(OverCursor(s, before));
    var q := QueryRows(s, args, after, before);
    if args.first.Some? || args.last.None? {
      assert q[i] == Desc(BelowCursor(s, after))[i] && q[i] in Desc(BelowCursor(s, after));
    } else {
      var all := Desc(OverCursor(s, before));
      assert q[i] == all[|all| - |q| + i] && q[i] in all;
    }
  }

  /** Where in the listing an item stands. */
  lemma ItemPosition(tt: TimeText, s: set<Row>, args: Arguments, i: nat, now: int) returns (j: nat)
    requires PageOf(tt, Unchanging(s, now), args).Ok? && i < |PageOf(tt, Unchanging(s, now), args).value.items|
    ensures var item := PageOf(tt, Unchanging(s, now), args).value.items[i];
            j < |Desc(s)| && Desc(s)[j] == item.row && item.cursor == CursorText(tt, Desc(s)[j])
  {
    hide PageOf, Desc, Less, CursorText;
    var db := Unchanging(s, now);
    PageRowsFromTable(tt, db, args, i);
    ItemCursorIs(tt, db, args, i);
    DescLists(s);
    j :| 0 <= j < |Desc(s)| && Desc(s)[j] == PageOf(tt, db, args).value.items[i].row;
  }

  /** From the cursor of row `j`: the next k rows, the k rows in front, the whole rest. */
  lemma ResumeAtRow(tt: TimeText, s: set<Row>, j: nat, k: nat, now: int)
    requires tt.Lawful() && k >= 1 && SendableRows(tt, s) && j < |Desc(s)|
    ensures var c := Some(CursorText(tt, Desc(s)[j]));
            var next := PageOf(tt, Unchanging(s, now), Forward(k, c));
            var back := PageOf(tt, Unchanging(s, now), Backward(k, c));
            && next.Ok? && next.value.Rows() == Desc(s)[j + 1..if j + 1 + k < |s| then j + 1 + k else |s|]
            && back.Ok? && back.value.Rows() == Desc(s)[if k < j then j - k else 0..j]
  {
    hide PageOf, Desc, Less, CursorText, Sendable, Page.Rows, SendableRows;
    CursorTexts(tt, s, j);
    ForwardCall(tt, k, s, j + 1, now);
    BackwardCall(tt, k, s, j, now);
  }

  /** From the cursor of any item of any page of an unchanging table, First=k shows the next k rows of the
      listing, Last=k the k rows in front of it, and no limit the whole rest. */
  lemma ResumeAtItem(tt: TimeText, s: set<Row>, args: Arguments, k: nat, i: nat, now: int) returns (j: nat)
    requires tt.Lawful() && k >= 1 && SendableRows(tt, s)
    requires PageOf(tt, Unchanging(s, now), args).Ok? && i < |PageOf(tt, Unchanging(s, now), args).value.items|
    ensures var item := PageOf(tt, Unchanging(s, now), args).value.items[i];
            var next := PageOf(tt, Unchanging(s, now), Forward(k, Some(item.cursor)));
            var back := PageOf(tt, Unchanging(s, now), Backward(k, Some(item.cursor)));
            var rest := PageOf(tt, Unchanging(s, now), Arguments(None, Some(item.cursor), None, None));
            && j < |Desc(s)| && Desc(s)[j] == item.row
            && next.Ok? && next.value.Rows() == Desc(s)[j + 1..if j + 1 + k < |s| then j + 1 + k else |s|]
            && back.Ok? && back.value.Rows() == Desc(s)[if k < j then j - k else 0..j]
            && rest.Ok? && rest.value.Rows() == Desc(s)[j + 1..]
  {
    hide PageOf, Desc, CursorText, Page.Rows, SendableRows;
    j := ItemPosition(tt, s, args, i, now);
    ResumeAtRow(tt, s, j, k, now);
    RestAfter(tt, s, j, now);
  }

  lemma ItemCursorIs(tt: TimeText, db: Database, args: Arguments, i: nat)
    requires PageOf(tt, db, args).Ok? && i < |PageOf(tt, db, args).value.items|
    ensures var item := PageOf(tt, db, args).value.items[i];
            item.cursor == CursorText(tt, item.row)
  {
    hide QueryRows, Flags, CursorText, DecodeCursor;
  }

  lemma RestAfter(tt: TimeText, s: set<Row>, j: nat, now: int)
    requires tt.Lawful() && SendableRows(tt, s) && j < |Desc(s)|
    ensures var r := PageOf(tt, Unchanging(s, now), Arguments(None, Some(CursorText(tt, Desc(s)[j])), None, None));
            r.Ok? && r.value.Rows() == Desc(s)[j + 1..]
  {
    hide Desc, Less, CursorText, ParseCursor, DecodeCursor, RowFollows, RowPrecedes, Addressable, Sendable;
    var c := Desc(s)[j];
    ListedRow(tt, s, j);
    DecodeOwnCursor(tt, Some(c));
    DecodeOwnCursor(tt, None);
    assert OptionalCursor(tt, Some(c)) == Some(CursorText(tt, c));
    BelowRowAt(s, j);
  }

  // ---- which argument and which snapshot matters -------------------------

  /** A First request reads Before only to reject it, a Last request After, and one without limits Before. */
  lemma OtherCursorUnread(tt: TimeText, db: Database, args: Arguments, other: Option<Str>)
    requires args.OneDirection() && DecodeCursor(tt, other).Ok? && PageOf(tt, db, args).Ok?
    ensures args.first.Some? ==> PageOf(tt, db, args.(before := other)) == PageOf(tt, db, args)
    ensures args.last.Some? ==> PageOf(tt, db, args.(after := other)) == PageOf(tt, db, args)
    ensures args.last.None? ==>
              PageOf(tt, db, args.(before := other)).value.Rows() == PageOf(tt, db, args).value.Rows()
  {
    hide DecodeCursor, RowFollows, RowPrecedes, Desc;
  }

  /** The flags come from the probe statements' own snapshots; an empty page without a cursor is probed
      from the present, or for Last from the zero time. */
  lemma FlagsReadTheirSnapshots(tt: TimeText, db: Database, k: nat)
    requires k >= 1 && db.find == {}
    ensures var f, b := PageOf(tt, db, Forward(k, None)), PageOf(tt, db, Backward(k, None));
            && f.Ok? && f.value.items == [] && b.Ok? && b.value.items == []
            && (f.value.info.hasNext <==> exists r :: r in db.next && r.rank < db.now)
            && !f.value.info.hasPrevious
            && (b.value.info.hasPrevious <==> exists r :: r in db.previous && r.rank > 0)
            && !b.value.info.hasNext
  {
    assert |Desc({})| == 0;
    hide Desc;
  }

  /** The flag against the direction of travel of a First=k page reads the other probe's snapshot. */
  lemma FarFlagForward(tt: TimeText, db: Database, k: nat, c: Row)
    requires tt.Lawful() && k >= 1 && Sendable(tt, c) && forall r :: r in db.find ==> r.id != []
    ensures var f := PageOf(tt, db, Forward(k, Some(CursorText(tt, c))));
            && f.Ok?
            && var q := f.value.Rows();
               var end := if q == [] then c else q[|q| - 1];
               f.value.info.hasPrevious <==> exists r :: r in db.previous && Less(end, r)
  {
    hide Desc, Less, CursorText, ParseCursor, DecodeCursor, RowPrecedes, RowFollows;
    DecodeOwnCursor(tt, Some(c));
    DecodeOwnCursor(tt, None);
    assert OptionalCursor(tt, Some(c)) == Some(CursorText(tt, c));
    var args := Forward(k, Some(CursorText(tt, c)));
    var q := QueryRows(db.find, args, Some(c), None);
    if q != [] {
      QueriedFromTable(db.find, args, Some(c), None, |q| - 1);
    }
    hide QueryRows;
    RowPrecedesIs(db.previous, if q == [] then c else q[|q| - 1]);
  }

  lemma FarFlagBackward(tt: TimeText, db: Database, k: nat, c: Row)
    requires tt.Lawful() && k >= 1 && Sendable(tt, c)
    ensures var b := PageOf(tt, db, Backward(k, Some(CursorText(tt, c))));
            && b.Ok?
            && var q := b.value.Rows();
               var start := if q == [] then c else q[0];
               b.value.info.hasNext <==> exists r :: r in db.next && Less(r, start)
  {
    hide Desc, Less, CursorText, ParseCursor, DecodeCursor, RowPrecedes, RowFollows;
    DecodeOwnCursor(tt, Some(c));
    DecodeOwnCursor(tt, None);
    assert OptionalCursor(tt, Some(c)) == Some(CursorText(tt, c));
    var args := Backward(k, Some(CursorText(tt, c)));
    var q := QueryRows(db.find, args, None, Some(c));
    hide QueryRows;
    RowFollowsIs(db.next, if q == [] then c else q[0]);
  }
}

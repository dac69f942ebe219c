/** A client that pages through a table that other writers keep changing, in either direction. */
module SqlChangingWalk {
  import opened Text
  import opened Keyset
  import opened Cursor
  import opened Paging
  import opened SqlPagination

  /** One `ListItems` call of a walk: what its statements saw, and the page it returned. */
  datatype Call = Call(db: Database, page: Page)

  function Emitted(calls: seq<Call>): seq<Row> {
    if calls == [] then [] else Emitted(Init(calls)) + Last(calls).value.page.Rows()
  }

  /** The After argument of the next call: the last EndCursor the client was given. */
  function NextAfter(calls: seq<Call>): Option<Str> {
    if calls == [] then None
    else if Last(calls).value.page.items == [] then NextAfter(Init(calls))
    else Last(calls).value.page.info.endCursor
  }

  /** Every page is what `ListItems` returns for First=k after the previous end cursor. */
  ghost predicate ForwardWalk(tt: TimeText, k: nat, calls: seq<Call>) {
    calls == [] || (
      && ForwardWalk(tt, k, Init(calls))
      && PageOf(tt, Last(calls).value.db, Forward(k, NextAfter(Init(calls)))) == Ok(Last(calls).value.page))
  }

  /** The row was in the table for every statement of the walk that looks for rows. */
  ghost predicate Present(calls: seq<Call>, r: Row) {
    forall c :: c in calls ==> r in c.db.find && r in c.db.next
  }

  ghost predicate Sendable(tt: TimeText, r: Row) {
    Addressable(r) && tt.writable(r.rank)
  }

  /** Every row the walk can meet has a cursor that can be sent back. */
  ghost predicate AllSendable(tt: TimeText, calls: seq<Call>) {
    forall c, r :: c in calls && r in c.db.find ==> Sendable(tt, r)
  }

  function OptionalCursor(tt: TimeText, c: Option<Row>): Option<Str> {
    if c.None? then None else Some(CursorText(tt, c.value))
  }

  lemma DecodeOwnCursor(tt: TimeText, c: Option<Row>)
    requires tt.Lawful() && (c.Some? ==> Sendable(tt, c.value))
    ensures DecodeCursor(tt, OptionalCursor(tt, c)) == Ok(c)
  {
    if c.Some? {
      CursorRoundTrip(tt, c.value);
    }
  }

  ghost predicate WalkState(tt: TimeText, calls: seq<Call>) {
    var out := Emitted(calls);
    && NextAfter(calls) == OptionalCursor(tt, Last(out))
    && Descending(out)
    && (forall r :: r in out ==> Sendable(tt, r))
    && (forall r :: Present(calls, r) && r !in out ==> out == [] || Less(r, Last(out).value))
    && (calls != [] && out == [] ==> forall r :: !Present(calls, r))
  }

  /** The page of one forward call from a cursor the client was given. */
  lemma ForwardCallAt(tt: TimeText, db: Database, k: nat, after: Option<Row>)
    requires tt.Lawful() && (after.Some? ==> Sendable(tt, after.value))
    ensures var r := PageOf(tt, db, Forward(k, OptionalCursor(tt, after)));
            var q := Take(Desc(BelowCursor(db.find, after)), k);
            && r.Ok? && r.value.Rows() == q && |r.value.items| == |q|
            && r.value.info.endCursor == OptionalCursor(tt, Last(q))
            && r.value.info.hasNext == RowFollows(db.next, ForwardProbe(db.now, after, Last(q)))
  {
    hide Desc, CursorText, ParseCursor, DecodeCursor, Addressable, Less, RowFollows, RowPrecedes, Sendable;
    DecodeOwnCursor(tt, after);
    DecodeOwnCursor(tt, None);
  }

  /** What one more call appends, what the client sends next, and what the probe looked for. */
  lemma PageStep(tt: TimeText, k: nat, calls: seq<Call>)
    requires tt.Lawful() && calls != [] && ForwardWalk(tt, k, calls)
    requires WalkState(tt, Init(calls))
    ensures var before, out, last := Emitted(Init(calls)), Emitted(calls), Last(calls).value;
            var after := Last(before);
            var q := Take(Desc(BelowCursor(last.db.find, after)), k);
            && out == before + q
            && Last(out) == (if q == [] then after else Last(q))
            && NextAfter(calls) == OptionalCursor(tt, Last(out))
            && last.page.info.hasNext == RowFollows(last.db.next, ForwardProbe(last.db.now, after, Last(q)))
  {
    hide Desc, Sendable, RowFollows, PageOf, Take, Page.Rows, Descending, OptionalCursor, Present;
    var last, before := Last(calls).value, Emitted(Init(calls));
    var after := Last(before);
    assert after.Some? ==> after.value in before;
    ForwardCallAt(tt, last.db, k, after);
    assert last.page.Rows() == [] ==> before + last.page.Rows() == before;
  }

  lemma PresentSplit(calls: seq<Call>, r: Row)
    requires calls != [] && Present(calls, r)
    ensures Present(Init(calls), r)
    ensures r in Last(calls).value.db.find && r in Last(calls).value.db.next
  {
    assert Last(calls).value in calls;
    assert forall c :: c in Init(calls) ==> c in calls;
  }

  lemma WalkStep(tt: TimeText, k: nat, calls: seq<Call>)
    requires tt.Lawful() && k >= 1 && calls != []
    requires ForwardWalk(tt, k, calls) && AllSendable(tt, calls)
    requires WalkState(tt, Init(calls))
    ensures WalkState(tt, calls)
    ensures !Last(calls).value.page.info.hasNext ==> forall r :: Present(calls, r) ==> r in Emitted(calls)
  {
    hide Desc, CursorText, Addressable, Less, ForwardWalk, PageOf, Present, Emitted, NextAfter, RowFollows;
    var last, before, out := Last(calls).value, Emitted(Init(calls)), Emitted(calls);
    var after := Last(before);
    var q := Take(Desc(BelowCursor(last.db.find, after)), k);
    PageStep(tt, k, calls);
    TakeCovers(BelowCursor(last.db.find, after), k);
    DescendingJoin(before, q);
    assert last in calls;
    forall r | r in q
      ensures Sendable(tt, r)
    {
      assert r in last.db.find;
    }
    forall r | Present(calls, r)
      ensures r !in out ==> out != [] && Less(r, Last(out).value)
      ensures !last.page.info.hasNext ==> r in out
    {
      PresentSplit(calls, r);
      if r !in out {
        if before == [] || Less(r, after.value) {
          assert r in BelowCursor(last.db.find, after);
        }
        assert Sendable(tt, Last(out).value);
        ProbeFinds(last.db.next, r, Last(out).value);
      }
    }
  }

  /** A row below an addressable key is found by the probe from that key. */
  lemma ProbeFinds(s: set<Row>, r: Row, c: Row)
    requires r in s && Less(r, c) && Addressable(c)
    ensures RowFollows(s, c)
  {
  }

  lemma {:induction false} WalkInvariant(tt: TimeText, k: nat, calls: seq<Call>)
    requires tt.Lawful() && k >= 1
    requires ForwardWalk(tt, k, calls) && AllSendable(tt, calls)
    ensures WalkState(tt, calls)
  {
    if calls != [] {
      assert forall c :: c in Init(calls) ==> c in calls;
      WalkInvariant(tt, k, Init(calls));
      WalkStep(tt, k, calls);
    }
  }

  /** Whatever is inserted or deleted between the statements: the emitted keys strictly decrease, no
      row is emitted twice, and once HasNextPage is false every row that was there throughout has
      been emitted exactly once. */
  lemma ForwardWalkUnderChange(tt: TimeText, k: nat, calls: seq<Call>)
    requires tt.Lawful() && k >= 1
    requires ForwardWalk(tt, k, calls) && AllSendable(tt, calls)
    ensures Descending(Emitted(calls))
    ensures forall r :: multiset(Emitted(calls))[r] <= 1
    ensures calls != [] && !Last(calls).value.page.info.hasNext ==>
              forall r :: Present(calls, r) ==> multiset(Emitted(calls))[r] == 1
  {
    hide Desc, PageOf, Less, Sendable, Present, Emitted;
    WalkInvariant(tt, k, calls);
    if calls != [] {
      assert forall c :: c in Init(calls) ==> c in calls;
      WalkInvariant(tt, k, Init(calls));
      WalkStep(tt, k, calls);
    }
    hide ForwardWalk, AllSendable, Descending;
    forall r
      ensures multiset(Emitted(calls))[r] == if r in Emitted(calls) then 1 else 0
    {
      DescendingOnce(Emitted(calls), r);
    }
  }

  // ---- the other direction -----------------------------------------------

  /** Backward pages arrive last page first, each with its rows in listing order. */
  function Collected(calls: seq<Call>): seq<Row> {
    if calls == [] then [] else Last(calls).value.page.Rows() + Collected(Init(calls))
  }

  /** The Before argument of the next call: the last StartCursor the client was given. */
  function NextBefore(calls: seq<Call>): Option<Str> {
    if calls == [] then None
    else if Last(calls).value.page.items == [] then NextBefore(Init(calls))
    else Last(calls).value.page.info.startCursor
  }

  /** Every page is what `ListItems` returns for Last=k before the previous start cursor. */
  ghost predicate BackwardWalk(tt: TimeText, k: nat, calls: seq<Call>) {
    calls == [] || (
      && BackwardWalk(tt, k, Init(calls))
      && PageOf(tt, Last(calls).value.db, Backward(k, NextBefore(Init(calls)))) == Ok(Last(calls).value.page))
  }

  /** The row was in the table for every statement of a backward walk that looks for rows. */
  ghost predicate PresentBackward(calls: seq<Call>, r: Row) {
    forall c :: c in calls ==> r in c.db.find && r in c.db.previous
  }

  ghost predicate BackwardState(tt: TimeText, calls: seq<Call>) {
    var out := Collected(calls);
    && NextBefore(calls) == OptionalCursor(tt, First(out))
    && Descending(out)
    && (forall r :: r in out ==> Sendable(tt, r))
    && (forall r :: PresentBackward(calls, r) && r !in out ==> out == [] || Less(First(out).value, r))
    && (calls != [] && out == [] ==> forall r :: !PresentBackward(calls, r))
  }

  /** The page of one backward call from a cursor the client was given. */
  lemma BackwardCallAt(tt: TimeText, db: Database, k: nat, before: Option<Row>)
    requires tt.Lawful() && (before.Some? ==> Sendable(tt, before.value))
    ensures var r := PageOf(tt, db, Backward(k, OptionalCursor(tt, before)));
            var q := TakeLast(Desc(OverCursor(db.find, before)), k);
            && r.Ok? && r.value.Rows() == q && |r.value.items| == |q|
            && r.value.info.startCursor == OptionalCursor(tt, First(q))
            && r.value.info.hasPrevious == RowPrecedes(db.previous, BackwardProbe(before, First(q)))
  {
    hide Desc, CursorText, ParseCursor, DecodeCursor, Addressable, Less, RowFollows, RowPrecedes, Sendable;
    DecodeOwnCursor(tt, before);
    DecodeOwnCursor(tt, None);
  }

  /** What one more call puts in front, what the client sends next, and what the probe looked for. */
  lemma BackwardPageStep(tt: TimeText, k: nat, calls: seq<Call>)
    requires tt.Lawful() && calls != [] && BackwardWalk(tt, k, calls)
    requires BackwardState(tt, Init(calls))
    ensures var seen, out, last := Collected(Init(calls)), Collected(calls), Last(calls).value;
            var before := First(seen);
            var q := TakeLast(Desc(OverCursor(last.db.find, before)), k);
            && out == q + seen
            && First(out) == (if q == [] then before else First(q))
            && NextBefore(calls) == OptionalCursor(tt, First(out))
            && last.page.info.hasPrevious == RowPrecedes(last.db.previous, BackwardProbe(before, First(q)))
  {
    hide Desc, Sendable, RowPrecedes, PageOf, TakeLast, Page.Rows, Descending, OptionalCursor, PresentBackward;
    var last, seen := Last(calls).value, Collected(Init(calls));
    var before := First(seen);
    assert before.Some? ==> before.value in seen;
    BackwardCallAt(tt, last.db, k, before);
    assert last.page.Rows() == [] ==> last.page.Rows() + seen == seen;
  }

  lemma PresentBackwardSplit(calls: seq<Call>, r: Row)
    requires calls != [] && PresentBackward(calls, r)
    ensures PresentBackward(Init(calls), r)
    ensures r in Last(calls).value.db.find && r in Last(calls).value.db.previous
  {
    assert Last(calls).value in calls;
    assert forall c :: c in Init(calls) ==> c in calls;
  }

  lemma BackwardWalkStep(tt: TimeText, k: nat, calls: seq<Call>)
    requires tt.Lawful() && k >= 1 && calls != []
    requires BackwardWalk(tt, k, calls) && AllSendable(tt, calls)
    requires BackwardState(tt, Init(calls))
    ensures BackwardState(tt, calls)
    ensures !Last(calls).value.page.info.hasPrevious ==>
              forall r :: PresentBackward(calls, r) ==> r in Collected(calls)
  {
    hide Desc, CursorText, Addressable, Less, BackwardWalk, PageOf, PresentBackward, Collected, NextBefore,
      RowPrecedes, Descending, TakeLast;
    var last, seen, out := Last(calls).value, Collected(Init(calls)), Collected(calls);
    var before := First(seen);
    var q := TakeLast(Desc(OverCursor(last.db.find, before)), k);
    BackwardPageStep(tt, k, calls);
    TakeLastCovers(OverCursor(last.db.find, before), k);
    DescendingJoinFront(q, seen);
    assert last in calls;
    forall r | r in q
      ensures Sendable(tt, r)
    {
      assert r in last.db.find;
    }
    forall r | PresentBackward(calls, r)
      ensures r !in out ==> out != [] && Less(First(out).value, r)
      ensures !last.page.info.hasPrevious ==> r in out
    {
      PresentBackwardSplit(calls, r);
      if r !in out {
        if seen == [] || Less(before.value, r) {
          assert r in OverCursor(last.db.find, before);
        }
        assert Sendable(tt, First(out).value);
        ProbeFindsOver(last.db.previous, r, First(out).value);
      }
    }
  }

  /** A row over an addressable key is found by the probe from that key. */
  lemma ProbeFindsOver(s: set<Row>, r: Row, c: Row)
    requires r in s && Less(c, r) && Addressable(c)
    ensures RowPrecedes(s, c)
  {
  }

  lemma {:induction false} BackwardInvariant(tt: TimeText, k: nat, calls: seq<Call>)
    requires tt.Lawful() && k >= 1
    requires BackwardWalk(tt, k, calls) && AllSendable(tt, calls)
    ensures BackwardState(tt, calls)
  {
    if calls != [] {
      assert forall c :: c in Init(calls) ==> c in calls;
      BackwardInvariant(tt, k, Init(calls));
      BackwardWalkStep(tt, k, calls);
    }
  }

  /** The mirror image for Last=k: put back in reverse, the pages are strictly descending whatever
      changes meanwhile, and once HasPreviousPage is false every row that was there throughout has
      been returned exactly once. */
  lemma BackwardWalkUnderChange(tt: TimeText, k: nat, calls: seq<Call>)
    requires tt.Lawful() && k >= 1
    requires BackwardWalk(tt, k, calls) && AllSendable(tt, calls)
    ensures Descending(Collected(calls))
    ensures forall r :: multiset(Collected(calls))[r] <= 1
    ensures calls != [] && !Last(calls).value.page.info.hasPrevious ==>
              forall r :: PresentBackward(calls, r) ==> multiset(Collected(calls))[r] == 1
  {
    hide Desc, PageOf, Less, Sendable, PresentBackward, Collected;
    BackwardInvariant(tt, k, calls);
    if calls != [] {
      assert forall c :: c in Init(calls) ==> c in calls;
      BackwardInvariant(tt, k, Init(calls));
      BackwardWalkStep(tt, k, calls);
    }
    hide BackwardWalk, AllSendable, Descending;
    forall r
      ensures multiset(Collected(calls))[r] == if r in Collected(calls) then 1 else 0
    {
      DescendingOnce(Collected(calls), r);
    }
  }
}

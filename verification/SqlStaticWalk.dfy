/** Walks over a table nobody changes, in both directions, and the exact meaning of the flags. */
module SqlStaticWalk {
  import opened Text
  import opened Keyset
  import opened Cursor
  import opened Paging
  import opened SqlPagination
  import opened SqlChangingWalk

  /** Every statement of the walk read the same rows. */
  ghost predicate Unchanged(calls: seq<Call>, s: set<Row>) {
    forall c :: c in calls ==> c.db == Unchanging(s, c.db.now)
  }

  ghost predicate SendableRows(tt: TimeText, s: set<Row>) {
    forall r :: r in s ==> Sendable(tt, r)
  }

  // ---- windows of the listing --------------------------------------------

  lemma ForwardWindow(s: set<Row>, a: nat, k: nat)
    requires a <= |Desc(s)|
    ensures var q := Desc(s);
            Take(Desc(BelowCursor(s, CursorAfter(s, a))), k) == q[a..Min(a + k, |q|)]
  {
    hide Desc;
    var q := Desc(s);
    if a > 0 {
      BelowRowAt(s, a - 1);
    } else {
      assert q[a..] == q;
    }
    WindowOfTail(q, a, k);
  }

  lemma BackwardWindow(s: set<Row>, b: nat, k: nat)
    requires b <= |Desc(s)|
    ensures var q := Desc(s);
            TakeLast(Desc(OverCursor(s, CursorBefore(s, b))), k) == q[b - Min(b, k)..b]
  {
    hide Desc;
    var q := Desc(s);
    if b < |q| {
      OverRowAt(s, b);
    } else {
      assert q[..b] == q;
    }
    WindowOfTail(q, b, k);
  }

  /** The forward probe is right even if it compares times only, because no identifier sorts before the
      empty one. */
  lemma RowFollowsIs(s: set<Row>, c: Row)
    ensures RowFollows(s, c) <==> exists r :: r in s && Less(r, c)
  {
  }

  lemma RowPrecedesIs(s: set<Row>, c: Row)
    requires c.id != []
    ensures RowPrecedes(s, c) <==> exists r :: r in s && Less(c, r)
  {
  }

  /** The backward probe needs an identifier. */
  lemma FollowsAt(s: set<Row>, i: nat)
    requires i < |Desc(s)|
    ensures RowFollows(s, Desc(s)[i]) <==> i + 1 < |Desc(s)|
    ensures Desc(s)[i].id != [] ==> (RowPrecedes(s, Desc(s)[i]) <==> 0 < i)
  {
    hide Less, Desc, RowFollows, RowPrecedes;
    var q := Desc(s);
    DescLists(s);
    RowFollowsIs(s, q[i]);
    if q[i].id != [] {
      RowPrecedesIs(s, q[i]);
    }
    if i + 1 < |q| {
      assert q[i + 1] in s && Less(q[i + 1], q[i]);
    }
    if i > 0 {
      assert q[0] in s && Less(q[i], q[0]);
    }
    forall r | r in s
      ensures exists j :: 0 <= j < |q| && q[j] == r && (Less(r, q[i]) <==> i < j) && (Less(q[i], r) <==> j < i)
    {
      var j :| 0 <= j < |q| && q[j] == r;
      EarlierIsGreater(q, i, j);
      EarlierIsGreater(q, j, i);
    }
  }

  // ---- one call ----------------------------------------------------------

  /** The page shows rows `a` to `b` of the listing under their own cursors. */
  ghost predicate ShowsWindow(tt: TimeText, p: Page, s: set<Row>, a: int, b: int) {
    && 0 <= a <= b <= |Desc(s)|
    && p.Rows() == Desc(s)[a..b]
    && p.info.totalCount == |s|
    && p.info.startCursor == (if a < b then Some(CursorText(tt, Desc(s)[a])) else None)
    && p.info.endCursor == (if a < b then Some(CursorText(tt, Desc(s)[b - 1])) else None)
  }

  lemma WindowItems(tt: TimeText, p: Page, s: set<Row>, a: int, b: int)
    requires ShowsWindow(tt, p, s, a, b)
    ensures |p.items| == b - a
  {
    assert |p.Rows()| == b - a;
  }

  /** Built from a window of the listing, a page shows it. */
  lemma BuiltPageShows(tt: TimeText, s: set<Row>, a: nat, b: nat, flags: (bool, bool))
    requires a <= b <= |Desc(s)|
    ensures ShowsWindow(tt, BuildPage(tt, Desc(s)[a..b], flags, |s|), s, a, b)
  {
    hide Desc, CursorText;
  }

  lemma ListedRow(tt: TimeText, s: set<Row>, i: nat)
    requires SendableRows(tt, s) && i < |Desc(s)|
    ensures Desc(s)[i] in s && Sendable(tt, Desc(s)[i]) && Desc(s)[i].id != []
  {
    hide Desc;
    DescLists(s);
    assert Desc(s)[i] in Desc(s);
  }

  /** The cursor that stands after the first `a` rows of the listing. */
  function CursorAfter(s: set<Row>, a: nat): Option<Row>
    requires a <= |Desc(s)|
  {
    if a == 0 then None else Some(Desc(s)[a - 1])
  }

  /** The cursor that stands before row `b` of the listing. */
  function CursorBefore(s: set<Row>, b: nat): Option<Row>
    requires b <= |Desc(s)|
  {
    if b == |Desc(s)| then None else Some(Desc(s)[b])
  }

  /** The cursors on either side of row `i` are both that row's cursor. */
  lemma CursorTexts(tt: TimeText, s: set<Row>, i: nat)
    requires i < |Desc(s)|
    ensures OptionalCursor(tt, CursorAfter(s, i + 1)) == Some(CursorText(tt, Desc(s)[i]))
    ensures OptionalCursor(tt, CursorBefore(s, i)) == Some(CursorText(tt, Desc(s)[i]))
  {
    hide Desc, CursorText;
  }

  lemma ForwardFlags(tt: TimeText, s: set<Row>, a: nat, b: nat, now: int, args: Arguments)
    requires SendableRows(tt, s) && a <= b <= |Desc(s)| && args.first.Some?
    requires a == b ==> b == |Desc(s)|
    ensures var f := Flags(Unchanging(s, now), args, CursorAfter(s, a), None, Desc(s)[a..b]);
            f.1 == (b < |Desc(s)|) && (a < b ==> f.0 == (0 < a))
  {
    hide Desc, Less, Addressable;
    var q := Desc(s);
    if b > 0 {
      ListedRow(tt, s, b - 1);
      FollowsAt(s, b - 1);
      assert a < b ==> Last(q[a..b]) == Some(q[b - 1]);
    }
  }

  lemma BackwardFlags(tt: TimeText, s: set<Row>, a: nat, b: nat, now: int, args: Arguments)
    requires SendableRows(tt, s) && a <= b <= |Desc(s)| && args.first.None?
    requires a == b ==> a == 0
    ensures var f := Flags(Unchanging(s, now), args, None, CursorBefore(s, b), Desc(s)[a..b]);
            f.0 == (0 < a) && (a < b ==> f.1 == (b < |Desc(s)|))
  {
    hide Desc, Less, Addressable;
    var q := Desc(s);
    if a < |q| {
      ListedRow(tt, s, a);
      FollowsAt(s, a);
      assert a < b ==> First(q[a..b]) == Some(q[a]);
    }
  }

  /** A forward call after the first `a` rows shows the next `k`, and on a non-empty page both flags
      say exactly whether rows lie on that side of it. */
  lemma ForwardCall(tt: TimeText, k: nat, s: set<Row>, a: nat, now: int)
    requires tt.Lawful() && k >= 1 && SendableRows(tt, s) && a <= |Desc(s)|
    ensures var r := PageOf(tt, Unchanging(s, now), Forward(k, OptionalCursor(tt, CursorAfter(s, a))));
            var b := Min(a + k, |s|);
            && r.Ok?
            && ShowsWindow(tt, r.value, s, a, b)
            && r.value.info.hasNext == (b < |s|)
            && (a < b ==> r.value.info.hasPrevious == (0 < a))
  {
    hide Desc, Less, Addressable, CursorText, ParseCursor, DecodeCursor, RowFollows, RowPrecedes, Flags;
    var c, b := CursorAfter(s, a), Min(a + k, |s|);
    if a > 0 {
      ListedRow(tt, s, a - 1);
    }
    DecodeOwnCursor(tt, c);
    DecodeOwnCursor(tt, None);
    ForwardWindow(s, a, k);
    var args := Forward(k, OptionalCursor(tt, c));
    ForwardFlags(tt, s, a, b, now, args);
    BuiltPageShows(tt, s, a, b, Flags(Unchanging(s, now), args, c, None, Desc(s)[a..b]));
  }

  /** A backward call before row `b` shows the `k` rows in front of it. */
  lemma BackwardCall(tt: TimeText, k: nat, s: set<Row>, b: nat, now: int)
    requires tt.Lawful() && k >= 1 && SendableRows(tt, s) && b <= |Desc(s)|
    ensures var r := PageOf(tt, Unchanging(s, now), Backward(k, OptionalCursor(tt, CursorBefore(s, b))));
            var a := b - Min(b, k);
            && r.Ok?
            && ShowsWindow(tt, r.value, s, a, b)
            && r.value.info.hasPrevious == (0 < a)
            && (a < b ==> r.value.info.hasNext == (b < |s|))
  {
    hide Desc, Less, Addressable, CursorText, ParseCursor, DecodeCursor, RowFollows, RowPrecedes, Flags;
    var c, a := CursorBefore(s, b), b - Min(b, k);
    if b < |Desc(s)| {
      ListedRow(tt, s, b);
    }
    DecodeOwnCursor(tt, c);
    DecodeOwnCursor(tt, None);
    BackwardWindow(s, b, k);
    var args := Backward(k, OptionalCursor(tt, c));
    BackwardFlags(tt, s, a, b, now, args);
    BuiltPageShows(tt, s, a, b, Flags(Unchanging(s, now), args, None, c, Desc(s)[a..b]));
  }

  /** A request without limits shows the whole listing with nothing on either side. */
  lemma UnlimitedCall(tt: TimeText, s: set<Row>, now: int)
    requires tt.Lawful() && SendableRows(tt, s)
    ensures var r := PageOf(tt, Unchanging(s, now), Arguments(None, None, None, None));
            && r.Ok?
            && ShowsWindow(tt, r.value, s, 0, |s|)
            && !r.value.info.hasNext && !r.value.info.hasPrevious
  {
    hide Desc, Less, Addressable, CursorText, ParseCursor, RowFollows, RowPrecedes;
    var args := Arguments(None, None, None, None);
    var q := Desc(s);
    assert q[0..|s|] == q;
    BackwardFlags(tt, s, 0, |s|, now, args);
    BuiltPageShows(tt, s, 0, |s|, Flags(Unchanging(s, now), args, None, None, q));
  }

  // ---- forward walks -----------------------------------------------------

  /** The first `b` rows are out, and HasNextPage tells whether any are left. */
  ghost predicate EmittedUpTo(tt: TimeText, s: set<Row>, calls: seq<Call>, b: int) {
    && 0 <= b <= |Desc(s)|
    && Emitted(calls) == Desc(s)[..b]
    && NextAfter(calls) == OptionalCursor(tt, CursorAfter(s, b))
    && (calls != [] ==> Last(calls).value.page.info.hasNext == (b < |s|))
  }

  lemma ForwardStep(tt: TimeText, k: nat, s: set<Row>, calls: seq<Call>, a: nat)
    requires tt.Lawful() && k >= 1 && SendableRows(tt, s)
    requires calls != [] && ForwardWalk(tt, k, calls)
    requires EmittedUpTo(tt, s, Init(calls), a)
    requires var db := Last(calls).value.db; db == Unchanging(s, db.now)
    ensures EmittedUpTo(tt, s, calls, Min(a + k, |s|))
    ensures ShowsWindow(tt, Last(calls).value.page, s, a, Min(a + k, |s|))
  {
    hide Desc, PageOf, CursorText, ForwardWalk, Emitted, NextAfter, Sendable, SendableRows, Page.Rows,
      OptionalCursor, CursorAfter;
    var last, q, b := Last(calls).value, Desc(s), Min(a + k, |s|);
    LastForwardCall(tt, k, calls);
    ForwardCall(tt, k, s, a, last.db.now);
    WindowItems(tt, last.page, s, a, b);
    JoinSlices(q, a, b);
    calc {
      Emitted(calls);
      Emitted(Init(calls)) + last.page.Rows();
      q[..a] + q[a..b];
      q[..b];
    }
    if a < b {
      CursorTexts(tt, s, b - 1);
    }
  }

  /** What the last call of a walk adds. */
  lemma LastForwardCall(tt: TimeText, k: nat, calls: seq<Call>)
    requires calls != [] && ForwardWalk(tt, k, calls)
    ensures var init, last := Init(calls), Last(calls).value;
            && PageOf(tt, last.db, Forward(k, NextAfter(init))) == Ok(last.page)
            && Emitted(calls) == Emitted(init) + last.page.Rows()
            && NextAfter(calls) == if last.page.items == [] then NextAfter(init) else last.page.info.endCursor
  {
    hide PageOf;
  }

  lemma ForwardWalkInit(tt: TimeText, k: nat, calls: seq<Call>)
    requires ForwardWalk(tt, k, calls) && calls != []
    ensures ForwardWalk(tt, k, Init(calls))
  {
  }

  lemma NothingEmitted(tt: TimeText, s: set<Row>)
    ensures EmittedUpTo(tt, s, [], 0)
  {
    hide Desc;
  }

  /** After `m` calls exactly the first `m * k` rows are out, and HasNextPage tells whether any are left. */
  lemma {:induction false} ForwardProgress(tt: TimeText, k: nat, s: set<Row>, calls: seq<Call>)
    requires tt.Lawful() && k >= 1 && SendableRows(tt, s)
    requires ForwardWalk(tt, k, calls) && Unchanged(calls, s)
    ensures EmittedUpTo(tt, s, calls, Served(|calls|, k, |s|))
    ensures calls != [] ==>
              ShowsWindow(tt, Last(calls).value.page, s, Served(|calls| - 1, k, |s|), Served(|calls|, k, |s|))
  {
    hide Desc, PageOf, CursorText, ForwardWalk, Sendable, SendableRows, EmittedUpTo, ShowsWindow;
    if calls == [] {
      NothingEmitted(tt, s);
    } else {
      ForwardWalkInit(tt, k, calls);
      assert forall c :: c in Init(calls) ==> c in calls;
      assert Last(calls).value in calls;
      ForwardProgress(tt, k, s, Init(calls));
      ForwardStep(tt, k, s, calls, Served(|calls| - 1, k, |s|));
    }
  }

  /** A walk that went on exactly while HasNextPage was true. */
  ghost predicate CompleteForward(tt: TimeText, k: nat, s: set<Row>, calls: seq<Call>) {
    && ForwardWalk(tt, k, calls) && Unchanged(calls, s) && calls != []
    && !Last(calls).value.page.info.hasNext
    && forall i :: 0 <= i < |calls| - 1 ==> calls[i].page.info.hasNext
  }

  lemma {:induction false} ForwardPrefix(tt: TimeText, k: nat, calls: seq<Call>, m: nat)
    requires ForwardWalk(tt, k, calls) && m <= |calls|
    ensures ForwardWalk(tt, k, calls[..m])
    decreases |calls|
  {
    hide PageOf;
    if m == |calls| {
      assert calls[..m] == calls;
    } else {
      ForwardPrefix(tt, k, Init(calls), m);
      assert Init(calls)[..m] == calls[..m];
    }
  }

  /** The forward pages of a complete walk, one after the other, are the whole descending listing,
      and there are max(1, ceil(n / k)) of them. */
  lemma ForwardWalkIsListing(tt: TimeText, k: nat, s: set<Row>, calls: seq<Call>)
    requires tt.Lawful() && k >= 1 && SendableRows(tt, s)
    requires CompleteForward(tt, k, s, calls)
    ensures Emitted(calls) == Desc(s)
    ensures |calls| == PageCount(|s|, k)
    ensures |calls| * k >= |s| && (|calls| == 1 || (|calls| - 1) * k < |s|)
  {
    hide Desc, PageOf, ShowsWindow, Emitted, NextAfter, OptionalCursor, ForwardWalk, Served, PageCount;
    var m := |calls|;
    ForwardProgress(tt, k, s, calls);
    ServedIs(m, k, |s|);
    assert Desc(s)[..|s|] == Desc(s);
    if m > 1 {
      var init := calls[..m - 1];
      ForwardPrefix(tt, k, calls, m - 1);
      ForwardProgress(tt, k, s, init);
      ServedIs(m - 1, k, |s|);
      assert Last(init).value == calls[m - 2];
    }
    PageCountIs(|s|, k, m);
  }

  lemma {:induction false} ForwardWalkOfLength(tt: TimeText, k: nat, s: set<Row>, now: int, m: nat)
    returns (calls: seq<Call>)
    requires tt.Lawful() && k >= 1 && SendableRows(tt, s)
    ensures ForwardWalk(tt, k, calls) && Unchanged(calls, s) && |calls| == m
  {
    hide Desc, PageOf, ShowsWindow, Emitted, CursorText, Sendable;
    if m == 0 {
      calls := [];
    } else {
      var init := ForwardWalkOfLength(tt, k, s, now, m - 1);
      ForwardProgress(tt, k, s, init);
      ForwardCall(tt, k, s, Served(m - 1, k, |s|), now);
      hide NextAfter;
      var db := Unchanging(s, now);
      var last := Call(db, PageOf(tt, db, Forward(k, NextAfter(init))).value);
      calls := init + [last];
      assert Init(calls) == init && Last(calls) == Some(last);
    }
  }

  /** Such a walk exists for every table and every page size. */
  lemma CompleteForwardExists(tt: TimeText, k: nat, s: set<Row>, now: int) returns (calls: seq<Call>)
    requires tt.Lawful() && k >= 1 && SendableRows(tt, s)
    ensures CompleteForward(tt, k, s, calls)
  {
    hide Desc, PageOf;
    var m := PageCount(|s|, k);
    calls := ForwardWalkOfLength(tt, k, s, now, m);
    forall i | 0 <= i < m
      ensures calls[i].page.info.hasNext == (i < m - 1)
    {
      var prefix := calls[..i + 1];
      ForwardPrefix(tt, k, calls, i + 1);
      ForwardProgress(tt, k, s, prefix);
      assert Last(prefix) == Some(calls[i]);
      ServedIs(i + 1, k, |s|);
      if i + 1 < m {
        PageCountBounds(|s|, k, i + 1);
      } else {
        PageCountBounds(|s|, k, i);
      }
    }
  }

  // ---- backward walks ----------------------------------------------------

  lemma BackwardWalkInit(tt: TimeText, k: nat, calls: seq<Call>)
    requires BackwardWalk(tt, k, calls) && calls != []
    ensures BackwardWalk(tt, k, Init(calls))
  {
  }

  ghost predicate CollectedDownTo(tt: TimeText, s: set<Row>, calls: seq<Call>, a: int) {
    && 0 <= a <= |Desc(s)|
    && Collected(calls) == Desc(s)[a..]
    && NextBefore(calls) == OptionalCursor(tt, CursorBefore(s, a))
    && (calls != [] ==> Last(calls).value.page.info.hasPrevious == (0 < a))
  }

  lemma BackwardStep(tt: TimeText, k: nat, s: set<Row>, calls: seq<Call>, b: nat)
    requires tt.Lawful() && k >= 1 && SendableRows(tt, s)
    requires calls != [] && BackwardWalk(tt, k, calls)
    requires CollectedDownTo(tt, s, Init(calls), b)
    requires var db := Last(calls).value.db; db == Unchanging(s, db.now)
    ensures CollectedDownTo(tt, s, calls, b - Min(b, k))
  {
    hide Desc, PageOf, CursorText, BackwardWalk, Collected, NextBefore, Sendable, SendableRows, Page.Rows,
      OptionalCursor, CursorBefore;
    var last, q, a := Last(calls).value, Desc(s), b - Min(b, k);
    LastBackwardCall(tt, k, calls);
    BackwardCall(tt, k, s, b, last.db.now);
    WindowItems(tt, last.page, s, a, b);
    JoinSlices(q, a, b);
    calc {
      Collected(calls);
      last.page.Rows() + Collected(Init(calls));
      q[a..b] + q[b..];
      q[a..];
    }
    if a < b {
      CursorTexts(tt, s, a);
    }
  }

  lemma LastBackwardCall(tt: TimeText, k: nat, calls: seq<Call>)
    requires calls != [] && BackwardWalk(tt, k, calls)
    ensures var init, last := Init(calls), Last(calls).value;
            && PageOf(tt, last.db, Backward(k, NextBefore(init))) == Ok(last.page)
            && Collected(calls) == last.page.Rows() + Collected(init)
            && NextBefore(calls) == if last.page.items == [] then NextBefore(init) else last.page.info.startCursor
  {
    hide PageOf;
  }

  lemma NothingCollected(tt: TimeText, s: set<Row>)
    ensures CollectedDownTo(tt, s, [], |s|)
  {
    hide Desc;
    var q := Desc(s);
    assert q[|q|..] == [];
  }

  lemma {:induction false} BackwardProgress(tt: TimeText, k: nat, s: set<Row>, calls: seq<Call>)
    requires tt.Lawful() && k >= 1 && SendableRows(tt, s)
    requires BackwardWalk(tt, k, calls) && Unchanged(calls, s)
    ensures CollectedDownTo(tt, s, calls, |s| - Served(|calls|, k, |s|))
  {
    hide Desc, PageOf, CursorText, BackwardWalk, Sendable, SendableRows, CollectedDownTo;
    if calls == [] {
      NothingCollected(tt, s);
    } else {
      BackwardWalkInit(tt, k, calls);
      assert forall c :: c in Init(calls) ==> c in calls;
      assert Last(calls).value in calls;
      BackwardProgress(tt, k, s, Init(calls));
      BackwardStep(tt, k, s, calls, |s| - Served(|calls| - 1, k, |s|));
    }
  }

  ghost predicate CompleteBackward(tt: TimeText, k: nat, s: set<Row>, calls: seq<Call>) {
    && BackwardWalk(tt, k, calls) && Unchanged(calls, s) && calls != []
    && !Last(calls).value.page.info.hasPrevious
    && forall i :: 0 <= i < |calls| - 1 ==> calls[i].page.info.hasPrevious
  }

  /** The backward pages of a complete walk, put back in reverse, are the same listing. */
  lemma BackwardWalkIsListing(tt: TimeText, k: nat, s: set<Row>, calls: seq<Call>)
    requires tt.Lawful() && k >= 1 && SendableRows(tt, s)
    requires CompleteBackward(tt, k, s, calls)
    ensures Collected(calls) == Desc(s)
    ensures |calls| == PageCount(|s|, k)
    ensures |calls| * k >= |s| && (|calls| == 1 || (|calls| - 1) * k < |s|)
  {
    hide Desc, PageOf, Collected, NextBefore, OptionalCursor, CursorBefore, BackwardWalk, Served, PageCount;
    var m := |calls|;
    BackwardProgress(tt, k, s, calls);
    ServedIs(m, k, |s|);
    assert Desc(s)[0..] == Desc(s);
    if m > 1 {
      var init := calls[..m - 1];
      BackwardPrefix(tt, k, calls, m - 1);
      BackwardProgress(tt, k, s, init);
      ServedIs(m - 1, k, |s|);
      assert Last(init).value == calls[m - 2];
    }
    PageCountIs(|s|, k, m);
  }

  lemma {:induction false} BackwardPrefix(tt: TimeText, k: nat, calls: seq<Call>, m: nat)
    requires BackwardWalk(tt, k, calls) && m <= |calls|
    ensures BackwardWalk(tt, k, calls[..m])
    decreases |calls|
  {
    hide PageOf;
    if m == |calls| {
      assert calls[..m] == calls;
    } else {
      BackwardPrefix(tt, k, Init(calls), m);
      assert Init(calls)[..m] == calls[..m];
    }
  }

  lemma {:induction false} BackwardWalkOfLength(tt: TimeText, k: nat, s: set<Row>, now: int, m: nat)
    returns (calls: seq<Call>)
    requires tt.Lawful() && k >= 1 && SendableRows(tt, s)
    ensures BackwardWalk(tt, k, calls) && Unchanged(calls, s) && |calls| == m
  {
    hide Desc, PageOf, ShowsWindow, Collected, CursorText, Sendable;
    if m == 0 {
      calls := [];
    } else {
      var init := BackwardWalkOfLength(tt, k, s, now, m - 1);
      BackwardProgress(tt, k, s, init);
      BackwardCall(tt, k, s, |s| - Served(m - 1, k, |s|), now);
      hide NextBefore;
      var db := Unchanging(s, now);
      var last := Call(db, PageOf(tt, db, Backward(k, NextBefore(init))).value);
      calls := init + [last];
      assert Init(calls) == init && Last(calls) == Some(last);
    }
  }

  lemma CompleteBackwardExists(tt: TimeText, k: nat, s: set<Row>, now: int) returns (calls: seq<Call>)
    requires tt.Lawful() && k >= 1 && SendableRows(tt, s)
    ensures CompleteBackward(tt, k, s, calls)
  {
    hide Desc, PageOf;
    var m := PageCount(|s|, k);
    calls := BackwardWalkOfLength(tt, k, s, now, m);
    forall i | 0 <= i < m
      ensures calls[i].page.info.hasPrevious == (i < m - 1)
    {
      var prefix := calls[..i + 1];
      BackwardPrefix(tt, k, calls, i + 1);
      BackwardProgress(tt, k, s, prefix);
      assert Last(prefix) == Some(calls[i]);
      ServedIs(i + 1, k, |s|);
      if i + 1 < m {
        PageCountBounds(|s|, k, i + 1);
      } else {
        PageCountBounds(|s|, k, i);
      }
    }
  }

  lemma CallShows(tt: TimeText, k: nat, s: set<Row>, calls: seq<Call>, i: nat)
    requires tt.Lawful() && k >= 1 && SendableRows(tt, s)
    requires ForwardWalk(tt, k, calls) && Unchanged(calls, s) && i < |calls|
    ensures ShowsWindow(tt, calls[i].page, s, Served(i, k, |s|), Served(i + 1, k, |s|))
  {
    hide Desc, PageOf, CursorText, ForwardWalk, Sendable, SendableRows, ShowsWindow, Emitted, NextAfter, Served;
    ForwardPrefix(tt, k, calls, i + 1);
    ForwardProgress(tt, k, s, calls[..i + 1]);
    assert Last(calls[..i + 1]) == Some(calls[i]);
  }

  /** Stepping back from the start of the next page returns the full forward page just left. */
  lemma StepBackReturnsPage(tt: TimeText, k: nat, s: set<Row>, calls: seq<Call>, i: nat, now: int)
    requires tt.Lawful() && k >= 1 && SendableRows(tt, s)
    requires ForwardWalk(tt, k, calls) && Unchanged(calls, s)
    requires i + 1 < |calls| && calls[i + 1].page.items != []
    ensures var back := PageOf(tt, Unchanging(s, now), Backward(k, calls[i + 1].page.info.startCursor));
            && back.Ok?
            && back.value.Rows() == calls[i].page.Rows()
            && |calls[i].page.items| == k
            && back.value.info.hasNext
  {
    hide Desc, PageOf, CursorText, ForwardWalk, Sendable, SendableRows;
    CallShows(tt, k, s, calls, i);
    CallShows(tt, k, s, calls, i + 1);
    assert |calls[i].page.items| == |calls[i].page.Rows()|;
    assert |calls[i + 1].page.items| == |calls[i + 1].page.Rows()|;
    BackwardCall(tt, k, s, Served(i + 1, k, |s|), now);
  }
}

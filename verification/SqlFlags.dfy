/** The page flags for an arbitrary table and cursor, including a cursor whose row is gone.  HasNextPage
    of a forward page is always right, and so is HasPreviousPage of a backward page unless its first row
    has no identifier.  The other flag is probed from the far end of the page, and this module says
    exactly when each of them gives the right answer. */
module SqlFlags {
  import opened Text
  import opened Keyset
  import opened Cursor
  import opened Paging
  import opened SqlPagination
  import opened SqlChangingWalk
  import opened SqlStaticWalk

  /** Some row lies on the other side of the cursor from the page (the cursor's own row included). */
  ghost predicate SomeNotBelow(s: set<Row>, c: Row) {
    exists r :: r in s && !Less(r, c)
  }

  ghost predicate SomeNotOver(s: set<Row>, c: Row) {
    exists r :: r in s && !Less(c, r)
  }

  /** The row is one the probe from this cursor treats as the cursor itself: without an identifier
      in the cursor only the times are compared. */
  predicate AtCursor(r: Row, c: Row) {
    r.rank == c.rank && (c.id == [] || r.id == c.id)
  }

  ghost predicate OnlyCursorRows(s: set<Row>, c: Row) {
    s != {} && forall r :: r in s ==> AtCursor(r, c)
  }

  ghost predicate SomeLater(s: set<Row>, r: Row) {
    exists x :: x in s && x.rank > r.rank
  }

  /** The last row of the First=k page after `c`. */
  function BottomRow(s: set<Row>, c: Row, k: nat): (r: Row)
    requires k >= 1 && Below(s, c) != {}
    ensures r in Below(s, c)
  {
    TakeCovers(Below(s, c), k);
    var q := Take(Desc(Below(s, c)), k);
    q[|q| - 1]
  }

  /** The first row of the Last=k page before `c`. */
  function TopRow(s: set<Row>, c: Row, k: nat): (r: Row)
    requires k >= 1 && Over(s, c) != {}
    ensures r in Over(s, c)
  {
    TakeLastCovers(Over(s, c), k);
    TakeLast(Desc(Over(s, c)), k)[0]
  }

  /** When HasPreviousPage of a First=k page after `c` can be relied on.  Without an identifier in the
      bottom row the probe sees only later rows. */
  ghost predicate PreviousReliable(s: set<Row>, c: Row, k: nat)
    requires k >= 1
  {
    if Below(s, c) == {} then !OnlyCursorRows(s, c)
    else if BottomRow(s, c, k).id == [] then SomeNotBelow(s, c) <==> SomeLater(s, BottomRow(s, c, k))
    else k == 1 || |Below(s, c)| == 1 || SomeNotBelow(s, c)
  }

  /** When HasPreviousPage of a Last=k page before `c` can be relied on: unless the top row has no
      identifier and everything in front of it has its time. */
  ghost predicate TravelReliable(s: set<Row>, c: Row, k: nat)
    requires k >= 1
  {
    |Over(s, c)| <= k || TopRow(s, c, k).id != [] || SomeLater(s, TopRow(s, c, k))
  }

  /** When HasNextPage of a Last=k page before `c` can be relied on. */
  ghost predicate NextReliable(s: set<Row>, c: Row, k: nat) {
    if Over(s, c) == {} then !OnlyCursorRows(s, c)
    else k == 1 || |Over(s, c)| == 1 || SomeNotOver(s, c)
  }

  /** The listing splits at any cursor, whether or not its row exists. */
  lemma SplitAtCursor(s: set<Row>, c: Row)
    ensures Desc(s) == Desc(s - Below(s, c)) + Desc(Below(s, c))
    ensures Desc(s) == Desc(Over(s, c)) + Desc(s - Over(s, c))
  {
    hide Desc, Less;
    var b, o := Below(s, c), Over(s, c);
    forall x, y | x in s - b && y in b
      ensures Less(y, x)
    {
      if x != c {
        LessConnected(x, c);
        LessTransitive(y, c, x);
      }
    }
    DescSplit(s - b, b);
    assert s - b + b == s;
    forall x, y | x in o && y in s - o
      ensures Less(y, x)
    {
      if y != c {
        LessConnected(y, c);
        LessTransitive(y, c, x);
      }
    }
    DescSplit(o, s - o);
    assert o + (s - o) == s;
  }

  lemma ForwardPageRows(tt: TimeText, s: set<Row>, text: Str, c: Row, k: nat, now: int)
    requires DecodeCursor(tt, Some(text)) == Ok(Some(c))
    ensures var r := PageOf(tt, Unchanging(s, now), Forward(k, Some(text)));
            var q := Take(Desc(Below(s, c)), k);
            var at := ForwardProbe(now, Some(c), Last(q));
            && r.Ok? && r.value.Rows() == q
            && r.value.info.hasNext == RowFollows(s, at)
            && r.value.info.hasPrevious == RowPrecedes(s, at)
  {
    hide Desc, Less, CursorText, ParseCursor, DecodeCursor, RowFollows, RowPrecedes;
    NoCursor(tt);
  }

  lemma BackwardPageRows(tt: TimeText, s: set<Row>, text: Str, c: Row, k: nat, now: int)
    requires DecodeCursor(tt, Some(text)) == Ok(Some(c))
    ensures var r := PageOf(tt, Unchanging(s, now), Backward(k, Some(text)));
            var q := TakeLast(Desc(Over(s, c)), k);
            var at := BackwardProbe(Some(c), First(q));
            && r.Ok? && r.value.Rows() == q
            && r.value.info.hasNext == RowFollows(s, at)
            && r.value.info.hasPrevious == RowPrecedes(s, at)
  {
    hide Desc, Less, CursorText, ParseCursor, DecodeCursor, RowFollows, RowPrecedes;
    NoCursor(tt);
  }

  lemma NoCursor(tt: TimeText)
    ensures DecodeCursor(tt, None) == Ok(None)
  {
  }

  /** What the probes see from row `i` of the listing. */
  lemma ProbeAt(s: set<Row>, i: nat)
    requires i < |Desc(s)|
    ensures var r := Desc(s)[i];
            && (RowFollows(s, r) <==> i + 1 < |s|)
            && (RowPrecedes(s, r) <==> if r.id == [] then SomeLater(s, r) else 0 < i)
            && (i == 0 ==> !RowPrecedes(s, r))
  {
    hide Desc, Less;
    FollowsAt(s, i);
    if i == 0 {
      NoneLater(s);
    }
  }

  lemma NoneLater(s: set<Row>)
    requires s != {}
    ensures |Desc(s)| > 0 && !SomeLater(s, Desc(s)[0])
  {
    hide Desc;
    DescLists(s);
    var q := Desc(s);
    assert |q| == |s|;
    forall r | r in s
      ensures r.rank <= q[0].rank
    {
      var j :| 0 <= j < |q| && q[j] == r;
      assert j > 0 ==> Less(q[j], q[0]);
    }
  }

  lemma SomeNotBelowIs(s: set<Row>, c: Row)
    ensures SomeNotBelow(s, c) <==> Below(s, c) < s
    ensures SomeNotOver(s, c) <==> Over(s, c) < s
    ensures Below(s, c) <= s && Over(s, c) <= s
    ensures |s - Below(s, c)| == |s| - |Below(s, c)| && |s - Over(s, c)| == |s| - |Over(s, c)|
    ensures SomeNotBelow(s, c) <==> |Below(s, c)| < |s|
    ensures SomeNotOver(s, c) <==> |Over(s, c)| < |s|
  {
    hide Less;
    if SomeNotBelow(s, c) {
      var r :| r in s && !Less(r, c);
      assert r in s - Below(s, c);
    } else {
      assert s - Below(s, c) == {};
    }
    if SomeNotOver(s, c) {
      var r :| r in s && !Less(c, r);
      assert r in s - Over(s, c);
    } else {
      assert s - Over(s, c) == {};
    }
  }

  /** What the probes from the last row of a forward page see. */
  lemma ForwardProbeSees(s: set<Row>, c: Row, k: nat)
    requires k >= 1 && Below(s, c) != {}
    ensures var b, q := |Below(s, c)|, Take(Desc(Below(s, c)), k);
            && q != [] && q[|q| - 1] == BottomRow(s, c, k)
            && (RowFollows(s, q[|q| - 1]) <==> b > k)
            && (RowPrecedes(s, q[|q| - 1]) <==>
                  if q[|q| - 1].id == [] then SomeLater(s, q[|q| - 1]) else b < |s| || (k > 1 && b > 1))
  {
    hide Desc, Less, RowFollows, RowPrecedes, SomeLater;
    SplitAtCursor(s, c);
    SomeNotBelowIs(s, c);
    var b, q := Below(s, c), Take(Desc(Below(s, c)), k);
    var i := |s| - |b| + |q| - 1;
    assert |Desc(s - b)| == |s| - |b|;
    assert Desc(s)[i] == q[|q| - 1];
    ProbeAt(s, i);
  }

  /** What the probes from the first row of a backward page see. */
  lemma BackwardProbeSees(s: set<Row>, c: Row, k: nat)
    requires k >= 1 && Over(s, c) != {}
    ensures var o, q := |Over(s, c)|, TakeLast(Desc(Over(s, c)), k);
            && q != [] && q[0] == TopRow(s, c, k)
            && (RowPrecedes(s, q[0]) <==> if q[0].id == [] then SomeLater(s, q[0]) else o > k)
            && (RowPrecedes(s, q[0]) ==> o > k)
            && (RowFollows(s, q[0]) <==> o < |s| || (k > 1 && o > 1))
  {
    hide Desc, Less, RowFollows, RowPrecedes, SomeLater;
    SplitAtCursor(s, c);
    SomeNotBelowIs(s, c);
    var o, q := Over(s, c), TakeLast(Desc(Over(s, c)), k);
    var i := |o| - |q|;
    assert |Desc(o)| == |o|;
    assert Desc(s)[i] == q[0];
    ProbeAt(s, i);
  }

  /** After any cursor HasNextPage is exact; HasPreviousPage says whether some row precedes the page
      if and only if `PreviousReliable` holds. */
  lemma ForwardFlagsExact(tt: TimeText, s: set<Row>, text: Str, c: Row, k: nat, now: int)
    requires k >= 1 && DecodeCursor(tt, Some(text)) == Ok(Some(c))
    ensures var r := PageOf(tt, Unchanging(s, now), Forward(k, Some(text)));
            && r.Ok?
            && (r.value.info.hasNext <==> |Below(s, c)| > k)
            && ((r.value.info.hasPrevious <==> SomeNotBelow(s, c)) <==> PreviousReliable(s, c, k))
  {
    hide Desc, Less, CursorText, ParseCursor, PageOf, SomeNotBelow, Below, RowFollows, RowPrecedes, DecodeCursor,
      BottomRow, SomeLater;
    ForwardPageRows(tt, s, text, c, k, now);
    SomeNotBelowIs(s, c);
    if Below(s, c) == {} {
      EmptyForward(s, c);
    } else {
      ForwardProbeSees(s, c, k);
    }
  }

  /** A row that is not below a cursor is at it or over it, as far as the probe can tell. */
  lemma NotBelowCases(r: Row, c: Row)
    requires !Less(r, c)
    ensures AtCursor(r, c) <==> !(if c.id == [] then r.rank > c.rank else Less(c, r))
  {
    if r != c {
      LessConnected(r, c);
    }
    if Less(c, r) {
      LessAsymmetric(c, r);
    }
  }

  lemma NotOverCases(r: Row, c: Row)
    requires !Less(c, r)
    ensures AtCursor(r, c) <==> !(if c.id == [] then r.rank < c.rank else Less(r, c))
  {
    if r != c {
      LessConnected(r, c);
    }
    if Less(r, c) {
      LessAsymmetric(r, c);
    }
  }

  lemma EmptyForward(s: set<Row>, c: Row)
    requires Below(s, c) == {}
    ensures !RowFollows(s, c)
    ensures RowPrecedes(s, c) <==> s != {} && !OnlyCursorRows(s, c)
    ensures SomeNotBelow(s, c) <==> s != {}
  {
    forall r | r in s
      ensures !Less(r, c) && r.rank >= c.rank
      ensures AtCursor(r, c) <==> !(if c.id == [] then r.rank > c.rank else Less(c, r))
    {
      assert r !in Below(s, c);
      NotBelowCases(r, c);
    }
  }

  lemma EmptyBackward(s: set<Row>, c: Row)
    requires Over(s, c) == {}
    ensures !RowPrecedes(s, c)
    ensures RowFollows(s, c) <==> s != {} && !OnlyCursorRows(s, c)
    ensures SomeNotOver(s, c) <==> s != {}
  {
    forall r | r in s
      ensures !Less(c, r) && r.rank <= c.rank
      ensures AtCursor(r, c) <==> !(if c.id == [] then r.rank < c.rank else Less(r, c))
    {
      assert r !in Over(s, c);
      NotOverCases(r, c);
    }
  }

  /** The mirror image: before any cursor HasPreviousPage says whether rows are left in front of the page
      if and only if `TravelReliable` holds, and HasNextPage whether some row follows the page if and only
      if `NextReliable` holds. */
  lemma BackwardFlagsExact(tt: TimeText, s: set<Row>, text: Str, c: Row, k: nat, now: int)
    requires k >= 1 && DecodeCursor(tt, Some(text)) == Ok(Some(c))
    ensures var r := PageOf(tt, Unchanging(s, now), Backward(k, Some(text)));
            && r.Ok?
            && ((r.value.info.hasPrevious <==> |Over(s, c)| > k) <==> TravelReliable(s, c, k))
            && ((r.value.info.hasNext <==> SomeNotOver(s, c)) <==> NextReliable(s, c, k))
  {
    hide Desc, Less, CursorText, ParseCursor, PageOf, SomeNotOver, Over, RowFollows, RowPrecedes, DecodeCursor,
      TopRow, SomeLater;
    BackwardPageRows(tt, s, text, c, k, now);
    SomeNotBelowIs(s, c);
    if Over(s, c) == {} {
      EmptyBackward(s, c);
    } else {
      BackwardProbeSees(s, c, k);
    }
  }

  /** A table on which the flag is wrong: the cursor's row is gone, nothing precedes the page, and
      HasPreviousPage is still true. */
  lemma GoneCursorMisleads(tt: TimeText, now: int)
    requires tt.Lawful() && tt.writable(3)
    ensures var id: Str := [Ascii('x')];
            var s, c := {Row(1, id), Row(2, id)}, Row(3, id);
            var r := PageOf(tt, Unchanging(s, now), Forward(2, Some(CursorText(tt, c))));
            r.Ok? && r.value.info.hasPrevious && !SomeNotBelow(s, c)
  {
    hide Desc, CursorText, ParseCursor, PageOf, DecodeCursor;
    var id: Str := [Ascii('x')];
    var s, c := {Row(1, id), Row(2, id)}, Row(3, id);
    assert Below(s, c) == s;
    DecodeOwnCursor(tt, Some(c));
    ForwardFlagsExact(tt, s, CursorText(tt, c), c, 2, now);
  }

  /** The same the other way round: nothing follows the Last=2 page and HasNextPage is still true. */
  lemma GoneCursorMisleadsBackward(tt: TimeText, now: int)
    requires tt.Lawful() && tt.writable(1)
    ensures var id: Str := [Ascii('x')];
            var s, c := {Row(2, id), Row(3, id)}, Row(1, id);
            var r := PageOf(tt, Unchanging(s, now), Backward(2, Some(CursorText(tt, c))));
            r.Ok? && r.value.info.hasNext && !SomeNotOver(s, c)
  {
    hide Desc, CursorText, ParseCursor, PageOf, DecodeCursor;
    var id: Str := [Ascii('x')];
    var s, c := {Row(2, id), Row(3, id)}, Row(1, id);
    assert Over(s, c) == s;
    DecodeOwnCursor(tt, Some(c));
    BackwardFlagsExact(tt, s, CursorText(tt, c), c, 2, now);
  }

  /** And a row without an identifier: one row is left in front of the Last=1 page, and HasPreviousPage
      is false, because the probe compares times only. */
  lemma NamelessRowMisleads(tt: TimeText, now: int)
    requires tt.Lawful() && tt.writable(1)
    ensures var id: Str := [Ascii('x')];
            var s, c := {Row(2, []), Row(2, id)}, Row(1, id);
            var r := PageOf(tt, Unchanging(s, now), Backward(1, Some(CursorText(tt, c))));
            r.Ok? && !r.value.info.hasPrevious && |Over(s, c)| > 1
  {
    hide CursorText, ParseCursor, PageOf, DecodeCursor;
    var id: Str := [Ascii('x')];
    var s, c := {Row(2, []), Row(2, id)}, Row(1, id);
    assert Over(s, c) == s;
    assert Lists([Row(2, id), Row(2, [])], s);
    ListingUnique([Row(2, id), Row(2, [])], s);
    hide Desc;
    assert TopRow(s, c, 1) == Row(2, []);
    DecodeOwnCursor(tt, Some(c));
    BackwardFlagsExact(tt, s, CursorText(tt, c), c, 1, now);
  }
}

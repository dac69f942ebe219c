/** The two paginators side by side on the same data: a table, and the sorted set that holds each
    row under a score that grows with the row's key. */
module BackendAgreement {
  import opened Text
  import opened Keyset
  import opened Cursor
  import opened Paging
  import Sql = SqlPagination
  import Changing = SqlChangingWalk
  import Static = SqlStaticWalk
  import Redis = RedisPagination
  import Walk = RedisWalk

  /** `member` maps a row to its sorted-set member; greater keys get greater scores. */
  ghost predicate Mirrors(s: set<Row>, member: Row -> Row) {
    forall a, b :: a in s && b in s && Less(a, b) ==> member(a).rank < member(b).rank
  }

  ghost function Image(s: set<Row>, member: Row -> Row): set<Row> {
    set r | r in s :: member(r)
  }

  ghost function MapRows(q: seq<Row>, member: Row -> Row): (m: seq<Row>)
    ensures |m| == |q|
  {
    seq(|q|, i requires 0 <= i < |q| => member(q[i]))
  }

  /** The sorted set lists the members in the order the table lists the rows. */
  lemma ImageListing(s: set<Row>, member: Row -> Row)
    requires Mirrors(s, member)
    ensures Desc(Image(s, member)) == MapRows(Desc(s), member)
    ensures |Image(s, member)| == |s|
  {
    hide Desc;
    DescLists(s);
    var q, m := Desc(s), MapRows(Desc(s), member);
    forall i, j | 0 <= i < j < |m|
      ensures Less(m[j], m[i])
    {
      assert q[i] in s && q[j] in s;
    }
    forall x
      ensures x in m <==> x in Image(s, member)
    {
      if x in Image(s, member) {
        var r :| r in s && member(r) == x;
        var i :| 0 <= i < |q| && q[i] == r;
        assert m[i] == x;
      }
      if x in m {
        var i :| 0 <= i < |m| && m[i] == x;
        assert q[i] in s;
      }
    }
    ListingUnique(m, Image(s, member));
    assert |Desc(Image(s, member))| == |m|;
  }

  /** A score cursor selects the members of the rows the key cursor selects. */
  lemma ImageOfRange(s: set<Row>, member: Row -> Row, c: Row)
    requires Mirrors(s, member) && c in s
    ensures Redis.ScoresBelow(Image(s, member), Some(member(c).rank)) == Image(Below(s, c), member)
    ensures Redis.ScoresOver(Image(s, member), Some(member(c).rank)) == Image(Over(s, c), member)
    ensures Mirrors(Below(s, c), member) && Mirrors(Over(s, c), member)
  {
    hide Less;
    forall r | r in s
      ensures member(r).rank < member(c).rank <==> Less(r, c)
      ensures member(r).rank > member(c).rank <==> Less(c, r)
    {
      if r != c {
        LessConnected(r, c);
        if Less(r, c) {
          LessAsymmetric(r, c);
        } else {
          LessAsymmetric(c, r);
        }
      } else if Less(c, c) {
        LessAsymmetric(c, c);
      }
    }
  }

  /** Both pages show the same rows and totals; unless the page is empty the flags agree too, and mean
      that a row follows, or precedes, rows `a` to `b` of the listing. */
  ghost predicate Agree(s: set<Row>, member: Row -> Row, p: Page, z: Page, a: int, b: int) {
    && 0 <= a <= b <= |Desc(s)|
    && p.Rows() == Desc(s)[a..b]
    && z.Rows() == MapRows(p.Rows(), member)
    && p.info.totalCount == z.info.totalCount == |s|
    && (p.items != [] ==>
          && p.info.hasNext == z.info.hasNext == (b < |s|)
          && p.info.hasPrevious == z.info.hasPrevious == (0 < a))
  }

  /** A sorted-set page with the members of rows `a` to `b`. */
  ghost predicate ShowsMembers(s: set<Row>, member: Row -> Row, z: Page, a: int, b: int) {
    && 0 <= a <= b <= |Desc(s)|
    && z.Rows() == MapRows(Desc(s)[a..b], member)
    && z.info.totalCount == |s|
    && (a < b ==> z.info.hasNext == (b < |s|) && z.info.hasPrevious == (0 < a))
  }

  lemma SideBySide(tt: TimeText, s: set<Row>, member: Row -> Row, p: Page, z: Page, a: int, b: int)
    requires Static.ShowsWindow(tt, p, s, a, b) && ShowsMembers(s, member, z, a, b)
    requires a < b ==> p.info.hasNext == (b < |s|) && p.info.hasPrevious == (0 < a)
    ensures Agree(s, member, p, z, a, b)
  {
    hide Desc, MapRows;
    Static.WindowItems(tt, p, s, a, b);
  }

  /** How many members lie strictly beyond the member of row `i`, on either side. */
  lemma MembersAround(s: set<Row>, member: Row -> Row, i: nat)
    requires Mirrors(s, member) && i < |Desc(s)|
    ensures var c := Some(member(Desc(s)[i]).rank);
            && |Redis.ScoresBelow(Image(s, member), c)| == |s| - 1 - i
            && |Redis.ScoresOver(Image(s, member), c)| == i
  {
    hide Desc, Less, Redis.ScoresBelow, Redis.ScoresOver;
    DescLists(s);
    var c := Desc(s)[i];
    assert c in s;
    ImageOfRange(s, member, c);
    BelowRowAt(s, i);
    ImageListing(Below(s, c), member);
    OverRowAt(s, i);
    ImageListing(Over(s, c), member);
    assert |Desc(Below(s, c))| == |s| - 1 - i && |Desc(Over(s, c))| == i;
  }

  /** The sorted-set flags of a page that shows rows `a` to `b`. */
  lemma RedisFlags(s: set<Row>, member: Row -> Row, args: Arguments, a: nat, b: nat)
    requires Mirrors(s, member) && a < b <= |Desc(s)|
    ensures Redis.HasNext(Image(s, member), args, MapRows(Desc(s)[a..b], member)) == (b < |s|)
    ensures Redis.HasPrevious(Image(s, member), args, MapRows(Desc(s)[a..b], member)) == (0 < a)
  {
    hide Desc, Less, Redis.ScoresBelow, Redis.ScoresOver, Mirrors, Image;
    MembersAround(s, member, b - 1);
    MembersAround(s, member, a);
    EndsOfMap(Desc(s), member, a, b);
    hide MapRows;
  }

  lemma EndsOfMap(q: seq<Row>, member: Row -> Row, a: nat, b: nat)
    requires a < b <= |q|
    ensures MapRows(q[a..b], member)[0] == member(q[a])
    ensures MapRows(q[a..b], member)[b - a - 1] == member(q[b - 1])
  {
  }

  /** A sorted-set page built from the members of rows `a` to `b`. */
  lemma RedisPageShows(st: ScoreText, s: set<Row>, member: Row -> Row, args: Arguments, a: nat, b: nat)
    requires Mirrors(s, member) && a <= b <= |Desc(s)|
    ensures var z := Redis.BuildPage(st, Redis.Fixed(Image(s, member)), args, MapRows(Desc(s)[a..b], member));
            ShowsMembers(s, member, z, a, b)
  {
    hide Desc, Less, ScoreCursor, Redis.HasNext, Redis.HasPrevious;
    ImageListing(s, member);
    if a < b {
      RedisFlags(s, member, args, a, b);
    }
  }

  function Score(member: Row -> Row, c: Option<Row>): Option<int> {
    if c.None? then None else Some(member(c.value).rank)
  }

  lemma MapTake(q: seq<Row>, member: Row -> Row, k: nat)
    ensures Take(MapRows(q, member), k) == MapRows(Take(q, k), member)
    ensures TakeLast(MapRows(q, member), k) == MapRows(TakeLast(q, k), member)
  {
  }

  /** The sorted set lists what a cursor selects as the table does. */
  lemma MembersBelow(s: set<Row>, member: Row -> Row, c: Option<Row>)
    requires Mirrors(s, member) && (c.Some? ==> c.value in s)
    ensures Desc(Redis.ScoresBelow(Image(s, member), Score(member, c)))
         == MapRows(Desc(Sql.BelowCursor(s, c)), member)
    ensures Desc(Redis.ScoresOver(Image(s, member), Score(member, c)))
         == MapRows(Desc(Sql.OverCursor(s, c)), member)
  {
    hide Desc, MapRows, Mirrors, Image;
    if c.Some? {
      hide Redis.ScoresBelow, Redis.ScoresOver;
      ImageOfRange(s, member, c.value);
    }
    ImageListing(Sql.BelowCursor(s, c), member);
    ImageListing(Sql.OverCursor(s, c), member);
  }

  lemma ForwardMembers(s: set<Row>, member: Row -> Row, a: nat, k: nat)
    requires Mirrors(s, member) && a <= |Desc(s)|
    ensures var c := Score(member, Static.CursorAfter(s, a));
            Take(Desc(Redis.ScoresBelow(Image(s, member), c)), k)
            == MapRows(Desc(s)[a..Min(a + k, |s|)], member)
  {
    hide Desc, MapRows, Mirrors, Image, Take, Redis.ScoresBelow, Sql.BelowCursor;
    var c := Static.CursorAfter(s, a);
    DescLists(s);
    assert c.Some? ==> c.value in Desc(s);
    MembersBelow(s, member, c);
    MapTake(Desc(Sql.BelowCursor(s, c)), member, k);
    Static.ForwardWindow(s, a, k);
  }

  lemma BackwardMembers(s: set<Row>, member: Row -> Row, b: nat, k: nat)
    requires Mirrors(s, member) && b <= |Desc(s)|
    ensures var c := Score(member, Static.CursorBefore(s, b));
            TakeLast(Desc(Redis.ScoresOver(Image(s, member), c)), k)
            == MapRows(Desc(s)[b - Min(b, k)..b], member)
  {
    hide Desc, MapRows, Mirrors, Image, TakeLast, Redis.ScoresOver, Sql.OverCursor;
    var c := Static.CursorBefore(s, b);
    DescLists(s);
    assert c.Some? ==> c.value in Desc(s);
    MembersBelow(s, member, c);
    MapTake(Desc(Sql.OverCursor(s, c)), member, k);
    Static.BackwardWindow(s, b, k);
  }

  lemma EmptyImage(st: ScoreText, member: Row -> Row, args: Arguments)
    requires Mirrors({}, member)
    ensures var r := Redis.PageOf(st, Redis.Fixed(Image({}, member)), args);
            r.Ok? && ShowsMembers({}, member, r.value, 0, 0)
  {
    hide Redis.PageOf, Mirrors;
    assert Image({}, member) == {};
    Walk.EmptySetPage(st, args);
  }

  lemma ImageNotEmpty(s: set<Row>, member: Row -> Row)
    requires Mirrors(s, member) && s != {}
    ensures Image(s, member) != {}
  {
    hide Mirrors;
    var r :| r in s;
    assert member(r) in Image(s, member);
  }

  lemma RedisForwardShows(st: ScoreText, s: set<Row>, member: Row -> Row, a: nat, k: nat)
    requires st.Lawful() && k >= 1 && Mirrors(s, member) && a <= |Desc(s)|
    ensures var c := Score(member, Static.CursorAfter(s, a));
            var r := Redis.PageOf(st, Redis.Fixed(Image(s, member)), Forward(k, OptionalScoreCursor(st, c)));
            r.Ok? && ShowsMembers(s, member, r.value, a, Min(a + k, |s|))
  {
    hide Desc, Redis.PageOf, Redis.BuildPage, MapRows, Mirrors, Image, Redis.ScoresBelow, Take, Score,
      Static.CursorAfter, ShowsMembers, OptionalScoreCursor;
    var c := Score(member, Static.CursorAfter(s, a));
    var args := Forward(k, OptionalScoreCursor(st, c));
    if s == {} {
      EmptyImage(st, member, args);
    } else {
      ImageNotEmpty(s, member);
      Walk.ForwardPage(st, Image(s, member), c, k);
      ForwardMembers(s, member, a, k);
      RedisPageShows(st, s, member, args, a, Min(a + k, |s|));
    }
  }

  lemma RedisBackwardShows(st: ScoreText, s: set<Row>, member: Row -> Row, b: nat, k: nat)
    requires st.Lawful() && k >= 1 && Mirrors(s, member) && b <= |Desc(s)|
    ensures var c := Score(member, Static.CursorBefore(s, b));
            var r := Redis.PageOf(st, Redis.Fixed(Image(s, member)), Backward(k, OptionalScoreCursor(st, c)));
            r.Ok? && ShowsMembers(s, member, r.value, b - Min(b, k), b)
  {
    hide Desc, Redis.PageOf, Redis.BuildPage, MapRows, Mirrors, Image, Redis.ScoresOver, TakeLast, Score,
      Static.CursorBefore, ShowsMembers, OptionalScoreCursor;
    var c := Score(member, Static.CursorBefore(s, b));
    var args := Backward(k, OptionalScoreCursor(st, c));
    if s == {} {
      EmptyImage(st, member, args);
    } else {
      ImageNotEmpty(s, member);
      Walk.BackwardPage(st, Image(s, member), c, k);
      BackwardMembers(s, member, b, k);
      RedisPageShows(st, s, member, args, b - Min(b, k), b);
    }
  }

  /** First=k, from the start or after an existing row. */
  lemma ForwardAgreement(
      tt: TimeText, st: ScoreText, s: set<Row>, member: Row -> Row, a: nat, k: nat, now: int)
    requires tt.Lawful() && st.Lawful() && k >= 1
    requires Static.SendableRows(tt, s) && Mirrors(s, member) && a <= |Desc(s)|
    ensures var c := Static.CursorAfter(s, a);
            var p := Sql.PageOf(tt, Sql.Unchanging(s, now), Forward(k, Changing.OptionalCursor(tt, c)));
            var z := Redis.PageOf(st, Redis.Fixed(Image(s, member)),
                                  Forward(k, OptionalScoreCursor(st, Score(member, c))));
            p.Ok? && z.Ok? && Agree(s, member, p.value, z.value, a, Min(a + k, |s|))
  {
    hide Desc, Sql.PageOf, Redis.PageOf, Mirrors, Image, Score, Static.CursorAfter, Static.SendableRows,
      Static.ShowsWindow, ShowsMembers, Agree, OptionalScoreCursor, Changing.OptionalCursor;
    var c := Static.CursorAfter(s, a);
    Static.ForwardCall(tt, k, s, a, now);
    RedisForwardShows(st, s, member, a, k);
    var p := Sql.PageOf(tt, Sql.Unchanging(s, now), Forward(k, Changing.OptionalCursor(tt, c))).value;
    var z := Redis.PageOf(st, Redis.Fixed(Image(s, member)),
                          Forward(k, OptionalScoreCursor(st, Score(member, c)))).value;
    SideBySide(tt, s, member, p, z, a, Min(a + k, |s|));
  }

  /** Last=k, from the end or before an existing row. */
  lemma BackwardAgreement(
      tt: TimeText, st: ScoreText, s: set<Row>, member: Row -> Row, b: nat, k: nat, now: int)
    requires tt.Lawful() && st.Lawful() && k >= 1
    requires Static.SendableRows(tt, s) && Mirrors(s, member) && b <= |Desc(s)|
    ensures var c := Static.CursorBefore(s, b);
            var p := Sql.PageOf(tt, Sql.Unchanging(s, now), Backward(k, Changing.OptionalCursor(tt, c)));
            var z := Redis.PageOf(st, Redis.Fixed(Image(s, member)),
                                  Backward(k, OptionalScoreCursor(st, Score(member, c))));
            p.Ok? && z.Ok? && Agree(s, member, p.value, z.value, b - Min(b, k), b)
  {
    hide Desc, Sql.PageOf, Redis.PageOf, Mirrors, Image, Score, Static.CursorBefore, Static.SendableRows,
      Static.ShowsWindow, ShowsMembers, Agree, OptionalScoreCursor, Changing.OptionalCursor;
    var c := Static.CursorBefore(s, b);
    Static.BackwardCall(tt, k, s, b, now);
    RedisBackwardShows(st, s, member, b, k);
    var p := Sql.PageOf(tt, Sql.Unchanging(s, now), Backward(k, Changing.OptionalCursor(tt, c))).value;
    var z := Redis.PageOf(st, Redis.Fixed(Image(s, member)),
                          Backward(k, OptionalScoreCursor(st, Score(member, c)))).value;
    SideBySide(tt, s, member, p, z, b - Min(b, k), b);
  }
}

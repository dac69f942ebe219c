/** What single requests to the sorted-set paginator return, over any snapshots and for any combination of
    arguments. */
module RedisRequests {
  import opened Text
  import opened Codec
  import opened Keyset
  import opened Cursor
  import opened Paging
  import opened RedisPagination
  import opened RedisChangingWalk

  /** The text is not base64, or what it encodes is not a score. */
  ghost predicate BadScore(st: ScoreText, text: Option<Str>) {
    text.Some? && (Base64Decode(text.value).None? || st.parse(Base64Decode(text.value).value).None?)
  }

  /** Only the cursor of the query that runs can be rejected, and only if the set is not empty. */
  lemma RedisRejectedExactly(st: ScoreText, db: Store, args: Arguments)
    ensures PageOf(st, db, args) == Err(InvalidAfter) <==>
              db.card != {} && args.first.Some? && BadScore(st, args.after)
    ensures PageOf(st, db, args) == Err(InvalidBefore) <==>
              db.card != {} && args.first.None? && args.last.Some? && BadScore(st, args.before)
  {
    hide Base64Decode, BuildPage, Desc;
  }

  lemma PageShape(st: ScoreText, db: Store, args: Arguments) returns (q: seq<Row>)
    requires PageOf(st, db, args).Ok?
    ensures db.card == {} ==> q == []
    ensures var p := PageOf(st, db, args).value;
            && p.Rows() == q && |p.items| == |q|
            && (db.card != {} ==> p == BuildPage(st, db, args, q))
            && (db.card == {} ==> p == Page([], PageInfo(false, false, None, None, 0)))
  {
    hide Desc, BuildPage, QueryMembers;
    q := PageOf(st, db, args).value.Rows();
  }

  /** Every item carries a cursor that decodes to its own score, the page's start and end cursors are those
      of its first and last item, and the total is the cardinality read first. */
  lemma ItemsCarryOwnScores(st: ScoreText, db: Store, args: Arguments)
    requires st.Lawful() && PageOf(st, db, args).Ok?
    ensures var p := PageOf(st, db, args).value;
            && (forall i :: 0 <= i < |p.items| ==> ParseScore(st, p.items[i].cursor) == Some(p.items[i].row.rank))
            && (if p.items == [] then p.info.startCursor == p.info.endCursor == None
                else && p.info.startCursor == Some(p.items[0].cursor)
                     && p.info.endCursor == Some(p.items[|p.items| - 1].cursor))
            && p.info.totalCount == |db.card|
  {
    hide Desc, QueryMembers, ParseScore, ScoreCursor, HasNext, HasPrevious, PageOf;
    var q := PageShape(st, db, args);
    var p := PageOf(st, db, args).value;
    forall i | 0 <= i < |p.items|
      ensures ParseScore(st, p.items[i].cursor) == Some(p.items[i].row.rank)
    {
      ScoreRoundTrip(st, p.items[i].row.rank);
    }
  }

  /** The flags of a page with members count, on their own snapshots, lower scores than the last member's and
      higher ones than the first's.  An empty page of a set that has members has a next page exactly if the
      request goes back from a cursor and not forward from one, and a previous page the other way round. */
  lemma FlagsReadTheirSnapshots(st: ScoreText, db: Store, args: Arguments)
    requires PageOf(st, db, args).Ok? && db.card != {}
    ensures var p := PageOf(st, db, args).value;
            var q := p.Rows();
            var forward, back := args.first.Some? && args.after.Some?, args.last.Some? && args.before.Some?;
            && (q != [] ==>
                  && (p.info.hasNext <==> exists r :: r in db.next && r.rank < q[|q| - 1].rank)
                  && (p.info.hasPrevious <==> exists r :: r in db.previous && r.rank > q[0].rank))
            && (q == [] ==>
                  && (p.info.hasNext <==> back && !forward)
                  && (p.info.hasPrevious <==> forward && !back))
  {
    hide Desc, QueryMembers, ParseScore, ScoreCursor, PageOf, Page.Rows;
    var q := PageShape(st, db, args);
    if q != [] {
      CountIs(db.next, q[|q| - 1].rank);
      CountIs(db.previous, q[0].rank);
    }
    hide ScoresBelow, ScoresOver;
  }

  lemma CountIs(s: set<Row>, score: int)
    ensures |ScoresBelow(s, Some(score))| > 0 <==> exists r :: r in s && r.rank < score
    ensures |ScoresOver(s, Some(score))| > 0 <==> exists r :: r in s && r.rank > score
  {
    var b, o := ScoresBelow(s, Some(score)), ScoresOver(s, Some(score));
    if r :| r in s && r.rank < score {
      assert r in b;
    }
    if r :| r in s && r.rank > score {
      assert r in o;
    }
    if |b| > 0 {
      var r :| r in b;
    }
    if |o| > 0 {
      var r :| r in o;
    }
  }

  /** A limit of zero is no limit. */
  lemma ZeroIsNoLimit(st: ScoreText, db: Store, c: Option<int>)
    requires st.Lawful() && db.card != {}
    ensures var f := PageOf(st, db, Forward(0, OptionalScoreCursor(st, c)));
            f.Ok? && f.value.Rows() == Desc(ScoresBelow(db.range, c))
    ensures var b := PageOf(st, db, Backward(0, OptionalScoreCursor(st, c)));
            b.Ok? && b.value.Rows() == Desc(ScoresOver(db.range, c))
  {
    hide Desc, ParseOptional, ScoreCursor, ScoresBelow, ScoresOver, HasNext, HasPrevious, OptionalScoreCursor;
    DecodeOwnScore(st, c);
  }

  /** From the cursor of any item, First=k shows the highest k members with a lower score and Last=k the lowest
      k with a higher one. */
  lemma ResumeAtScore(st: ScoreText, db: Store, args: Arguments, i: nat, k: nat, later: Store)
    requires st.Lawful() && k >= 1 && later.card != {}
    requires PageOf(st, db, args).Ok? && i < |PageOf(st, db, args).value.items|
    ensures var item := PageOf(st, db, args).value.items[i];
            var lower, higher := set r | r in later.range && r.rank < item.row.rank,
                                 set r | r in later.range && r.rank > item.row.rank;
            var next := PageOf(st, later, Forward(k, Some(item.cursor)));
            var back := PageOf(st, later, Backward(k, Some(item.cursor)));
            && next.Ok? && next.value.Rows() == Desc(lower)[..if k < |lower| then k else |lower|]
            && back.Ok? && back.value.Rows() == Desc(higher)[if k < |higher| then |higher| - k else 0..]
  {
    hide PageOf, ScoreCursor, Page.Rows, Desc, MembersAfter, MembersBefore, OptionalScoreCursor;
    var item := PageOf(st, db, args).value.items[i];
    CursorOfItem(st, db, args, i);
    ForwardPageAt(st, later, Some(item.row.rank), k);
    BackwardPageAt(st, later, Some(item.row.rank), k);
    NextMembers(later, item.row.rank, k);
  }

  lemma NextMembers(db: Store, score: int, k: nat)
    requires db.card != {}
    ensures var lower, higher := set r | r in db.range && r.rank < score, set r | r in db.range && r.rank > score;
            && MembersAfter(db, Some(score), k) == Desc(lower)[..if k < |lower| then k else |lower|]
            && MembersBefore(db, Some(score), k) == Desc(higher)[if k < |higher| then |higher| - k else 0..]
  {
    hide Desc;
  }

  lemma CursorOfItem(st: ScoreText, db: Store, args: Arguments, i: nat)
    requires PageOf(st, db, args).Ok? && i < |PageOf(st, db, args).value.items|
    ensures var item := PageOf(st, db, args).value.items[i];
            Some(item.cursor) == OptionalScoreCursor(st, Some(item.row.rank))
  {
    hide Desc, QueryMembers, ParseScore, ScoreCursor, HasNext, HasPrevious, PageOf;
    var q := PageShape(st, db, args);
  }
}

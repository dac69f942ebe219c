/** A client that pages through a sorted set whose scores may tie and which others keep changing, in
    either direction. */
module RedisChangingWalk {
  import opened Text
  import opened Keyset
  import opened Cursor
  import opened Paging
  import opened RedisPagination

  function Shown(pages: seq<Page>): seq<Row> {
    if pages == [] then [] else Shown(Init(pages)) + Last(pages).value.Rows()
  }

  function NextAfter(pages: seq<Page>): Option<Str> {
    if pages == [] then None
    else if Last(pages).value.items == [] then NextAfter(Init(pages))
    else Last(pages).value.info.endCursor
  }

  /** Page `i` is what `ListItems` returns for First=k from the store as call `i` saw it. */
  ghost predicate StoreWalk(st: ScoreText, k: nat, dbs: seq<Store>, pages: seq<Page>) {
    && |dbs| == |pages|
    && (pages == [] || (
          && StoreWalk(st, k, Init(dbs), Init(pages))
          && PageOf(st, Last(dbs).value, Forward(k, NextAfter(Init(pages)))) == Ok(Last(pages).value)))
  }

  /** The member had this score for every command of the walk that looks for members. */
  ghost predicate Present(dbs: seq<Store>, r: Row) {
    forall db :: db in dbs ==> r in db.card && r in db.range && r in db.next
  }

  ghost predicate FoundIn(dbs: seq<Store>, r: Row) {
    exists db :: db in dbs && r in db.range
  }

  /** The member ties with the last score of the page but sorts after it. */
  predicate TiedBeyond(p: Page, r: Row) {
    p.items != [] && r.rank == Last(p.Rows()).value.rank && Less(r, Last(p.Rows()).value)
  }

  ghost predicate TiedBeyondSome(pages: seq<Page>, r: Row) {
    exists i :: 0 <= i < |pages| && TiedBeyond(pages[i], r)
  }

  function LastScore(q: seq<Row>): Option<int> {
    if q == [] then None else Some(q[|q| - 1].rank)
  }

  predicate Ahead(r: Row, c: Option<int>) {
    c.None? || r.rank < c.value
  }

  /** What a forward call finds after a score. */
  function MembersAfter(db: Store, c: Option<int>, k: nat): seq<Row> {
    if db.card == {} then [] else Take(Desc(ScoresBelow(db.range, c)), k)
  }

  lemma DecodeOwnScore(st: ScoreText, c: Option<int>)
    requires st.Lawful()
    ensures ParseOptional(st, OptionalScoreCursor(st, c)) == Some(c)
  {
    if c.Some? {
      ScoreRoundTrip(st, c.value);
    }
  }

  lemma ForwardPageAt(st: ScoreText, db: Store, c: Option<int>, k: nat)
    requires st.Lawful() && k >= 1
    ensures var r := PageOf(st, db, Forward(k, OptionalScoreCursor(st, c)));
            var q := MembersAfter(db, c, k);
            && r.Ok? && r.value.Rows() == q && |r.value.items| == |q|
            && r.value.info.endCursor == OptionalScoreCursor(st, LastScore(q))
            && (r.value.info.hasNext <==> q != [] && ScoresBelow(db.next, LastScore(q)) != {})
  {
    hide Desc, ScoreCursor, ParseScore, ScoresBelow, ScoresOver, ParseOptional;
    DecodeOwnScore(st, c);
    if db.card == {} {
      assert |PageOf(st, db, Forward(k, OptionalScoreCursor(st, c))).value.Rows()| == 0;
    }
  }

  lemma LowerScore(a: Row, b: Row)
    requires a.rank < b.rank
    ensures Less(a, b)
  {
  }

  lemma NotHigherScore(a: Row, b: Row)
    requires Less(a, b)
    ensures a.rank <= b.rank
  {
  }

  /** What one more page does to the members still ahead. */
  lemma TakeByScore(s: set<Row>, c: Option<int>, k: nat)
    requires k >= 1
    ensures var b := ScoresBelow(s, c); var q := Take(Desc(b), k);
            && Descending(q)
            && (forall r :: r in q ==> r in b && r.rank >= LastScore(q).value)
            && (q == [] ==> b == {})
            && (forall r :: r in b && r !in q ==> q != [] && Less(r, Last(q).value))
            && (forall r :: r in q ==> !Less(r, Last(q).value))
  {
    hide Desc, Less;
    var b := ScoresBelow(s, c);
    TakeCovers(b, k);
    var q := Take(Desc(b), k);
    forall r | r in q
      ensures r.rank >= LastScore(q).value && !Less(r, Last(q).value)
    {
      var j :| 0 <= j < |q| && q[j] == r;
      EarlierIsGreater(q, |q| - 1, j);
      if j < |q| - 1 {
        NotHigherScore(q[|q| - 1], q[j]);
      }
    }
  }

  lemma MembersAfterAre(db: Store, c: Option<int>, k: nat)
    requires k >= 1
    ensures var q := MembersAfter(db, c, k);
            && Descending(q)
            && forall r :: r in q ==> r in db.range && Ahead(r, c) && r.rank >= LastScore(q).value
  {
    hide Desc, Less, Take;
    TakeByScore(db.range, c, k);
  }

  lemma TiedBeyondSplit(pages: seq<Page>, r: Row)
    requires pages != []
    ensures TiedBeyondSome(pages, r) <==> TiedBeyondSome(Init(pages), r) || TiedBeyond(Last(pages).value, r)
  {
    hide Less;
    assert forall i :: 0 <= i < |pages| - 1 ==> pages[i] == Init(pages)[i];
  }

  ghost predicate StoreWalkState(st: ScoreText, dbs: seq<Store>, pages: seq<Page>) {
    var out := Shown(pages);
    && NextAfter(pages) == OptionalScoreCursor(st, LastScore(out))
    && Descending(out)
    && (forall r :: r in out ==> FoundIn(dbs, r) && r.rank >= LastScore(out).value)
    && (forall r :: TiedBeyondSome(pages, r) ==> !Ahead(r, LastScore(out)) && r !in out)
    && (forall r :: Present(dbs, r) && r !in out && !TiedBeyondSome(pages, r) ==> Ahead(r, LastScore(out)))
  }

  /** The page one more call appends. */
  lemma StorePageStep(st: ScoreText, k: nat, dbs: seq<Store>, pages: seq<Page>)
    requires st.Lawful() && k >= 1 && pages != []
    requires StoreWalk(st, k, dbs, pages)
    requires NextAfter(Init(pages)) == OptionalScoreCursor(st, LastScore(Shown(Init(pages))))
    ensures var before, out, last := Shown(Init(pages)), Shown(pages), Last(pages).value;
            var q := MembersAfter(Last(dbs).value, LastScore(before), k);
            && last.Rows() == q && (last.items == [] <==> q == [])
            && out == before + q
            && LastScore(out) == (if q == [] then LastScore(before) else LastScore(q))
            && NextAfter(pages) == OptionalScoreCursor(st, LastScore(out))
            && (last.info.hasNext <==> q != [] && ScoresBelow(Last(dbs).value.next, LastScore(out)) != {})
  {
    hide Desc, Less, ScoreCursor, PageOf, ScoresBelow, ScoresOver, MembersAfter, OptionalScoreCursor, Page.Rows;
    var before := Shown(Init(pages));
    ForwardPageAt(st, Last(dbs).value, LastScore(before), k);
    assert before + [] == before;
  }

  lemma PresentSplit(dbs: seq<Store>, r: Row)
    requires dbs != [] && Present(dbs, r)
    ensures Present(Init(dbs), r)
    ensures var db := Last(dbs).value; r in db.card && r in db.range && r in db.next
  {
    assert Last(dbs).value in dbs;
    assert forall db :: db in Init(dbs) ==> db in dbs;
  }

  lemma FoundStill(dbs: seq<Store>, r: Row)
    requires dbs != [] && (FoundIn(Init(dbs), r) || r in Last(dbs).value.range)
    ensures FoundIn(dbs, r)
  {
    assert Last(dbs).value in dbs;
    assert forall db :: db in Init(dbs) ==> db in dbs;
  }

  /** A member tied with the end of some page is never shown. */
  lemma TiedStep(st: ScoreText, k: nat, dbs: seq<Store>, pages: seq<Page>, r: Row)
    requires st.Lawful() && k >= 1 && pages != []
    requires |dbs| == |pages| && StoreWalk(st, k, dbs, pages) && StoreWalkState(st, Init(dbs), Init(pages))
    requires TiedBeyondSome(pages, r)
    ensures !Ahead(r, LastScore(Shown(pages))) && r !in Shown(pages)
  {
    hide Desc, Less, PageOf, StoreWalk, NextAfter, TiedBeyondSome, Present, Shown, Descending, FoundIn, Take,
      Page.Rows, OptionalScoreCursor;
    StorePageStep(st, k, dbs, pages);
    TakeByScore(Last(dbs).value.range, LastScore(Shown(Init(pages))), k);
    TiedBeyondSplit(pages, r);
  }

  /** A member that is neither shown nor tied is ahead of the page, and HasNextPage says so. */
  lemma AheadStep(st: ScoreText, k: nat, dbs: seq<Store>, pages: seq<Page>, r: Row)
    requires st.Lawful() && k >= 1 && pages != []
    requires |dbs| == |pages| && StoreWalk(st, k, dbs, pages) && StoreWalkState(st, Init(dbs), Init(pages))
    requires Present(dbs, r) && r !in Shown(pages) && !TiedBeyondSome(pages, r)
    ensures Ahead(r, LastScore(Shown(pages))) && Last(pages).value.info.hasNext
  {
    hide Desc, Less, PageOf, StoreWalk, NextAfter, TiedBeyondSome, Present, Shown, Descending, FoundIn, Take,
      Page.Rows, OptionalScoreCursor;
    var db, c := Last(dbs).value, LastScore(Shown(Init(pages)));
    var q := MembersAfter(db, c, k);
    StorePageStep(st, k, dbs, pages);
    TiedBeyondSplit(pages, r);
    PresentSplit(dbs, r);
    hide MembersAfter;
    LeftBehind(db, c, k, r);
    assert r in ScoresBelow(db.next, LastScore(q));
  }

  /** A member the page leaves out, and not for a tie, has a lower score than the page. */
  lemma LeftBehind(db: Store, c: Option<int>, k: nat, r: Row)
    requires k >= 1 && r in db.card && r in db.range && Ahead(r, c)
    requires r !in MembersAfter(db, c, k)
    ensures var q := MembersAfter(db, c, k);
            && q != []
            && (r.rank < Last(q).value.rank || (r.rank == Last(q).value.rank && Less(r, Last(q).value)))
  {
    hide Desc, Less, Take;
    TakeByScore(db.range, c, k);
    var q := MembersAfter(db, c, k);
    assert r in ScoresBelow(db.range, c);
    NotHigherScore(r, Last(q).value);
  }

  lemma StoreWalkStep(st: ScoreText, k: nat, dbs: seq<Store>, pages: seq<Page>)
    requires st.Lawful() && k >= 1 && pages != []
    requires |dbs| == |pages| && StoreWalk(st, k, dbs, pages)
    requires StoreWalkState(st, Init(dbs), Init(pages))
    ensures StoreWalkState(st, dbs, pages)
  {
    hide Desc, Less, PageOf, StoreWalk, NextAfter, TiedBeyondSome, Present, Shown, Descending, FoundIn, Take,
      Page.Rows, OptionalScoreCursor;
    var db, before, out := Last(dbs).value, Shown(Init(pages)), Shown(pages);
    var c := LastScore(before);
    StorePageStep(st, k, dbs, pages);
    MembersAfterAre(db, c, k);
    var q := MembersAfter(db, c, k);
    forall r | r in q && before != []
      ensures Less(r, Last(before).value)
    {
      LowerScore(r, Last(before).value);
    }
    DescendingJoin(before, q);
    forall r | r in out
      ensures FoundIn(dbs, r)
    {
      FoundStill(dbs, r);
    }
    forall r
      ensures TiedBeyondSome(pages, r) ==> !Ahead(r, LastScore(out)) && r !in out
      ensures Present(dbs, r) && r !in out && !TiedBeyondSome(pages, r) ==> Ahead(r, LastScore(out))
    {
      if TiedBeyondSome(pages, r) {
        TiedStep(st, k, dbs, pages, r);
      } else if Present(dbs, r) && r !in out {
        AheadStep(st, k, dbs, pages, r);
      }
    }
  }

  lemma {:induction false} StoreWalkInvariant(st: ScoreText, k: nat, dbs: seq<Store>, pages: seq<Page>)
    requires st.Lawful() && k >= 1
    requires StoreWalk(st, k, dbs, pages)
    ensures StoreWalkState(st, dbs, pages)
  {
    if pages != [] {
      StoreWalkInvariant(st, k, Init(dbs), Init(pages));
      StoreWalkStep(st, k, dbs, pages);
    }
  }

  /** Whatever changes between the commands: the rows shown strictly descend, a member is shown again only
      with a lower score, and once HasNextPage is false a member that kept its score throughout was left
      out exactly if it ties with the last score of some page and sorts beyond it. */
  lemma RedisWalkUnderChange(st: ScoreText, k: nat, dbs: seq<Store>, pages: seq<Page>)
    requires st.Lawful() && k >= 1
    requires StoreWalk(st, k, dbs, pages)
    ensures Descending(Shown(pages))
    ensures forall i, j :: 0 <= i < j < |Shown(pages)| && Shown(pages)[i].id == Shown(pages)[j].id ==>
              Shown(pages)[j].rank < Shown(pages)[i].rank
    ensures pages != [] && !Last(pages).value.info.hasNext ==>
              forall r :: Present(dbs, r) ==> (r !in Shown(pages) <==> TiedBeyondSome(pages, r))
  {
    hide Desc, PageOf, Present, TiedBeyondSome, Shown;
    StoreWalkInvariant(st, k, dbs, pages);
    var out := Shown(pages);
    forall i, j | 0 <= i < j < |out| && out[i].id == out[j].id
      ensures out[j].rank < out[i].rank
    {
      SameMemberLower(out[j], out[i]);
    }
    if pages != [] && !Last(pages).value.info.hasNext {
      StoreWalkInvariant(st, k, Init(dbs), Init(pages));
      forall r | Present(dbs, r)
        ensures r !in out <==> TiedBeyondSome(pages, r)
      {
        if r !in out && !TiedBeyondSome(pages, r) {
          AheadStep(st, k, dbs, pages, r);
        }
      }
    }
  }

  lemma SameMemberLower(a: Row, b: Row)
    requires Less(a, b) && a.id == b.id
    ensures a.rank < b.rank
  {
    StrLessIrreflexive(a.id);
  }

  /** No member is ever seen with two scores. */
  ghost predicate StableScores(dbs: seq<Store>) {
    forall a, b :: FoundIn(dbs, a) && FoundIn(dbs, b) && a.id == b.id ==> a == b
  }

  /** So a member is shown twice only if its score was changed during the walk. */
  lemma ShownOnceIfStable(st: ScoreText, k: nat, dbs: seq<Store>, pages: seq<Page>)
    requires st.Lawful() && k >= 1
    requires StoreWalk(st, k, dbs, pages) && StableScores(dbs)
    ensures forall i, j :: 0 <= i < j < |Shown(pages)| ==> Shown(pages)[i].id != Shown(pages)[j].id
  {
    hide Desc, PageOf, FoundIn, Less, Shown;
    StoreWalkInvariant(st, k, dbs, pages);
    RedisWalkUnderChange(st, k, dbs, pages);
    var out := Shown(pages);
    forall i, j | 0 <= i < j < |out|
      ensures out[i].id != out[j].id
    {
      assert out[i] in out && out[j] in out;
    }
  }

  lemma SingleMember(r: Row, c: Option<int>)
    requires Ahead(r, c)
    ensures MembersAfter(Fixed({r}), c, 1) == [r]
  {
    assert ScoresBelow({r}, c) == {r};
    assert Lists([r], {r});
    ListingUnique([r], {r});
  }

  /** And that does happen: one member, whose score drops between two calls. */
  lemma RescoredMemberShownTwice(st: ScoreText, score: int) returns (pages: seq<Page>)
    requires st.Lawful()
    ensures var high, low := Row(score, [1]), Row(score - 1, [1]);
            && StoreWalk(st, 1, [Fixed({high}), Fixed({low})], pages)
            && Shown(pages) == [high, low]
  {
    hide Desc, ScoreCursor, PageOf, MembersAfter, ScoresBelow;
    var high: Row, low: Row := Row(score, [1]), Row(score - 1, [1]);
    SingleMember(high, None);
    ForwardPageAt(st, Fixed({high}), None, 1);
    var p := PageOf(st, Fixed({high}), Forward(1, None)).value;
    SingleMember(low, Some(score));
    ForwardPageAt(st, Fixed({low}), Some(score), 1);
    var z := PageOf(st, Fixed({low}), Forward(1, Some(ScoreCursor(st, score)))).value;
    pages := [p, z];
    assert Init(pages) == [p] && Init([p]) == [] && Init([Fixed({high}), Fixed({low})]) == [Fixed({high})];
    assert Init([Fixed({high})]) == [];
    assert StoreWalk(st, 1, [Fixed({high})], [p]);
    assert Shown([]) + p.Rows() == [high];
    assert Shown([p]) == [high];
  }

  // ---- the other direction -----------------------------------------------

  /** Backward pages arrive last page first, each with its members in listing order. */
  function Collected(pages: seq<Page>): seq<Row> {
    if pages == [] then [] else Last(pages).value.Rows() + Collected(Init(pages))
  }

  function NextBefore(pages: seq<Page>): Option<Str> {
    if pages == [] then None
    else if Last(pages).value.items == [] then NextBefore(Init(pages))
    else Last(pages).value.info.startCursor
  }

  /** Page `i` is what `ListItems` returns for Last=k from the store as call `i` saw it. */
  ghost predicate BackwardStoreWalk(st: ScoreText, k: nat, dbs: seq<Store>, pages: seq<Page>) {
    && |dbs| == |pages|
    && (pages == [] || (
          && BackwardStoreWalk(st, k, Init(dbs), Init(pages))
          && PageOf(st, Last(dbs).value, Backward(k, NextBefore(Init(pages)))) == Ok(Last(pages).value)))
  }

  ghost predicate PresentBackward(dbs: seq<Store>, r: Row) {
    forall db :: db in dbs ==> r in db.card && r in db.range && r in db.previous
  }

  /** The member ties with the first score of the page but sorts before it. */
  predicate TiedAbove(p: Page, r: Row) {
    p.items != [] && r.rank == First(p.Rows()).value.rank && Less(First(p.Rows()).value, r)
  }

  ghost predicate TiedAboveSome(pages: seq<Page>, r: Row) {
    exists i :: 0 <= i < |pages| && TiedAbove(pages[i], r)
  }

  function FirstScore(q: seq<Row>): Option<int> {
    if q == [] then None else Some(q[0].rank)
  }

  predicate Behind(r: Row, c: Option<int>) {
    c.None? || r.rank > c.value
  }

  /** What a backward call finds before a score. */
  function MembersBefore(db: Store, c: Option<int>, k: nat): seq<Row> {
    if db.card == {} then [] else TakeLast(Desc(ScoresOver(db.range, c)), k)
  }

  lemma BackwardPageAt(st: ScoreText, db: Store, c: Option<int>, k: nat)
    requires st.Lawful() && k >= 1
    ensures var r := PageOf(st, db, Backward(k, OptionalScoreCursor(st, c)));
            var q := MembersBefore(db, c, k);
            && r.Ok? && r.value.Rows() == q && |r.value.items| == |q|
            && r.value.info.startCursor == OptionalScoreCursor(st, FirstScore(q))
            && (r.value.info.hasPrevious <==> q != [] && ScoresOver(db.previous, FirstScore(q)) != {})
  {
    hide Desc, ScoreCursor, ParseScore, ScoresBelow, ScoresOver, ParseOptional;
    DecodeOwnScore(st, c);
    if db.card == {} {
      assert |PageOf(st, db, Backward(k, OptionalScoreCursor(st, c))).value.Rows()| == 0;
    }
  }

  lemma TakeLastByScore(s: set<Row>, c: Option<int>, k: nat)
    requires k >= 1
    ensures var b := ScoresOver(s, c); var q := TakeLast(Desc(b), k);
            && Descending(q)
            && (forall r :: r in q ==> r in b && r.rank <= FirstScore(q).value)
            && (q == [] ==> b == {})
            && (forall r :: r in b && r !in q ==> q != [] && Less(First(q).value, r))
            && (forall r :: r in q ==> !Less(First(q).value, r))
  {
    hide Desc, Less;
    var b := ScoresOver(s, c);
    TakeLastCovers(b, k);
    var q := TakeLast(Desc(b), k);
    forall r | r in q
      ensures r.rank <= FirstScore(q).value && !Less(First(q).value, r)
    {
      var j :| 0 <= j < |q| && q[j] == r;
      EarlierIsGreater(q, j, 0);
      if 0 < j {
        NotHigherScore(q[j], q[0]);
      }
    }
  }

  lemma MembersBeforeAre(db: Store, c: Option<int>, k: nat)
    requires k >= 1
    ensures var q := MembersBefore(db, c, k);
            && Descending(q)
            && forall r :: r in q ==> r in db.range && Behind(r, c) && r.rank <= FirstScore(q).value
  {
    hide Desc, Less, TakeLast;
    TakeLastByScore(db.range, c, k);
  }

  lemma TiedAboveSplit(pages: seq<Page>, r: Row)
    requires pages != []
    ensures TiedAboveSome(pages, r) <==> TiedAboveSome(Init(pages), r) || TiedAbove(Last(pages).value, r)
  {
    hide Less;
    assert forall i :: 0 <= i < |pages| - 1 ==> pages[i] == Init(pages)[i];
  }

  ghost predicate BackwardStoreState(st: ScoreText, dbs: seq<Store>, pages: seq<Page>) {
    var out := Collected(pages);
    && NextBefore(pages) == OptionalScoreCursor(st, FirstScore(out))
    && Descending(out)
    && (forall r :: r in out ==> FoundIn(dbs, r) && r.rank <= FirstScore(out).value)
    && (forall r :: TiedAboveSome(pages, r) ==> !Behind(r, FirstScore(out)) && r !in out)
    && (forall r :: PresentBackward(dbs, r) && r !in out && !TiedAboveSome(pages, r) ==> Behind(r, FirstScore(out)))
  }

  /** The page one more call puts in front. */
  lemma BackwardStorePageStep(st: ScoreText, k: nat, dbs: seq<Store>, pages: seq<Page>)
    requires st.Lawful() && k >= 1 && pages != []
    requires BackwardStoreWalk(st, k, dbs, pages)
    requires NextBefore(Init(pages)) == OptionalScoreCursor(st, FirstScore(Collected(Init(pages))))
    ensures var seen, out, last := Collected(Init(pages)), Collected(pages), Last(pages).value;
            var q := MembersBefore(Last(dbs).value, FirstScore(seen), k);
            && last.Rows() == q && (last.items == [] <==> q == [])
            && out == q + seen
            && FirstScore(out) == (if q == [] then FirstScore(seen) else FirstScore(q))
            && NextBefore(pages) == OptionalScoreCursor(st, FirstScore(out))
            && (last.info.hasPrevious <==> q != [] && ScoresOver(Last(dbs).value.previous, FirstScore(out)) != {})
  {
    hide Desc, Less, ScoreCursor, PageOf, ScoresBelow, ScoresOver, MembersBefore, OptionalScoreCursor, Page.Rows;
    var seen := Collected(Init(pages));
    BackwardPageAt(st, Last(dbs).value, FirstScore(seen), k);
    assert [] + seen == seen;
  }

  lemma PresentBackwardSplit(dbs: seq<Store>, r: Row)
    requires dbs != [] && PresentBackward(dbs, r)
    ensures PresentBackward(Init(dbs), r)
    ensures var db := Last(dbs).value; r in db.card && r in db.range && r in db.previous
  {
    assert Last(dbs).value in dbs;
    assert forall db :: db in Init(dbs) ==> db in dbs;
  }

  lemma TiedAboveStep(st: ScoreText, k: nat, dbs: seq<Store>, pages: seq<Page>, r: Row)
    requires st.Lawful() && k >= 1 && pages != []
    requires |dbs| == |pages| && BackwardStoreWalk(st, k, dbs, pages)
    requires BackwardStoreState(st, Init(dbs), Init(pages)) && TiedAboveSome(pages, r)
    ensures !Behind(r, FirstScore(Collected(pages))) && r !in Collected(pages)
  {
    hide Desc, Less, PageOf, BackwardStoreWalk, NextBefore, TiedAboveSome, PresentBackward, Collected, Descending,
      FoundIn, TakeLast, Page.Rows, OptionalScoreCursor;
    BackwardStorePageStep(st, k, dbs, pages);
    TakeLastByScore(Last(dbs).value.range, FirstScore(Collected(Init(pages))), k);
    TiedAboveSplit(pages, r);
  }

  lemma BehindStep(st: ScoreText, k: nat, dbs: seq<Store>, pages: seq<Page>, r: Row)
    requires st.Lawful() && k >= 1 && pages != []
    requires |dbs| == |pages| && BackwardStoreWalk(st, k, dbs, pages)
    requires BackwardStoreState(st, Init(dbs), Init(pages))
    requires PresentBackward(dbs, r) && r !in Collected(pages) && !TiedAboveSome(pages, r)
    ensures Behind(r, FirstScore(Collected(pages))) && Last(pages).value.info.hasPrevious
  {
    hide Desc, Less, PageOf, BackwardStoreWalk, NextBefore, TiedAboveSome, PresentBackward, Collected, Descending,
      FoundIn, TakeLast, Page.Rows, OptionalScoreCursor;
    var db, c := Last(dbs).value, FirstScore(Collected(Init(pages)));
    var q := MembersBefore(db, c, k);
    BackwardStorePageStep(st, k, dbs, pages);
    TiedAboveSplit(pages, r);
    PresentBackwardSplit(dbs, r);
    hide MembersBefore;
    LeftInFront(db, c, k, r);
    assert r in ScoresOver(db.previous, FirstScore(q));
  }

  /** A member the page leaves out, and not for a tie, has a higher score than the page. */
  lemma LeftInFront(db: Store, c: Option<int>, k: nat, r: Row)
    requires k >= 1 && r in db.card && r in db.range && Behind(r, c)
    requires r !in MembersBefore(db, c, k)
    ensures var q := MembersBefore(db, c, k);
            && q != []
            && (r.rank > First(q).value.rank || (r.rank == First(q).value.rank && Less(First(q).value, r)))
  {
    hide Desc, Less, TakeLast;
    TakeLastByScore(db.range, c, k);
    var q := MembersBefore(db, c, k);
    assert r in ScoresOver(db.range, c);
    NotHigherScore(First(q).value, r);
  }

  lemma PutInFront(q: seq<Row>, seen: seq<Row>)
    requires Descending(q) && Descending(seen)
    requires forall r :: r in q ==> r.rank <= FirstScore(q).value && Behind(r, FirstScore(seen))
    requires forall r :: r in seen ==> r.rank <= FirstScore(seen).value
    ensures Descending(q + seen)
    ensures forall r :: r in q + seen ==> r.rank <= FirstScore(q + seen).value
  {
    hide Less, Descending;
    forall r | r in q && seen != []
      ensures Less(First(seen).value, r)
    {
      LowerScore(First(seen).value, r);
    }
    DescendingJoinFront(q, seen);
    if q == [] {
      assert q + seen == seen;
    } else {
      assert q[0] in q;
    }
  }

  lemma BackwardStoreStep(st: ScoreText, k: nat, dbs: seq<Store>, pages: seq<Page>)
    requires st.Lawful() && k >= 1 && pages != []
    requires |dbs| == |pages| && BackwardStoreWalk(st, k, dbs, pages)
    requires BackwardStoreState(st, Init(dbs), Init(pages))
    ensures BackwardStoreState(st, dbs, pages)
  {
    hide Desc, Less, PageOf, BackwardStoreWalk, NextBefore, TiedAboveSome, PresentBackward, Collected, Descending,
      FoundIn, MembersBefore, Page.Rows, OptionalScoreCursor;
    var db, seen, out := Last(dbs).value, Collected(Init(pages)), Collected(pages);
    var c := FirstScore(seen);
    BackwardStorePageStep(st, k, dbs, pages);
    MembersBeforeAre(db, c, k);
    var q := MembersBefore(db, c, k);
    PutInFront(q, seen);
    forall r | r in out
      ensures FoundIn(dbs, r)
    {
      FoundStill(dbs, r);
    }
    forall r
      ensures TiedAboveSome(pages, r) ==> !Behind(r, FirstScore(out)) && r !in out
      ensures PresentBackward(dbs, r) && r !in out && !TiedAboveSome(pages, r) ==> Behind(r, FirstScore(out))
    {
      if TiedAboveSome(pages, r) {
        TiedAboveStep(st, k, dbs, pages, r);
      } else if PresentBackward(dbs, r) && r !in out {
        BehindStep(st, k, dbs, pages, r);
      }
    }
  }

  lemma {:induction false} BackwardStoreInvariant(st: ScoreText, k: nat, dbs: seq<Store>, pages: seq<Page>)
    requires st.Lawful() && k >= 1
    requires BackwardStoreWalk(st, k, dbs, pages)
    ensures BackwardStoreState(st, dbs, pages)
  {
    if pages != [] {
      BackwardStoreInvariant(st, k, Init(dbs), Init(pages));
      BackwardStoreStep(st, k, dbs, pages);
    }
  }

  /** The mirror image for Last=k: put back in reverse the pages strictly descend, a member is returned
      again only with a higher score, and once HasPreviousPage is false a member that kept its score
      throughout was left out exactly if it ties with the first score of some page and sorts above it. */
  lemma RedisBackwardUnderChange(st: ScoreText, k: nat, dbs: seq<Store>, pages: seq<Page>)
    requires st.Lawful() && k >= 1
    requires BackwardStoreWalk(st, k, dbs, pages)
    ensures Descending(Collected(pages))
    ensures forall i, j :: 0 <= i < j < |Collected(pages)| && Collected(pages)[i].id == Collected(pages)[j].id ==>
              Collected(pages)[j].rank < Collected(pages)[i].rank
    ensures pages != [] && !Last(pages).value.info.hasPrevious ==>
              forall r :: PresentBackward(dbs, r) ==> (r !in Collected(pages) <==> TiedAboveSome(pages, r))
  {
    hide Desc, PageOf, PresentBackward, TiedAboveSome, Collected;
    BackwardStoreInvariant(st, k, dbs, pages);
    var out := Collected(pages);
    forall i, j | 0 <= i < j < |out| && out[i].id == out[j].id
      ensures out[j].rank < out[i].rank
    {
      SameMemberLower(out[j], out[i]);
    }
    if pages != [] && !Last(pages).value.info.hasPrevious {
      BackwardStoreInvariant(st, k, Init(dbs), Init(pages));
      forall r | PresentBackward(dbs, r)
        ensures r !in out <==> TiedAboveSome(pages, r)
      {
        if r !in out && !TiedAboveSome(pages, r) {
          BehindStep(st, k, dbs, pages, r);
        }
      }
    }
  }
}

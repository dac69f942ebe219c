/** A client that pages forward through a sorted set whose scores may tie. */
module RedisWalk {
  import opened Text
  import opened Keyset
  import opened Cursor
  import opened Paging
  import opened RedisPagination
  import opened RedisChangingWalk

  ghost predicate ForwardWalk(st: ScoreText, k: nat, s: set<Row>, pages: seq<Page>) {
    pages == [] || (
      && ForwardWalk(st, k, s, Init(pages))
      && PageOf(st, Fixed(s), Forward(k, NextAfter(Init(pages)))) == Ok(Last(pages).value))
  }

  /** The walk went on exactly while HasNextPage was true. */
  ghost predicate Complete(st: ScoreText, k: nat, s: set<Row>, pages: seq<Page>) {
    && ForwardWalk(st, k, s, pages) && pages != []
    && !Last(pages).value.info.hasNext
    && forall i :: 0 <= i < |pages| - 1 ==> pages[i].info.hasNext
  }

  /** A forward page after a score, for a set that is not empty. */
  lemma ForwardPage(st: ScoreText, s: set<Row>, c: Option<int>, k: nat)
    requires st.Lawful() && s != {} && k >= 1
    ensures PageOf(st, Fixed(s), Forward(k, OptionalScoreCursor(st, c)))
         == Ok(BuildPage(st, Fixed(s), Forward(k, OptionalScoreCursor(st, c)), Take(Desc(ScoresBelow(s, c)), k)))
  {
    hide Desc, ScoreCursor, ParseScore, BuildPage, ScoresBelow;
    assert |s| != 0;
    if c.Some? {
      ScoreRoundTrip(st, c.value);
    }
  }

  ghost predicate WalkState(st: ScoreText, s: set<Row>, pages: seq<Page>) {
    var out := Shown(pages);
    && NextAfter(pages) == OptionalScoreCursor(st, LastScore(out))
    && Descending(out)
    && (forall r :: r in out ==> r in s && r.rank >= LastScore(out).value)
    && (forall r :: TiedBeyondSome(pages, r) ==> !Ahead(r, LastScore(out)) && r !in out)
    && (forall r :: r in s && r !in out && !TiedBeyondSome(pages, r) ==> r in ScoresBelow(s, LastScore(out)))
  }

  /** The page one more call appends. */
  lemma PageStep(st: ScoreText, k: nat, s: set<Row>, pages: seq<Page>)
    requires st.Lawful() && s != {} && pages != [] && k >= 1
    requires ForwardWalk(st, k, s, pages)
    requires NextAfter(Init(pages)) == OptionalScoreCursor(st, LastScore(Shown(Init(pages))))
    ensures var before, out := Shown(Init(pages)), Shown(pages);
            var q := Take(Desc(ScoresBelow(s, LastScore(before))), k);
            && Last(pages).value.Rows() == q && (Last(pages).value.items == [] <==> q == [])
            && out == before + q
            && LastScore(out) == (if q == [] then LastScore(before) else LastScore(q))
            && NextAfter(pages) == OptionalScoreCursor(st, LastScore(out))
            && (q != [] ==> (Last(pages).value.info.hasNext <==> ScoresBelow(s, LastScore(out)) != {}))
            && (q == [] ==> !Last(pages).value.info.hasNext)
  {
    hide Desc, Less, ScoreCursor, PageOf, ScoresBelow, ScoresOver;
    var last, before := Last(pages).value, Shown(Init(pages));
    ForwardPage(st, s, LastScore(before), k);
    var q := Take(Desc(ScoresBelow(s, LastScore(before))), k);
    assert |last.items| == |last.Rows()|;
    assert q == [] ==> before + q == before;
  }

  function Same(s: set<Row>, n: nat): seq<Store> {
    seq(n, _ => Fixed(s))
  }

  lemma {:induction false} FixedIsStoreWalk(st: ScoreText, k: nat, s: set<Row>, pages: seq<Page>)
    requires ForwardWalk(st, k, s, pages)
    ensures StoreWalk(st, k, Same(s, |pages|), pages)
  {
    hide PageOf;
    if pages != [] {
      FixedIsStoreWalk(st, k, s, Init(pages));
      assert Init(Same(s, |pages|)) == Same(s, |pages| - 1);
    }
  }

  /** On a set nobody changes, the members still ahead are those below the last score shown. */
  lemma WalkInvariant(st: ScoreText, k: nat, s: set<Row>, pages: seq<Page>)
    requires st.Lawful() && k >= 1 && s != {}
    requires ForwardWalk(st, k, s, pages)
    ensures WalkState(st, s, pages)
    ensures pages != [] ==> (Last(pages).value.info.hasNext <==> ScoresBelow(s, LastScore(Shown(pages))) != {})
  {
    hide Desc, Less, PageOf, ScoreCursor, StoreWalk, TiedBeyondSome, Shown, NextAfter, OptionalScoreCursor;
    StateOfFixed(st, k, s, pages);
    if pages != [] {
      StateOfFixed(st, k, s, Init(pages));
      PageStep(st, k, s, pages);
      TakeByScore(s, LastScore(Shown(Init(pages))), k);
    }
  }

  lemma StateOfFixed(st: ScoreText, k: nat, s: set<Row>, pages: seq<Page>)
    requires st.Lawful() && k >= 1 && s != {}
    requires ForwardWalk(st, k, s, pages)
    ensures WalkState(st, s, pages)
  {
    hide Desc, Less, PageOf, ScoreCursor, StoreWalk, ForwardWalk, TiedBeyondSome, Shown, NextAfter,
      OptionalScoreCursor, Descending;
    FixedIsStoreWalk(st, k, s, pages);
    var dbs := Same(s, |pages|);
    StoreWalkInvariant(st, k, dbs, pages);
    assert forall r :: r in s ==> Present(dbs, r);
    assert forall r :: FoundIn(dbs, r) ==> r in s;
  }

  lemma EmptySetPage(st: ScoreText, args: Arguments)
    ensures PageOf(st, Fixed({}), args) == Ok(Page([], PageInfo(false, false, None, None, 0)))
  {
  }

  lemma {:induction false} EmptySetWalk(st: ScoreText, k: nat, pages: seq<Page>)
    requires ForwardWalk(st, k, {}, pages)
    ensures Shown(pages) == []
    ensures pages != [] ==> !Last(pages).value.info.hasNext && Last(pages).value.items == []
    ensures forall i :: 0 <= i < |pages| ==> pages[i].items == []
  {
    hide PageOf;
    if pages != [] {
      EmptySetWalk(st, k, Init(pages));
      EmptySetPage(st, Forward(k, NextAfter(Init(pages))));
      assert |Last(pages).value.Rows()| == 0;
    }
  }

  /** Members of a Redis set are unique. */
  ghost predicate UniqueMembers(s: set<Row>) {
    forall a, b :: a in s && b in s && a.id == b.id ==> a == b
  }

  /** Over a whole walk: scores never go up again and no member appears twice; and when HasNextPage
      turns false, a member was left out exactly if it ties with the last score of some page and
      sorts beyond that page. */
  lemma RedisForwardWalk(st: ScoreText, k: nat, s: set<Row>, pages: seq<Page>)
    requires st.Lawful() && k >= 1 && UniqueMembers(s)
    requires ForwardWalk(st, k, s, pages)
    ensures Descending(Shown(pages))
    ensures forall i, j :: 0 <= i < j < |Shown(pages)| ==> Shown(pages)[i].id != Shown(pages)[j].id
    ensures pages != [] && !Last(pages).value.info.hasNext ==>
              forall r :: r in s ==> (r !in Shown(pages) <==> TiedBeyondSome(pages, r))
  {
    hide Desc, Less, PageOf;
    if s == {} {
      EmptySetWalk(st, k, pages);
    } else {
      WalkInvariant(st, k, s, pages);
    }
    var out := Shown(pages);
    forall i, j | 0 <= i < j < |out|
      ensures out[i].id != out[j].id
    {
      assert out[i] in s && out[j] in s;
      EarlierIsGreater(out, i, j);
    }
  }

  /** HasNextPage is true exactly when the page after it is not empty. */
  lemma RedisHasNextMeansNextPage(st: ScoreText, k: nat, s: set<Row>, pages: seq<Page>)
    requires st.Lawful() && k >= 1 && pages != []
    requires ForwardWalk(st, k, s, pages)
    ensures var r := PageOf(st, Fixed(s), Forward(k, NextAfter(pages)));
            r.Ok? && (Last(pages).value.info.hasNext <==> r.value.items != [])
  {
    hide Desc, Less, PageOf, ScoreCursor;
    if s == {} {
      EmptySetWalk(st, k, pages);
      EmptySetPage(st, Forward(k, NextAfter(pages)));
      return;
    }
    WalkInvariant(st, k, s, pages);
    var c := LastScore(Shown(pages));
    ForwardPage(st, s, c, k);
    TakeByScore(s, c, k);
    var q := Take(Desc(ScoresBelow(s, c)), k);
    var p := BuildPage(st, Fixed(s), Forward(k, NextAfter(pages)), q);
    assert |p.Rows()| == |p.items|;
    assert Desc({}) == [] by {
      assert |Desc({})| == 0;
    }
  }

  // ---- exactly which sets are shown in full ------------------------------

  /** The members on both sides of position `a` of the listing have the same score. */
  ghost predicate TieAt(s: set<Row>, a: int) {
    0 < a < |Desc(s)| && Desc(s)[a - 1].rank == Desc(s)[a].rank
  }

  /** Where page `m` of size `k` ends in the listing. */
  function PageEnd(m: nat, k: nat): nat {
    m * k
  }

  /** No page of size `k`, cut from the listing, ends between two members of the same score. */
  ghost predicate NoTieAtPageEnds(s: set<Row>, k: nat) {
    forall m: nat :: 1 <= m ==> !TieAt(s, PageEnd(m, k))
  }

  /** Scores never rise along the listing. */
  lemma ScoresFall(s: set<Row>, i: nat, j: nat)
    requires i <= j < |Desc(s)|
    ensures Desc(s)[j].rank <= Desc(s)[i].rank
  {
    hide Desc, Less;
    DescLists(s);
    if i < j {
      NotHigherScore(Desc(s)[j], Desc(s)[i]);
    }
  }

  /** Where scores differ, the score cursor selects exactly the rest of the listing. */
  lemma ScoreCut(s: set<Row>, a: nat)
    requires 0 < a <= |Desc(s)| && !TieAt(s, a)
    ensures Desc(ScoresBelow(s, Some(Desc(s)[a - 1].rank))) == Desc(s)[a..]
  {
    hide Desc, Less;
    DescLists(s);
    var q := Desc(s);
    var b := ScoresBelow(s, Some(q[a - 1].rank));
    forall r
      ensures r in q[a..] <==> r in b
    {
      if r in s {
        var j :| 0 <= j < |q| && q[j] == r;
        if j < a {
          ScoresFall(s, j, a - 1);
          NotInTail(q, j, a);
        } else {
          ScoresFall(s, a - 1, a);
          ScoresFall(s, a, j);
          assert q[a..][j - a] == r;
        }
      }
    }
    ListingUnique(q[a..], b);
  }

  lemma NotInTail(q: seq<Row>, j: nat, a: nat)
    requires Descending(q) && j < a <= |q|
    ensures q[j] !in q[a..]
  {
    hide Less;
    forall l | a <= l < |q|
      ensures q[l] != q[j]
    {
      EarlierIsGreater(q, j, l);
    }
  }

  lemma {:induction false} ForwardPrefix(st: ScoreText, k: nat, s: set<Row>, pages: seq<Page>, m: nat)
    requires ForwardWalk(st, k, s, pages) && m <= |pages|
    ensures ForwardWalk(st, k, s, pages[..m])
    decreases |pages|
  {
    hide PageOf;
    if m == |pages| {
      assert pages[..m] == pages;
    } else {
      ForwardPrefix(st, k, s, Init(pages), m);
      assert Init(pages)[..m] == pages[..m];
    }
  }

  /** The last page shows rows `a` to `b`, and the walk so far the first `b`. */
  ghost predicate ShownUpTo(s: set<Row>, pages: seq<Page>, a: int, b: int) {
    && 0 <= a <= b <= |Desc(s)|
    && Shown(pages) == Desc(s)[..b]
    && (pages != [] ==> Last(pages).value.Rows() == Desc(s)[a..b])
  }

  lemma UntiedStep(st: ScoreText, k: nat, s: set<Row>, pages: seq<Page>, z: int, a: nat)
    requires st.Lawful() && k >= 1 && s != {} && pages != []
    requires ForwardWalk(st, k, s, pages) && ShownUpTo(s, Init(pages), z, a)
    requires !TieAt(s, a)
    ensures ShownUpTo(s, pages, a, Min(a + k, |s|))
  {
    hide Desc, Less, PageOf, ScoreCursor, ScoresBelow;
    var q, b := Desc(s), Min(a + k, |s|);
    WalkInvariant(st, k, s, Init(pages));
    PageStep(st, k, s, pages);
    if a > 0 {
      ScoreCut(s, a);
      assert LastScore(q[..a]) == Some(q[a - 1].rank);
    } else {
      EverythingBelow(s);
      assert q[a..] == q;
    }
    hide ForwardWalk, NextAfter, Shown, WalkState;
    WindowOfTail(q, a, k);
    JoinSlices(q, a, b);
  }

  lemma EverythingBelow(s: set<Row>)
    ensures ScoresBelow(s, None) == s
  {
  }

  function ServedBefore(m: nat, k: nat, n: nat): nat {
    if m == 0 then 0 else Served(m - 1, k, n)
  }

  /** As long as no earlier page ended in a tie, the walk shows the listing from the start. */
  lemma {:induction false} UntiedProgress(st: ScoreText, k: nat, s: set<Row>, pages: seq<Page>)
    requires st.Lawful() && k >= 1 && s != {}
    requires ForwardWalk(st, k, s, pages)
    requires forall m: nat :: 1 <= m < |pages| ==> !TieAt(s, PageEnd(m, k))
    ensures ShownUpTo(s, pages, ServedBefore(|pages|, k, |s|), Served(|pages|, k, |s|))
  {
    hide Desc, Less, PageOf;
    if pages != [] {
      hide ShownUpTo;
      var m := |pages| - 1;
      UntiedProgress(st, k, s, Init(pages));
      ServedIs(m, k, |s|);
      if m > 0 {
        assert !TieAt(s, PageEnd(m, k));
      }
      UntiedStep(st, k, s, pages, ServedBefore(m, k, |s|), Served(m, k, |s|));
    }
  }

  lemma {:induction false} LeastTie(s: set<Row>, k: nat, m: nat) returns (least: nat)
    requires 1 <= m && TieAt(s, PageEnd(m, k))
    ensures 1 <= least <= m && TieAt(s, PageEnd(least, k))
    ensures forall j: nat :: 1 <= j < least ==> !TieAt(s, PageEnd(j, k))
  {
    hide TieAt, PageEnd;
    if j: nat :| 1 <= j < m && TieAt(s, PageEnd(j, k)) {
      least := LeastTie(s, k, j);
    } else {
      least := m;
    }
  }

  lemma MoreBelow(s: set<Row>, b: nat)
    requires 0 < b < |Desc(s)| && !TieAt(s, b)
    ensures ScoresBelow(s, LastScore(Desc(s)[..b])) != {}
  {
    hide Desc, Less;
    ScoreCut(s, b);
    var c := ScoresBelow(s, Some(Desc(s)[b - 1].rank));
    assert |c| == |Desc(c)| > 0;
  }

  /** Without such ties a complete walk has shown everything. */
  lemma UntiedWalkIsListing(st: ScoreText, k: nat, s: set<Row>, pages: seq<Page>)
    requires st.Lawful() && k >= 1 && s != {}
    requires Complete(st, k, s, pages) && NoTieAtPageEnds(s, k)
    ensures Shown(pages) == Desc(s)
  {
    hide Desc, Less, PageOf, ForwardWalk, Shown;
    var n, b := |s|, Served(|pages|, k, |s|);
    UntiedProgress(st, k, s, pages);
    WalkInvariant(st, k, s, pages);
    ServedIs(|pages|, k, n);
    var q := Desc(s);
    assert q[..n] == q;
    if b < n {
      assert !TieAt(s, PageEnd(|pages|, k));
      ProductMonotone(1, |pages|, k);
      MoreBelow(s, b);
    }
  }

  /** The member after the first tied page end ties with that page's last score and lies beyond it. */
  lemma TieAfterPage(st: ScoreText, k: nat, s: set<Row>, pages: seq<Page>, m: nat)
    requires st.Lawful() && k >= 1 && s != {}
    requires ForwardWalk(st, k, s, pages) && 1 <= m <= |pages| && TieAt(s, PageEnd(m, k))
    requires forall j: nat :: 1 <= j < m ==> !TieAt(s, PageEnd(j, k))
    ensures TiedBeyond(pages[m - 1], Desc(s)[PageEnd(m, k)])
  {
    hide Desc, Less, PageOf, ForwardWalk, Shown;
    var q, a := Desc(s), PageEnd(m, k);
    DescLists(s);
    ForwardPrefix(st, k, s, pages, m);
    UntiedProgress(st, k, s, pages[..m]);
    ServedIs(m, k, |s|);
    ServedIs(m - 1, k, |s|);
    assert PageEnd(m, k) == (m - 1) * k + k;
    var p := pages[m - 1];
    assert Last(pages[..m]) == Some(p);
    assert |p.items| == |p.Rows()|;
    assert Last(p.Rows()) == Some(q[a - 1]);
  }

  /** So it is never shown. */
  lemma TieHidesMember(st: ScoreText, k: nat, s: set<Row>, pages: seq<Page>, m: nat)
    requires st.Lawful() && k >= 1 && s != {} && UniqueMembers(s)
    requires Complete(st, k, s, pages)
    requires 1 <= m && TieAt(s, PageEnd(m, k))
    requires forall j: nat :: 1 <= j < m ==> !TieAt(s, PageEnd(j, k))
    ensures Desc(s)[PageEnd(m, k)] !in Shown(pages)
  {
    hide Desc, Less, PageOf, ForwardWalk, Shown, TiedBeyond;
    var q, a := Desc(s), PageEnd(m, k);
    DescLists(s);
    if |pages| < m {
      UntiedProgress(st, k, s, pages);
      ServedIs(|pages|, k, |s|);
      ProductMonotone(|pages|, m, k);
      BeyondPrefix(q, Served(|pages|, k, |s|), a);
    } else {
      RedisForwardWalk(st, k, s, pages);
      TieAfterPage(st, k, s, pages, m);
      assert q[a] in s;
    }
  }

  lemma BeyondPrefix(q: seq<Row>, b: nat, a: nat)
    requires Descending(q) && b <= a < |q|
    ensures q[a] !in q[..b]
  {
    hide Less;
    forall l | 0 <= l < b
      ensures q[l] != q[a]
    {
      EarlierIsGreater(q, l, a);
    }
  }

  /** A complete walk shows the whole listing if and only if no page of size `k`, counted off from the
      top, ends between two members of the same score. */
  lemma RedisWalkCompleteExactly(st: ScoreText, k: nat, s: set<Row>, pages: seq<Page>)
    requires st.Lawful() && k >= 1 && UniqueMembers(s)
    requires Complete(st, k, s, pages)
    ensures Shown(pages) == Desc(s) <==> NoTieAtPageEnds(s, k)
  {
    hide Desc, Less, PageOf, ForwardWalk, Shown, PageEnd;
    if s == {} {
      EmptySetWalk(st, k, pages);
      assert |Desc(s)| == 0;
    } else if NoTieAtPageEnds(s, k) {
      UntiedWalkIsListing(st, k, s, pages);
    } else {
      var m: nat :| 1 <= m && TieAt(s, PageEnd(m, k));
      var least := LeastTie(s, k, m);
      TieHidesMember(st, k, s, pages, least);
    }
  }

  /** In particular with distinct scores, for every page size. */
  lemma RedisDistinctScores(st: ScoreText, k: nat, s: set<Row>, pages: seq<Page>)
    requires st.Lawful() && k >= 1 && UniqueMembers(s)
    requires forall a, b :: a in s && b in s && a.rank == b.rank ==> a == b
    requires Complete(st, k, s, pages)
    ensures Shown(pages) == Desc(s)
  {
    hide Desc, Less, PageOf, ForwardWalk, Shown, PageEnd;
    DescLists(s);
    forall m: nat | 1 <= m
      ensures !TieAt(s, PageEnd(m, k))
    {
      if TieAt(s, PageEnd(m, k)) {
        EarlierIsGreater(Desc(s), PageEnd(m, k) - 1, PageEnd(m, k));
      }
    }
    RedisWalkCompleteExactly(st, k, s, pages);
  }

  /** A set on which the walk leaves a member out: two members with one score, one to a page. */
  lemma TiedMemberIsSkipped(st: ScoreText, score: int) returns (pages: seq<Page>)
    requires st.Lawful()
    ensures var a, b: Row := Row(score, [1]), Row(score, [2]);
            && Complete(st, 1, {a, b}, pages)
            && a !in Shown(pages) && Shown(pages) != Desc({a, b})
  {
    var a, b: Row := Row(score, [1]), Row(score, [2]);
    assert StrLess(a.id, b.id);
    var s := {a, b};
    assert Lists([b, a], s);
    ListingUnique([b, a], s);
    pages := CompleteWalkExists(st, 1, s);
    hide Desc, PageOf, ForwardWalk, Shown;
    assert PageEnd(1, 1) == 1;
    TieHidesMember(st, 1, s, pages, 1);
  }

  /** Every set has a complete walk. */
  lemma CompleteWalkExists(st: ScoreText, k: nat, s: set<Row>) returns (pages: seq<Page>)
    requires st.Lawful() && k >= 1
    ensures Complete(st, k, s, pages)
  {
    if s == {} {
      EmptySetPage(st, Forward(k, None));
      var only := PageOf(st, Fixed({}), Forward(k, None)).value;
      pages := [only];
      assert Init(pages) == [] && Last(pages) == Some(only);
      assert ForwardWalk(st, k, s, []);
    } else {
      assert ForwardWalk(st, k, s, []);
      pages := ExtendToComplete(st, k, s, []);
    }
  }

  lemma {:induction false} ExtendToComplete(st: ScoreText, k: nat, s: set<Row>, init: seq<Page>)
    returns (pages: seq<Page>)
    requires st.Lawful() && k >= 1 && s != {}
    requires ForwardWalk(st, k, s, init)
    requires forall i :: 0 <= i < |init| ==> init[i].info.hasNext
    ensures Complete(st, k, s, pages) && init < pages
    decreases |ScoresBelow(s, LastScore(Shown(init)))|
  {
    hide Desc, Less, PageOf, ScoreCursor, ScoresBelow, Shown, LastScore;
    var last := OnePageMore(st, k, s, init);
    pages := init + [last];
    if last.info.hasNext {
      pages := ExtendToComplete(st, k, s, pages);
    }
  }

  /** The next page of an unfinished walk, and that it brings the end closer. */
  lemma OnePageMore(st: ScoreText, k: nat, s: set<Row>, init: seq<Page>) returns (last: Page)
    requires st.Lawful() && k >= 1 && s != {}
    requires ForwardWalk(st, k, s, init)
    requires forall i :: 0 <= i < |init| ==> init[i].info.hasNext
    ensures var pages := init + [last];
            && ForwardWalk(st, k, s, pages) && Last(pages) == Some(last)
            && |ScoresBelow(s, LastScore(Shown(pages)))| < |ScoresBelow(s, LastScore(Shown(init)))|
  {
    hide Desc, Less, PageOf, ScoreCursor;
    WalkInvariant(st, k, s, init);
    var c := LastScore(Shown(init));
    ForwardPage(st, s, c, k);
    TakeByScore(s, c, k);
    RedisNonEmptyAhead(st, k, s, init);
    last := PageOf(st, Fixed(s), Forward(k, NextAfter(init))).value;
    var pages := init + [last];
    assert Init(pages) == init && Last(pages) == Some(last);
    PageStep(st, k, s, pages);
    hide Shown, ForwardWalk, NextAfter;
    var q := Take(Desc(ScoresBelow(s, c)), k);
    assert Last(q).value in q;
    StrictlyFewer(ScoresBelow(s, LastScore(q)), ScoresBelow(s, c), Last(q).value);
  }

  lemma RedisNonEmptyAhead(st: ScoreText, k: nat, s: set<Row>, init: seq<Page>)
    requires st.Lawful() && k >= 1 && s != {}
    requires ForwardWalk(st, k, s, init)
    requires forall i :: 0 <= i < |init| ==> init[i].info.hasNext
    ensures Take(Desc(ScoresBelow(s, LastScore(Shown(init)))), k) != []
  {
    hide Desc, Less, PageOf, ScoreCursor;
    WalkInvariant(st, k, s, init);
    TakeByScore(s, LastScore(Shown(init)), k);
    if init != [] {
      assert Last(init).value == init[|init| - 1];
    }
  }

  lemma StrictlyFewer<T>(a: set<T>, b: set<T>, x: T)
    requires a <= b && x in b && x !in a
    ensures |a| < |b|
  {
    assert |b - a| + |a| == |b| by {
      assert b == (b - a) + a;
    }
    assert x in b - a;
  }

  /** No score lies outside the first and the last of the listing. */
  lemma ExtremeScores(s: set<Row>)
    requires s != {}
    ensures Desc(s) != []
    ensures ScoresBelow(s, Some(Desc(s)[|s| - 1].rank)) == {}
    ensures ScoresOver(s, Some(Desc(s)[0].rank)) == {}
  {
    hide Desc, Less;
    DescLists(s);
    var q := Desc(s);
    assert |q| == |s| != 0;
    forall r | r in s
      ensures q[|q| - 1].rank <= r.rank <= q[0].rank
    {
      var j :| 0 <= j < |q| && q[j] == r;
      if j > 0 {
        NotHigherScore(q[j], q[0]);
      }
      if j < |q| - 1 {
        NotHigherScore(q[|q| - 1], q[j]);
      }
    }
  }

  /** A request without limits shows every member with nothing on either side, ties included. */
  lemma UnlimitedPage(st: ScoreText, s: set<Row>)
    ensures var r := PageOf(st, Fixed(s), Arguments(None, None, None, None));
            && r.Ok? && r.value.Rows() == Desc(s) && r.value.info.totalCount == |s|
            && !r.value.info.hasNext && !r.value.info.hasPrevious
  {
    hide Desc, Less, ScoreCursor, ScoresBelow, ScoresOver;
    if s == {} {
      EmptySetPage(st, Arguments(None, None, None, None));
    } else {
      ExtremeScores(s);
      assert Take(Desc(s), |s|) == Desc(s);
    }
  }

  // ---- empty pages -------------------------------------------------------

  /** For a set that is not empty: a page is empty only with a cursor, and the flags returned then
      without counting are what counting the members on either side of the cursor gives.  Leaving
      out the members at the cursor itself would change the answer only if all of them are there. */
  lemma EmptyForwardShortcut(st: ScoreText, s: set<Row>, c: Option<int>, k: nat)
    requires st.Lawful() && k >= 1 && s != {}
    requires Take(Desc(ScoresBelow(s, c)), k) == []
    ensures c.Some?
    ensures var r := PageOf(st, Fixed(s), Forward(k, OptionalScoreCursor(st, c)));
            && r.Ok? && r.value.items == []
            && (r.value.info.hasNext <==> ScoresBelow(s, c) != {})
            && (r.value.info.hasPrevious <==> exists x :: x in s && x.rank >= c.value)
            && ((r.value.info.hasPrevious <==> ScoresOver(s, c) != {}) <==> exists x :: x in s && x.rank != c.value)
  {
    hide Desc, PageOf, ScoreCursor;
    ForwardPage(st, s, c, k);
    TakeByScore(s, c, k);
    var x :| x in s;
    assert x !in ScoresBelow(s, c);
    assert forall y :: y in s ==> y !in ScoresBelow(s, c);
    assert forall y :: y in ScoresOver(s, c) <==> y in s && y.rank > c.value;
    assert |BuildPage(st, Fixed(s), Forward(k, OptionalScoreCursor(st, c)), []).Rows()| == 0;
  }

  lemma BackwardPage(st: ScoreText, s: set<Row>, c: Option<int>, k: nat)
    requires st.Lawful() && s != {} && k >= 1
    ensures PageOf(st, Fixed(s), Backward(k, OptionalScoreCursor(st, c)))
         == Ok(BuildPage(st, Fixed(s), Backward(k, OptionalScoreCursor(st, c)), TakeLast(Desc(ScoresOver(s, c)), k)))
  {
    hide Desc, ScoreCursor, ParseScore, BuildPage, ScoresOver;
    assert |s| != 0;
    if c.Some? {
      ScoreRoundTrip(st, c.value);
    }
  }

  lemma EmptyBackwardShortcut(st: ScoreText, s: set<Row>, c: Option<int>, k: nat)
    requires st.Lawful() && k >= 1 && s != {}
    requires TakeLast(Desc(ScoresOver(s, c)), k) == []
    ensures c.Some?
    ensures var r := PageOf(st, Fixed(s), Backward(k, OptionalScoreCursor(st, c)));
            && r.Ok? && r.value.items == []
            && (r.value.info.hasPrevious <==> ScoresOver(s, c) != {})
            && (r.value.info.hasNext <==> exists x :: x in s && x.rank <= c.value)
            && ((r.value.info.hasNext <==> ScoresBelow(s, c) != {}) <==> exists x :: x in s && x.rank != c.value)
  {
    hide Desc, PageOf, ScoreCursor;
    BackwardPage(st, s, c, k);
    assert |ScoresOver(s, c)| == 0;
    assert ScoresOver(s, c) == {};
    var x :| x in s;
    assert x !in ScoresOver(s, c);
    assert forall y :: y in s ==> y !in ScoresOver(s, c);
    assert forall y :: y in ScoresBelow(s, c) <==> y in s && y.rank < c.value;
    assert |BuildPage(st, Fixed(s), Backward(k, OptionalScoreCursor(st, c)), []).Rows()| == 0;
  }
}

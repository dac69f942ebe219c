/** A client that pages backward through a sorted set nobody changes, and exactly which sets it sees in
    full. */
module RedisBackwardWalk {
  import opened Text
  import opened Keyset
  import opened Cursor
  import opened Paging
  import opened RedisPagination
  import opened RedisChangingWalk
  import opened RedisWalk

  ghost predicate BackwardWalk(st: ScoreText, k: nat, s: set<Row>, pages: seq<Page>) {
    BackwardStoreWalk(st, k, Same(s, |pages|), pages)
  }

  /** The walk went on exactly while HasPreviousPage was true. */
  ghost predicate CompleteBackward(st: ScoreText, k: nat, s: set<Row>, pages: seq<Page>) {
    && BackwardWalk(st, k, s, pages) && pages != []
    && !Last(pages).value.info.hasPrevious
    && forall i :: 0 <= i < |pages| - 1 ==> pages[i].info.hasPrevious
  }

  lemma SameShorter(s: set<Row>, n: nat, m: nat)
    requires m <= n
    ensures Same(s, n)[..m] == Same(s, m)
    ensures n > 0 ==> Init(Same(s, n)) == Same(s, n - 1) && Last(Same(s, n)) == Some(Fixed(s))
  {
  }

  lemma BackwardInit(st: ScoreText, k: nat, s: set<Row>, pages: seq<Page>)
    requires pages != [] && BackwardWalk(st, k, s, pages)
    ensures BackwardWalk(st, k, s, Init(pages))
  {
    hide PageOf;
    SameShorter(s, |pages|, 0);
  }

  lemma {:induction false} BackwardPrefix(st: ScoreText, k: nat, s: set<Row>, pages: seq<Page>, m: nat)
    requires BackwardWalk(st, k, s, pages) && m <= |pages|
    ensures BackwardWalk(st, k, s, pages[..m])
    decreases |pages|
  {
    hide BackwardWalk;
    if m == |pages| {
      assert pages[..m] == pages;
    } else {
      BackwardInit(st, k, s, pages);
      BackwardPrefix(st, k, s, Init(pages), m);
      assert Init(pages)[..m] == pages[..m];
    }
  }

  /** What is known after any number of pages. */
  lemma BackwardKnown(st: ScoreText, k: nat, s: set<Row>, pages: seq<Page>)
    requires st.Lawful() && k >= 1 && BackwardWalk(st, k, s, pages)
    ensures NextBefore(pages) == OptionalScoreCursor(st, FirstScore(Collected(pages)))
    ensures Descending(Collected(pages))
    ensures forall r :: TiedAboveSome(pages, r) ==> r !in Collected(pages)
  {
    hide Desc, Less, PageOf, BackwardStoreWalk, TiedAboveSome, PresentBackward, FoundIn, OptionalScoreCursor;
    BackwardStoreInvariant(st, k, Same(s, |pages|), pages);
  }

  lemma MembersOfFixed(s: set<Row>, c: Option<int>, k: nat)
    ensures MembersBefore(Fixed(s), c, k) == TakeLast(Desc(ScoresOver(s, c)), k)
  {
    hide Desc;
    if s == {} {
      assert ScoresOver(s, c) == {} && |Desc({})| == 0;
    }
  }

  /** The page one more call puts in front. */
  lemma BackwardStep(st: ScoreText, k: nat, s: set<Row>, pages: seq<Page>)
    requires st.Lawful() && k >= 1 && pages != [] && BackwardWalk(st, k, s, pages)
    ensures var seen, out, last := Collected(Init(pages)), Collected(pages), Last(pages).value;
            var q := TakeLast(Desc(ScoresOver(s, FirstScore(seen))), k);
            && last.Rows() == q
            && out == q + seen
            && FirstScore(out) == (if q == [] then FirstScore(seen) else FirstScore(q))
            && (last.info.hasPrevious <==> q != [] && ScoresOver(s, FirstScore(out)) != {})
  {
    hide Desc, PageOf, Collected, NextBefore, ScoresOver, TakeLast, OptionalScoreCursor, BackwardStoreWalk,
      MembersBefore, FirstScore, Page.Rows;
    SameShorter(s, |pages|, 0);
    BackwardInit(st, k, s, pages);
    BackwardKnown(st, k, s, Init(pages));
    BackwardStorePageStep(st, k, Same(s, |pages|), pages);
    MembersOfFixed(s, FirstScore(Collected(Init(pages))), k);
  }

  // ---- exactly which sets are shown in full ------------------------------

  /** Where page `m` of size `k`, counted off from the end, begins in the listing. */
  function PageStart(s: set<Row>, m: nat, k: nat): int {
    |s| - PageEnd(m, k)
  }

  ghost predicate NoTieAtPageStarts(s: set<Row>, k: nat) {
    forall m: nat :: 1 <= m ==> !TieAt(s, PageStart(s, m, k))
  }

  /** Where scores differ, the score cursor selects exactly the start of the listing. */
  lemma ScoreCutOver(s: set<Row>, a: nat)
    requires a < |Desc(s)| && !TieAt(s, a)
    ensures Desc(ScoresOver(s, Some(Desc(s)[a].rank))) == Desc(s)[..a]
  {
    hide Desc, Less;
    DescLists(s);
    var q := Desc(s);
    var b := ScoresOver(s, Some(q[a].rank));
    forall r
      ensures r in q[..a] <==> r in b
    {
      if r in s {
        var j :| 0 <= j < |q| && q[j] == r;
        if j < a {
          ScoresFall(s, a - 1, a);
          ScoresFall(s, j, a - 1);
          assert q[..a][j] == r;
        } else {
          ScoresFall(s, a, j);
          BeyondPrefix(q, a, j);
        }
      }
    }
    ListingUnique(q[..a], b);
  }

  /** The last page shows rows `a` to `b`, and the walk so far those from `a` on. */
  ghost predicate CollectedFrom(s: set<Row>, pages: seq<Page>, a: int, b: int) {
    && 0 <= a <= b <= |Desc(s)|
    && Collected(pages) == Desc(s)[a..]
    && (pages != [] ==> Last(pages).value.Rows() == Desc(s)[a..b])
  }

  lemma RestOfListing(s: set<Row>, a: nat)
    requires a <= |Desc(s)| && !TieAt(s, a)
    ensures Desc(ScoresOver(s, FirstScore(Desc(s)[a..]))) == Desc(s)[..a]
  {
    hide Desc, Less;
    var q := Desc(s);
    if a < |q| {
      ScoreCutOver(s, a);
      assert FirstScore(q[a..]) == Some(q[a].rank);
    } else {
      assert ScoresOver(s, None) == s && q[..a] == q;
    }
  }

  lemma UntiedBackwardStep(st: ScoreText, k: nat, s: set<Row>, pages: seq<Page>, a: nat, z: int)
    requires st.Lawful() && k >= 1 && pages != [] && BackwardWalk(st, k, s, pages)
    requires CollectedFrom(s, Init(pages), a, z) && !TieAt(s, a)
    ensures CollectedFrom(s, pages, a - Min(a, k), a)
  {
    hide Desc, TieAt, BackwardWalk, Collected, ScoresOver, FirstScore, Page.Rows, TakeLast;
    var q, b := Desc(s), a - Min(a, k);
    BackwardStep(st, k, s, pages);
    RestOfListing(s, a);
    WindowOfTail(q, a, k);
    JoinSlices(q, b, a);
    calc {
      Collected(pages);
      TakeLast(q[..a], k) + q[a..];
      q[b..a] + q[a..];
      q[b..];
    }
  }

  lemma NothingCollected(s: set<Row>)
    ensures CollectedFrom(s, [], |s|, |s|)
  {
    hide Desc;
    assert Desc(s)[|s|..] == [];
  }

  /** As long as no earlier page began in a tie, the walk collects the listing from its end. */
  lemma {:induction false} UntiedBackwardProgress(st: ScoreText, k: nat, s: set<Row>, pages: seq<Page>)
    requires st.Lawful() && k >= 1 && BackwardWalk(st, k, s, pages)
    requires forall m: nat :: 1 <= m < |pages| ==> !TieAt(s, PageStart(s, m, k))
    ensures CollectedFrom(s, pages, |s| - Served(|pages|, k, |s|), |s| - ServedBefore(|pages|, k, |s|))
  {
    hide Desc, BackwardWalk, CollectedFrom;
    if pages == [] {
      NothingCollected(s);
    } else {
      var m := |pages| - 1;
      BackwardInit(st, k, s, pages);
      UntiedBackwardProgress(st, k, s, Init(pages));
      ServedIs(m, k, |s|);
      if m > 0 {
        assert !TieAt(s, PageStart(s, m, k));
      }
      UntiedBackwardStep(st, k, s, pages, |s| - Served(m, k, |s|), |s| - ServedBefore(m, k, |s|));
    }
  }

  lemma MoreInFront(s: set<Row>, a: nat)
    requires 0 < a <= |Desc(s)| && !TieAt(s, a)
    ensures ScoresOver(s, FirstScore(Desc(s)[a..])) != {}
  {
    hide Desc, TieAt;
    RestOfListing(s, a);
    var c := ScoresOver(s, FirstScore(Desc(s)[a..]));
    assert |c| == |Desc(c)| == a;
  }

  /** A page that does not complete the listing is full. */
  lemma FullPage(n: nat, k: nat, len: nat)
    requires n >= 1 && Served(n, k, len) < len
    ensures Served(n, k, len) == PageEnd(n, k) && ServedBefore(n, k, len) + k == Served(n, k, len)
  {
    ServedIs(n, k, len);
  }

  lemma UntiedBackwardIsListing(st: ScoreText, k: nat, s: set<Row>, pages: seq<Page>)
    requires st.Lawful() && k >= 1
    requires CompleteBackward(st, k, s, pages) && NoTieAtPageStarts(s, k)
    ensures Collected(pages) == Desc(s)
  {
    hide Desc, BackwardWalk, Collected, ScoresOver, Page.Rows, FirstScore, TieAt, TakeLast, Served, ServedBefore,
      PageEnd;
    var q, n := Desc(s), |pages|;
    var a := |s| - Served(n, k, |s|);
    UntiedBackwardProgress(st, k, s, pages);
    if a > 0 {
      FullPage(n, k, |s|);
      assert !TieAt(s, PageStart(s, n, k));
      MoreInFront(s, a);
      BackwardStep(st, k, s, pages);
    } else {
      assert q[0..] == q;
    }
  }

  /** The member before the first tied page start ties with that page's first score and lies above it. */
  lemma TieBeforePage(st: ScoreText, k: nat, s: set<Row>, pages: seq<Page>, m: nat)
    requires st.Lawful() && k >= 1
    requires BackwardWalk(st, k, s, pages) && 1 <= m <= |pages| && TieAt(s, PageStart(s, m, k))
    requires forall j: nat :: 1 <= j < m ==> !TieAt(s, PageStart(s, j, k))
    ensures TiedAbove(pages[m - 1], Desc(s)[PageStart(s, m, k) - 1])
  {
    hide Desc, Less, BackwardWalk, Collected;
    var q, a := Desc(s), PageStart(s, m, k);
    DescLists(s);
    BackwardPrefix(st, k, s, pages, m);
    UntiedBackwardProgress(st, k, s, pages[..m]);
    ServedIs(m, k, |s|);
    ServedIs(m - 1, k, |s|);
    assert PageEnd(m, k) == (m - 1) * k + k;
    var p := pages[m - 1];
    assert Last(pages[..m]) == Some(p);
    assert |p.items| == |p.Rows()|;
    assert First(p.Rows()) == Some(q[a]);
  }

  /** So it is never returned. */
  lemma TieHidesMemberBackward(st: ScoreText, k: nat, s: set<Row>, pages: seq<Page>, m: nat)
    requires st.Lawful() && k >= 1 && BackwardWalk(st, k, s, pages)
    requires 1 <= m && TieAt(s, PageStart(s, m, k))
    requires forall j: nat :: 1 <= j < m ==> !TieAt(s, PageStart(s, j, k))
    ensures Desc(s)[PageStart(s, m, k) - 1] !in Collected(pages)
  {
    hide Desc, Less, BackwardWalk, Collected, TiedAbove;
    var q, a := Desc(s), PageStart(s, m, k);
    DescLists(s);
    if |pages| < m {
      UntiedBackwardProgress(st, k, s, pages);
      ServedIs(|pages|, k, |s|);
      ProductMonotone(|pages|, m, k);
      NotInTail(q, a - 1, |s| - Served(|pages|, k, |s|));
    } else {
      BackwardKnown(st, k, s, pages);
      TieBeforePage(st, k, s, pages, m);
      assert TiedAboveSome(pages, q[a - 1]);
    }
  }

  lemma {:induction false} LeastTieFromEnd(s: set<Row>, k: nat, m: nat) returns (least: nat)
    requires 1 <= m && TieAt(s, PageStart(s, m, k))
    ensures 1 <= least <= m && TieAt(s, PageStart(s, least, k))
    ensures forall j: nat :: 1 <= j < least ==> !TieAt(s, PageStart(s, j, k))
  {
    hide TieAt, PageStart;
    if j: nat :| 1 <= j < m && TieAt(s, PageStart(s, j, k)) {
      least := LeastTieFromEnd(s, k, j);
    } else {
      least := m;
    }
  }

  /** The pages of a complete backward walk, put back in reverse, are the whole listing if and only if no
      page of size `k`, counted off from the end, begins between two members of the same score. */
  lemma RedisBackwardCompleteExactly(st: ScoreText, k: nat, s: set<Row>, pages: seq<Page>)
    requires st.Lawful() && k >= 1
    requires CompleteBackward(st, k, s, pages)
    ensures Collected(pages) == Desc(s) <==> NoTieAtPageStarts(s, k)
  {
    hide Desc, Less, BackwardWalk, Collected, PageStart;
    if NoTieAtPageStarts(s, k) {
      UntiedBackwardIsListing(st, k, s, pages);
    } else {
      var m: nat :| 1 <= m && TieAt(s, PageStart(s, m, k));
      var least := LeastTieFromEnd(s, k, m);
      TieHidesMemberBackward(st, k, s, pages, least);
      assert Desc(s)[PageStart(s, least, k) - 1] in Desc(s);
    }
  }

  // ---- such walks exist --------------------------------------------------

  lemma OneMoreBackward(st: ScoreText, k: nat, s: set<Row>, init: seq<Page>) returns (last: Page)
    requires st.Lawful() && k >= 1 && BackwardWalk(st, k, s, init)
    ensures BackwardWalk(st, k, s, init + [last])
  {
    hide Desc, PageOf, OptionalScoreCursor, Collected, NextBefore, MembersBefore;
    BackwardKnown(st, k, s, init);
    BackwardPageAt(st, Fixed(s), FirstScore(Collected(init)), k);
    last := PageOf(st, Fixed(s), Backward(k, NextBefore(init))).value;
    var pages := init + [last];
    SameShorter(s, |pages|, 0);
    assert Init(pages) == init && Last(pages) == Some(last);
  }

  lemma FewerOver(st: ScoreText, k: nat, s: set<Row>, pages: seq<Page>)
    requires st.Lawful() && k >= 1 && pages != [] && BackwardWalk(st, k, s, pages)
    requires Last(pages).value.info.hasPrevious
    ensures |ScoresOver(s, FirstScore(Collected(pages)))| < |ScoresOver(s, FirstScore(Collected(Init(pages))))|
  {
    hide Desc, Less, BackwardWalk, Collected, Page.Rows, TakeLast;
    BackwardStep(st, k, s, pages);
    var c := FirstScore(Collected(Init(pages)));
    TakeLastByScore(s, c, k);
    var q := TakeLast(Desc(ScoresOver(s, c)), k);
    assert q[0] in q;
    StrictlyFewer(ScoresOver(s, FirstScore(q)), ScoresOver(s, c), q[0]);
  }

  lemma {:induction false} ExtendBackward(st: ScoreText, k: nat, s: set<Row>, init: seq<Page>)
    returns (pages: seq<Page>)
    requires st.Lawful() && k >= 1 && BackwardWalk(st, k, s, init)
    requires forall i :: 0 <= i < |init| ==> init[i].info.hasPrevious
    ensures CompleteBackward(st, k, s, pages)
    decreases |ScoresOver(s, FirstScore(Collected(init)))|
  {
    hide BackwardWalk, ScoresOver, Collected, FirstScore;
    var last := OneMoreBackward(st, k, s, init);
    pages := init + [last];
    assert Init(pages) == init && Last(pages) == Some(last);
    if last.info.hasPrevious {
      FewerOver(st, k, s, pages);
      pages := ExtendBackward(st, k, s, pages);
    }
  }

  /** Every set has a complete backward walk. */
  lemma CompleteBackwardWalkExists(st: ScoreText, k: nat, s: set<Row>) returns (pages: seq<Page>)
    requires st.Lawful() && k >= 1
    ensures CompleteBackward(st, k, s, pages)
  {
    pages := ExtendBackward(st, k, s, []);
  }

  /** A set on which it leaves a member out: two members with one score, one to a page. */
  lemma TiedMemberIsSkippedBackward(st: ScoreText, score: int) returns (pages: seq<Page>)
    requires st.Lawful()
    ensures var a, b: Row := Row(score, [1]), Row(score, [2]);
            && CompleteBackward(st, 1, {a, b}, pages)
            && b !in Collected(pages) && Collected(pages) != Desc({a, b})
  {
    var a, b: Row := Row(score, [1]), Row(score, [2]);
    assert StrLess(a.id, b.id);
    var s := {a, b};
    assert Lists([b, a], s);
    ListingUnique([b, a], s);
    pages := CompleteBackwardWalkExists(st, 1, s);
    hide Desc, BackwardWalk, Collected;
    assert PageStart(s, 1, 1) == 1;
    TieHidesMemberBackward(st, 1, s, pages, 1);
  }
}

/** Rows ordered by a rank and then an identifier, and the one descending listing of a finite set
    of them.  Both paginators read their data through this listing: the SQL table with the
    creation instant as rank, the Redis sorted set with the score as rank. */
module Keyset {
  import opened Text

  datatype Row = Row(rank: int, id: Str)

  /** The row comparison `(created_at, id) < (?, ?)`. */
  predicate Less(a: Row, b: Row) {
    a.rank < b.rank || (a.rank == b.rank && StrLess(a.id, b.id))
  }

  lemma LessTransitive(a: Row, b: Row, c: Row)
    requires Less(a, b) && Less(b, c)
    ensures Less(a, c)
  {
    if a.rank == b.rank == c.rank {
      StrLessTransitive(a.id, b.id, c.id);
    }
  }

  lemma LessConnected(a: Row, b: Row)
    requires a != b
    ensures Less(a, b) || Less(b, a)
  {
    if a.rank == b.rank {
      StrLessConnected(a.id, b.id);
    }
  }

  lemma LessAsymmetric(a: Row, b: Row)
    requires Less(a, b)
    ensures a != b && !Less(b, a)
  {
    StrLessIrreflexive(a.id);
    if a.rank == b.rank && StrLess(b.id, a.id) {
      StrLessTransitive(a.id, b.id, a.id);
    }
  }

  // ---- the descending listing --------------------------------------------

  predicate IsTop(m: Row, s: set<Row>) {
    m in s && forall r :: r in s && r != m ==> Less(r, m)
  }

  lemma {:induction false} TopExists(s: set<Row>)
    requires s != {}
    ensures exists m :: IsTop(m, s)
    decreases |s|
  {
    var x :| x in s;
    if s == {x} {
      assert IsTop(x, s);
    } else {
      TopExists(s - {x});
      var t :| IsTop(t, s - {x});
      LessConnected(t, x);
      var m := if Less(t, x) then x else t;
      forall r | r in s && r != m
        ensures Less(r, m)
      {
        if m == x && r != t {
          LessTransitive(r, t, x);
        }
      }
      assert IsTop(m, s);
    }
  }

  function Top(s: set<Row>): (m: Row)
    requires s != {}
    ensures IsTop(m, s)
  {
    TopExists(s);
    assert forall x, y :: IsTop(x, s) && IsTop(y, s) ==> x == y by {
      forall x, y | IsTop(x, s) && IsTop(y, s)
        ensures x == y
      {
        if x != y {
          LessAsymmetric(x, y);
        }
      }
    }
    var m :| IsTop(m, s);
    m
  }

  /** `ORDER BY created_at DESC, id DESC`, and `ZREVRANGE`. */
  function Desc(s: set<Row>): (q: seq<Row>)
    ensures |q| == |s|
    decreases |s|
  {
    if s == {} then []
    else
      var m := Top(s);
      [m] + Desc(s - {m})
  }

  ghost predicate Descending(q: seq<Row>) {
    forall i, j :: 0 <= i < j < |q| ==> Less(q[j], q[i])
  }

  ghost predicate Lists(q: seq<Row>, s: set<Row>) {
    Descending(q) && (forall r :: r in q <==> r in s)
  }

  /** The greatest row in front of a listing of the others. */
  lemma TopFirst(m: Row, t: seq<Row>, s: set<Row>)
    requires IsTop(m, s) && Lists(t, s - {m})
    ensures Lists([m] + t, s)
  {
    hide Less;
    var q := [m] + t;
    forall i, j | 0 <= i < j < |q|
      ensures Less(q[j], q[i])
    {
      assert t[j - 1] in s - {m};
    }
  }

  lemma {:induction false} DescLists(s: set<Row>)
    ensures Lists(Desc(s), s)
    decreases |s|
  {
    if s != {} {
      var m := Top(s);
      DescLists(s - {m});
      hide Lists;
      TopFirst(m, Desc(s - {m}), s);
    }
  }

  /** A set has exactly one descending listing. */
  lemma {:induction false} ListingUnique(q: seq<Row>, s: set<Row>)
    requires Lists(q, s)
    ensures q == Desc(s)
    decreases |s|
  {
    DescLists(s);
    if q == [] {
      assert s == {};
    } else {
      assert q[0] in s;
      var m := Top(s);
      assert m in q;
      var i :| 0 <= i < |q| && q[i] == m;
      if i > 0 {
        LessAsymmetric(q[i], q[0]);
      }
      TailLists(q, s);
      ListingUnique(q[1..], s - {m});
      assert q == [q[0]] + q[1..];
    }
  }

  lemma TailLists(q: seq<Row>, s: set<Row>)
    requires Lists(q, s) && q != []
    ensures Lists(q[1..], s - {q[0]})
  {
    hide Less;
    var t := q[1..];
    forall i, j | 0 <= i < j < |t|
      ensures Less(t[j], t[i])
    {
      assert t[j] == q[j + 1] && t[i] == q[i + 1];
    }
    forall r
      ensures r in t <==> r in s - {q[0]}
    {
      assert q == [q[0]] + t;
      assert r in q <==> r == q[0] || r in t;
      if r in t {
        var j :| 0 <= j < |t| && t[j] == r;
        LessAsymmetric(q[j + 1], q[0]);
      }
    }
  }

  /** Every row of `hi` sorts above every row of `lo`. */
  ghost predicate Above(hi: set<Row>, lo: set<Row>) {
    forall x, y :: x in hi && y in lo ==> Less(y, x)
  }

  lemma DescSplit(hi: set<Row>, lo: set<Row>)
    requires Above(hi, lo)
    ensures Desc(hi + lo) == Desc(hi) + Desc(lo)
  {
    DescLists(hi);
    DescLists(lo);
    hide Less, Desc;
    var a, b := Desc(hi), Desc(lo);
    forall i, j | 0 <= i < j < |a + b|
      ensures Less((a + b)[j], (a + b)[i])
    {
      if i < |a| <= j {
        assert a[i] in hi && b[j - |a|] in lo;
      }
    }
    ListingUnique(a + b, hi + lo);
  }

  // ---- the strict range a cursor selects ---------------------------------

  /** `WHERE (created_at, id) < (c.rank, c.id)`. */
  function Below(s: set<Row>, c: Row): set<Row> {
    set r | r in s && Less(r, c)
  }

  /** `WHERE (created_at, id) > (c.rank, c.id)`. */
  function Over(s: set<Row>, c: Row): set<Row> {
    set r | r in s && Less(c, r)
  }

  /** In a descending listing, earlier means greater. */
  lemma EarlierIsGreater(q: seq<Row>, i: nat, j: nat)
    requires Descending(q) && i < |q| && j < |q|
    ensures Less(q[j], q[i]) <==> i < j
    ensures q[i] == q[j] <==> i == j
  {
    if j < i {
      LessAsymmetric(q[i], q[j]);
    } else if i < j {
      LessAsymmetric(q[j], q[i]);
    } else if Less(q[i], q[i]) {
      LessAsymmetric(q[i], q[i]);
    }
  }

  lemma BelowRowAt(s: set<Row>, i: nat)
    requires i < |Desc(s)|
    ensures Desc(Below(s, Desc(s)[i])) == Desc(s)[i + 1..]
  {
    DescLists(s);
    var q := Desc(s);
    forall r
      ensures r in q[i + 1..] <==> r in Below(s, q[i])
    {
      if r in s {
        var j :| 0 <= j < |q| && q[j] == r;
        EarlierIsGreater(q, i, j);
        assert i < j ==> q[i + 1..][j - i - 1] == r;
      }
    }
    ListingUnique(q[i + 1..], Below(s, q[i]));
  }

  lemma OverRowAt(s: set<Row>, i: nat)
    requires i < |Desc(s)|
    ensures Desc(Over(s, Desc(s)[i])) == Desc(s)[..i]
  {
    DescLists(s);
    var q := Desc(s);
    forall r
      ensures r in q[..i] <==> r in Over(s, q[i])
    {
      if r in s {
        var j :| 0 <= j < |q| && q[j] == r;
        EarlierIsGreater(q, j, i);
        assert j < i ==> q[..i][j] == r;
      }
    }
    ListingUnique(q[..i], Over(s, q[i]));
  }

  // ---- windows of a listing ----------------------------------------------

  /** `LIMIT k`. */
  function Take<T>(q: seq<T>, k: nat): (p: seq<T>)
    ensures |p| <= k && p <= q
  {
    if k < |q| then q[..k] else q
  }

  /** What is left when the ascending query with `LIMIT k` is turned around: the last `k` rows. */
  function TakeLast<T>(q: seq<T>, k: nat): (p: seq<T>)
    ensures |p| <= k && |p| <= |q| && p == q[|q| - |p|..]
  {
    if k < |q| then q[|q| - k..] else q
  }

  function Reverse<T>(q: seq<T>): (r: seq<T>)
    ensures |r| == |q|
    ensures forall i :: 0 <= i < |q| ==> r[i] == q[|q| - 1 - i]
  {
    if q == [] then [] else Reverse(q[1..]) + [q[0]]
  }

  lemma ReverseTakeReverse<T>(q: seq<T>, k: nat)
    ensures Reverse(Take(Reverse(q), k)) == TakeLast(q, k)
  {
    var r := Reverse(q);
    var t := Take(r, k);
    var b := Reverse(t);
    hide Reverse;
    forall i | 0 <= i < |t|
      ensures b[i] == TakeLast(q, k)[i]
    {
      assert b[i] == t[|t| - 1 - i] == r[|t| - 1 - i];
    }
  }

  function First<T>(q: seq<T>): Option<T> {
    if q == [] then None else Some(q[0])
  }

  function Last<T>(q: seq<T>): Option<T> {
    if q == [] then None else Some(q[|q| - 1])
  }

  function Init<T>(q: seq<T>): seq<T>
    requires q != []
  {
    q[..|q| - 1]
  }

  lemma OutsidePrefix(q: seq<Row>, d: nat, r: Row)
    requires Descending(q) && 1 <= d <= |q| && r in q && r !in q[..d]
    ensures Less(r, q[d - 1])
  {
    hide Less;
    forall j | 0 <= j < d
      ensures q[j] in q[..d]
    {
      assert q[..d][j] == q[j];
    }
    var j :| 0 <= j < |q| && q[j] == r;
  }

  /** The first `k` rows of a listing leave nothing out above their last row. */
  lemma TakeCovers(b: set<Row>, k: nat)
    requires k >= 1
    ensures var q := Take(Desc(b), k);
            && Descending(q)
            && (forall r :: r in q ==> r in b)
            && (q == [] ==> b == {})
            && (forall r :: r in b && r !in q ==> q != [] && Less(r, Last(q).value))
  {
    DescLists(b);
    var all, q := Desc(b), Take(Desc(b), k);
    hide Less, Desc;
    assert q == all[..|q|];
    assert Descending(q);
    hide Descending;
    forall r | r in b && r !in q
      ensures q != [] && Less(r, Last(q).value)
    {
      OutsidePrefix(all, |q|, r);
    }
  }

  /** Two descending runs join into one when the second stays below the end of the first. */
  lemma DescendingJoin(a: seq<Row>, b: seq<Row>)
    requires Descending(a) && Descending(b)
    requires a != [] ==> forall r :: r in b ==> Less(r, Last(a).value)
    ensures Descending(a + b)
  {
    forall i, j | 0 <= i < j < |a + b|
      ensures Less((a + b)[j], (a + b)[i])
    {
      if i < |a| <= j {
        assert b[j - |a|] in b;
        if i < |a| - 1 {
          LessTransitive(b[j - |a|], Last(a).value, a[i]);
        }
      }
    }
  }

  lemma SuffixDescends(q: seq<Row>, d: nat)
    requires Descending(q) && d <= |q|
    ensures Descending(q[d..])
  {
    hide Less;
  }

  lemma OutsideSuffix(q: seq<Row>, d: nat, r: Row)
    requires Descending(q) && d < |q| && r in q && r !in q[d..]
    ensures Less(q[d], r)
  {
    hide Less;
    forall j | d <= j < |q|
      ensures q[j] in q[d..]
    {
      assert q[d..][j - d] == q[j];
    }
    var j :| 0 <= j < |q| && q[j] == r;
  }

  /** The last `k` rows of a listing leave nothing out below their first row. */
  lemma TakeLastCovers(b: set<Row>, k: nat)
    requires k >= 1
    ensures var q := TakeLast(Desc(b), k);
            && Descending(q)
            && (forall r :: r in q ==> r in b)
            && (q == [] ==> b == {})
            && (forall r :: r in b && r !in q ==> q != [] && Less(First(q).value, r))
  {
    DescLists(b);
    var all, q := Desc(b), TakeLast(Desc(b), k);
    var d := |all| - |q|;
    SuffixDescends(all, d);
    hide Less, Desc, Descending;
    if b != {} {
      assert q[0] == all[d];
      forall r | r in b && r !in q
        ensures Less(q[0], r)
      {
        OutsideSuffix(all, d, r);
      }
    }
  }

  lemma DescendingJoinFront(a: seq<Row>, b: seq<Row>)
    requires Descending(a) && Descending(b)
    requires b != [] ==> forall r :: r in a ==> Less(First(b).value, r)
    ensures Descending(a + b)
  {
    forall i, j | 0 <= i < j < |a + b|
      ensures Less((a + b)[j], (a + b)[i])
    {
      if i < |a| <= j {
        assert a[i] in a;
        if j > |a| {
          LessTransitive(b[j - |a|], First(b).value, a[i]);
        }
      }
    }
  }

  /** A descending run holds no row twice. */
  lemma {:induction false} DescendingOnce(q: seq<Row>, r: Row)
    requires Descending(q)
    ensures multiset(q)[r] == if r in q then 1 else 0
  {
    if q != [] {
      var t := q[1..];
      assert q == [q[0]] + t;
      forall x | x in t
        ensures x != q[0]
      {
        var j :| 0 <= j < |t| && t[j] == x;
        EarlierIsGreater(q, 0, j + 1);
      }
      DescendingOnce(t, r);
    }
  }
}

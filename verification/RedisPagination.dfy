/** The Redis sorted-set paginator.  A member is a row whose rank is its score; Redis orders equal
    scores by member.  Cursors carry the score alone. */
module RedisPagination {
  import opened Text
  import opened Keyset
  import opened Cursor
  import opened Paging

  /** The sorted set as each command of one call (ZCARD, the range, the two ZCOUNTs) sees it. */
  datatype Store = Store(card: set<Row>, range: set<Row>, next: set<Row>, previous: set<Row>)

  function Fixed(s: set<Row>): Store {
    Store(s, s, s, s)
  }

  datatype RedisError = InvalidAfter | InvalidBefore

  function ScoresBelow(s: set<Row>, c: Option<int>): set<Row> {
    if c.None? then s else set r | r in s && r.rank < c.value
  }

  function ScoresOver(s: set<Row>, c: Option<int>): set<Row> {
    if c.None? then s else set r | r in s && r.rank > c.value
  }

  function ParseOptional(st: ScoreText, text: Option<Str>): Option<Option<int>> {
    if text.None? then Some(None)
    else match ParseScore(st, text.value) case None => None case Some(x) => Some(Some(x))
  }

  /** A range with `Count: k`; go-redis sends no LIMIT for a count of zero. */
  function Counted(q: seq<Row>, k: nat): seq<Row> {
    if k == 0 then q else Take(q, k)
  }

  function CountedLast(q: seq<Row>, k: nat): seq<Row> {
    if k == 0 then q else TakeLast(q, k)
  }

  lemma TurnedAround(q: seq<Row>, k: nat)
    ensures Reverse(Counted(Reverse(q), k)) == CountedLast(q, k)
  {
    ReverseTakeReverse(q, k);
    assert Reverse(Reverse(q)) == q;
  }

  /** `queryMembers`, in page order. */
  function QueryMembers(st: ScoreText, db: Store, args: Arguments): Result<seq<Row>, RedisError> {
    if args.first.Some? then
      match ParseOptional(st, args.after)
      case None => Err(InvalidAfter)
      case Some(c) => Ok(Counted(Desc(ScoresBelow(db.range, c)), args.first.value))
    else if args.last.Some? then
      match ParseOptional(st, args.before)
      case None => Err(InvalidBefore)
      case Some(c) => Ok(CountedLast(Desc(ScoresOver(db.range, c)), args.last.value))
    else Ok(Take(Desc(db.range), |db.card|))
  }

  /** `hasNextPage`. */
  predicate HasNext(next: set<Row>, args: Arguments, q: seq<Row>) {
    if q == [] then !(args.first.Some? && args.after.Some?) && args.last.Some? && args.before.Some?
    else |ScoresBelow(next, Some(q[|q| - 1].rank))| > 0
  }

  /** `hasPreviousPage`. */
  predicate HasPrevious(previous: set<Row>, args: Arguments, q: seq<Row>) {
    if q == [] then !(args.last.Some? && args.before.Some?) && args.first.Some? && args.after.Some?
    else |ScoresOver(previous, Some(q[0].rank))| > 0
  }

  function ItemsOf(st: ScoreText, q: seq<Row>): (items: seq<Item>)
    ensures |items| == |q|
  {
    seq(|q|, i requires 0 <= i < |q| => Item(q[i], ScoreCursor(st, q[i].rank)))
  }

  function BuildPage(st: ScoreText, db: Store, args: Arguments, q: seq<Row>): (p: Page)
    ensures p.Rows() == q
  {
    var items := ItemsOf(st, q);
    var start := if items == [] then None else Some(items[0].cursor);
    var end := if items == [] then None else Some(items[|items| - 1].cursor);
    Page(items, PageInfo(HasPrevious(db.previous, args, q), HasNext(db.next, args, q), start, end, |db.card|))
  }

  /** What a call of `ListItems` returns; an empty set is answered before any cursor is looked at. */
  function PageOf(st: ScoreText, db: Store, args: Arguments): Result<Page, RedisError> {
    if |db.card| == 0 then Ok(Page([], PageInfo(false, false, None, None, 0)))
    else
      match QueryMembers(st, db, args)
      case Err(e) => Err(e)
      case Ok(q) => Ok(BuildPage(st, db, args, q))
  }

  // ---- the code ----------------------------------------------------------

  method QueryForward(st: ScoreText, s: set<Row>, args: Arguments) returns (r: Result<array<Row>, RedisError>)
    requires args.first.Some?
    ensures r.Err? <==> ParseOptional(st, args.after).None?
    ensures r.Err? ==> r.error == InvalidAfter
    ensures r.Ok? ==> fresh(r.value)
    ensures r.Ok? ==> var c := ParseOptional(st, args.after).value;
                      r.value[..] == Counted(Desc(ScoresBelow(s, c)), args.first.value)
  {
    var max: Option<int> := None;
    if args.after.Some? {
      var score := ParseScore(st, args.after.value);
      if score.None? {
        return Err(InvalidAfter);
      }
      max := score;
    }
    var q := Counted(Desc(ScoresBelow(s, max)), args.first.value);
    var members := ToArray(q);
    r := Ok(members);
  }

  method QueryBackward(st: ScoreText, s: set<Row>, args: Arguments) returns (r: Result<array<Row>, RedisError>)
    requires args.last.Some?
    ensures r.Err? <==> ParseOptional(st, args.before).None?
    ensures r.Err? ==> r.error == InvalidBefore
    ensures r.Ok? ==> fresh(r.value)
    ensures r.Ok? ==> var c := ParseOptional(st, args.before).value;
                      r.value[..] == CountedLast(Desc(ScoresOver(s, c)), args.last.value)
  {
    hide Desc, ParseScore, ScoresOver, Counted, CountedLast, Reverse;
    var min: Option<int> := None;
    if args.before.Some? {
      var score := ParseScore(st, args.before.value);
      if score.None? {
        return Err(InvalidBefore);
      }
      min := score;
    }
    var q := Counted(Reverse(Desc(ScoresOver(s, min))), args.last.value);
    var members := ToArray(q);
    ReverseItems(members);
    TurnedAround(Desc(ScoresOver(s, min)), args.last.value);
    r := Ok(members);
  }

  method MembersToItems(st: ScoreText, members: array<Row>) returns (items: array<Item>, scores: array<int>)
    ensures items[..] == ItemsOf(st, members[..]) && items.Length == members.Length
    ensures forall i :: 0 <= i < items.Length ==> items[i] == Item(members[i], ScoreCursor(st, members[i].rank))
    ensures scores.Length == members.Length
    ensures forall i :: 0 <= i < members.Length ==> scores[i] == members[i].rank
  {
    var n := members.Length;
    var mapped := new Row[n](_ => Row(0, []));
    scores := new int[n](_ => 0);
    for i := 0 to n
      invariant forall j :: 0 <= j < i ==> mapped[j] == members[j] && scores[j] == members[j].rank
    {
      mapped[i] := members[i];
      scores[i] := members[i].rank;
    }
    items := new Item[n](_ => Item(Row(0, []), []));
    for i := 0 to n
      invariant forall j :: 0 <= j < n ==> mapped[j] == members[j] && scores[j] == members[j].rank
      invariant forall j :: 0 <= j < i ==> items[j] == Item(members[j], ScoreCursor(st, members[j].rank))
    {
      items[i] := Item(mapped[i], ScoreCursor(st, scores[i]));
    }
  }

  method HasNextPage(next: set<Row>, args: Arguments, scores: array<int>, ghost q: seq<Row>) returns (r: bool)
    requires scores.Length == |q|
    requires forall i :: 0 <= i < |q| ==> scores[i] == q[i].rank
    ensures r == HasNext(next, args, q)
  {
    if scores.Length == 0 {
      if args.first.Some? && args.after.Some? {
        return false;
      }
      if args.last.Some? {
        return args.before.Some?;
      }
      return false;
    }
    var count := |ScoresBelow(next, Some(scores[scores.Length - 1]))|;
    r := count > 0;
  }

  method HasPreviousPage(previous: set<Row>, args: Arguments, scores: array<int>, ghost q: seq<Row>) returns (r: bool)
    requires scores.Length == |q|
    requires forall i :: 0 <= i < |q| ==> scores[i] == q[i].rank
    ensures r == HasPrevious(previous, args, q)
  {
    if scores.Length == 0 {
      if args.last.Some? && args.before.Some? {
        return false;
      }
      if args.first.Some? {
        return args.after.Some?;
      }
      return false;
    }
    var count := |ScoresOver(previous, Some(scores[0]))|;
    r := count > 0;
  }

  method QueryStore(st: ScoreText, db: Store, args: Arguments, total: nat) returns (r: Result<array<Row>, RedisError>)
    requires total == |db.card|
    ensures r.Err? ==> QueryMembers(st, db, args) == Err(r.error)
    ensures r.Ok? ==> QueryMembers(st, db, args) == Ok(r.value[..])
  {
    hide Desc, ParseScore, ScoresBelow, ScoresOver;
    if args.first.Some? {
      r := QueryForward(st, db.range, args);
    } else if args.last.Some? {
      r := QueryBackward(st, db.range, args);
    } else {
      var q := Take(Desc(db.range), total);
      var all := ToArray(q);
      r := Ok(all);
    }
  }

  method ListItems(st: ScoreText, db: Store, args: Arguments) returns (r: Result<Page, RedisError>)
    ensures r == PageOf(st, db, args)
  {
    hide Desc, ParseScore, ScoreCursor, ScoresBelow, ScoresOver, QueryMembers, HasNext, HasPrevious;
    var total := |db.card|;
    if total == 0 {
      return Ok(Page([], PageInfo(false, false, None, None, 0)));
    }
    var queried := QueryStore(st, db, args, total);
    if queried.Err? {
      return Err(queried.error);
    }
    ghost var q := queried.value[..];
    var items, scores := MembersToItems(st, queried.value);
    var n := scores.Length;
    var start, end: Option<Str> := None, None;
    if n > 0 {
      start, end := Some(items[0].cursor), Some(items[n - 1].cursor);
    }
    var hasNext := HasNextPage(db.next, args, scores, q);
    var hasPrevious := HasPreviousPage(db.previous, args, scores, q);
    r := Ok(Page(items[..], PageInfo(hasPrevious, hasNext, start, end, total)));
  }
}

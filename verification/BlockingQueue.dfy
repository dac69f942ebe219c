/** The cyclic blocking queue: a bounded channel that Refill tops up round-robin while others take. */
module BlockingQueue {
  import opened Text

  // ---- the queue as a step machine ---------------------------------------

  /** A running Refill: its loop variable, how many elements were queued when it took the lock, what
      it has sent, how many takes happened meanwhile, and whether it has found the channel full. */
  datatype Refilling = Refilling(i: nat, queued: nat, sent: nat, takes: nat, full: bool)

  /** `taken` and `finished` record the elements taken and the completed Refill calls so far. */
  datatype State<T> = State(
    elements: seq<T>, chan: seq<T>, index: nat, refill: Option<Refilling>, taken: seq<T>, finished: seq<Refilling>)

  /** One atomic step: a successful Take, Refill taking the lock, one round of its loop, or its return. */
  datatype Step = TakeOne | Lock | Loop | Unlock

  function Wrap(i: nat, n: nat): nat {
    if i == n then 0 else i
  }

  predicate Enabled<T>(q: State<T>, e: Step) {
    match e
    case TakeOne => q.chan != []
    case Lock => q.refill.None?
    case Loop => q.refill.Some? && !q.refill.value.full && Wrap(q.refill.value.i, |q.elements|) < |q.elements|
    case Unlock => q.refill.Some? && q.refill.value.full
  }

  function Next<T>(q: State<T>, e: Step): State<T>
    requires Enabled(q, e)
  {
    match e
    case TakeOne =>
      q.(chan := q.chan[1..], taken := q.taken + [q.chan[0]],
         refill := if q.refill.None? then None else Some(q.refill.value.(takes := q.refill.value.takes + 1)))
    case Lock => q.(refill := Some(Refilling(q.index, |q.chan|, 0, 0, false)))
    case Loop =>
      var r := q.refill.value;
      var i := Wrap(r.i, |q.elements|);
      if |q.chan| < |q.elements| then
        q.(chan := q.chan + [q.elements[i]], refill := Some(r.(i := i + 1, sent := r.sent + 1)))
      else
        q.(index := i, refill := Some(r.(i := i, full := true)))
    case Unlock => q.(refill := None, finished := q.finished + [q.refill.value])
  }

  /** `New`. */
  function New<T>(elements: seq<T>): State<T> {
    State(elements, elements, 0, None, [], [])
  }

  function RunFrom<T>(q: State<T>, steps: seq<Step>): Option<State<T>> {
    if steps == [] then Some(q)
    else
      var n := |steps| - 1;
      match RunFrom(q, steps[..n])
      case None => None
      case Some(h) => if Enabled(h, steps[n]) then Some(Next(h, steps[n])) else None
  }

  // ---- what every run keeps ----------------------------------------------

  /** The sequence runs through the elements round and round. */
  ghost predicate Cyclic<T>(elements: seq<T>, q: seq<T>)
    requires elements != []
  {
    forall j :: 0 <= j < |q| ==> q[j] == elements[j % |elements|]
  }

  /** The number of elements that have gone into the channel so far. */
  function Entered<T>(q: State<T>): nat {
    |q.taken| + |q.chan|
  }

  ghost predicate RefillOk<T>(q: State<T>, r: Refilling)
    requires q.elements != []
  {
    && r.sent + r.queued == |q.chan| + r.takes
    && r.i <= |q.elements|
    && r.i % |q.elements| == Entered(q) % |q.elements|
    && (r.full ==> q.index == r.i < |q.elements| && |q.elements| <= |q.chan| + r.takes)
    && (r.full && r.takes == 0 ==> |q.chan| == |q.elements|)
  }

  /** How much one completed Refill sent. */
  ghost predicate SentRightAmount(n: nat, r: Refilling) {
    && r.sent + r.queued <= n + r.takes
    && (r.takes == 0 ==> r.sent + r.queued == n)
  }

  ghost predicate Inv<T>(q: State<T>) {
    && q.elements != []
    && |q.chan| <= |q.elements|
    && Cyclic(q.elements, q.taken + q.chan)
    && (q.refill.None? ==> q.index == Entered(q) % |q.elements|)
    && (q.refill.Some? ==> RefillOk(q, q.refill.value))
    && (forall k :: 0 <= k < |q.finished| ==> SentRightAmount(|q.elements|, q.finished[k]))
  }

  lemma SmallMultiple(k: int, n: int, e: int)
    requires n >= 1 && k * n == e && -n < e < n
    ensures k == 0
  {
    assert k >= 1 ==> k * n >= n;
    assert k <= -1 ==> k * n <= -n;
  }

  lemma DivisionUnique(x: nat, n: nat, d: nat, r: nat)
    requires n >= 1 && x == d * n + r && r < n
    ensures x % n == r && x / n == d
  {
    var q, s := x / n, x % n;
    assert x == q * n + s;
    assert (q - d) * n == q * n - d * n;
    SmallMultiple(q - d, n, r - s);
  }

  /** `Wrap` is the step from one index to the next modulo n. */
  lemma NextModulo(a: nat, i: nat, n: nat)
    requires n >= 1 && i <= n && i % n == a % n
    ensures Wrap(i, n) == a % n
    ensures (Wrap(i, n) + 1) % n == (a + 1) % n
  {
    var d, r := a / n, a % n;
    assert a == d * n + r;
    DivisionUnique(n, n, 1, 0);
    if i < n {
      DivisionUnique(i, n, 0, i);
    }
    if r + 1 < n {
      DivisionUnique(a + 1, n, d, r + 1);
      DivisionUnique(r + 1, n, 0, r + 1);
    } else {
      assert (d + 1) * n == d * n + n;
      DivisionUnique(a + 1, n, d + 1, 0);
    }
  }

  lemma TakeKeepsInv<T>(q: State<T>)
    requires Inv(q) && Enabled(q, TakeOne)
    ensures Inv(Next(q, TakeOne))
  {
    var h := Next(q, TakeOne);
    assert h.taken + h.chan == q.taken + q.chan;
  }

  lemma CyclicAppend<T>(elements: seq<T>, q: seq<T>, i: nat)
    requires elements != [] && Cyclic(elements, q) && i == |q| % |elements|
    ensures Cyclic(elements, q + [elements[i]])
  {
  }

  lemma LoopKeepsInv<T>(q: State<T>)
    requires Inv(q) && Enabled(q, Loop)
    ensures Inv(Next(q, Loop))
  {
    var h, r, n := Next(q, Loop), q.refill.value, |q.elements|;
    var i := Wrap(r.i, n);
    NextModulo(Entered(q), r.i, n);
    hide Cyclic;
    if |q.chan| < n {
      CyclicAppend(q.elements, q.taken + q.chan, i);
      assert h.taken + h.chan == q.taken + q.chan + [q.elements[i]];
    } else {
      DivisionUnique(i, n, 0, i);
    }
  }

  lemma StepKeepsInv<T>(q: State<T>, e: Step)
    requires Inv(q) && Enabled(q, e)
    ensures Inv(Next(q, e))
  {
    hide Cyclic;
    var n := |q.elements|;
    match e
    case TakeOne => TakeKeepsInv(q);
    case Lock => DivisionUnique(q.index, n, 0, q.index);
    case Loop => LoopKeepsInv(q);
    case Unlock => DivisionUnique(q.index, n, 0, q.index);
  }

  lemma {:induction false} RunKeepsInv<T>(q: State<T>, steps: seq<Step>)
    requires Inv(q) && RunFrom(q, steps).Some?
    ensures Inv(RunFrom(q, steps).value) && RunFrom(q, steps).value.elements == q.elements
  {
    if steps != [] {
      var n := |steps| - 1;
      RunKeepsInv(q, steps[..n]);
      StepKeepsInv(RunFrom(q, steps[..n]).value, steps[n]);
    }
  }

  lemma CyclicOnce<T>(elements: seq<T>)
    requires elements != []
    ensures Cyclic(elements, elements)
  {
    forall j | 0 <= j < |elements|
      ensures elements[j] == elements[j % |elements|]
    {
      DivisionUnique(j, |elements|, 0, j);
    }
  }

  lemma NewInv<T>(elements: seq<T>)
    requires elements != []
    ensures Inv(New(elements))
  {
    hide Cyclic;
    var q := New(elements);
    assert q.taken + q.chan == elements;
    CyclicOnce(elements);
    DivisionUnique(|elements|, |elements|, 1, 0);
  }

  /** In every interleaving of takes and refills the k-th successful Take returns element k mod n. */
  lemma TakesAreCyclic<T>(elements: seq<T>, steps: seq<Step>, k: nat)
    requires elements != [] && RunFrom(New(elements), steps).Some?
    requires k < |RunFrom(New(elements), steps).value.taken|
    ensures RunFrom(New(elements), steps).value.taken[k] == elements[k % |elements|]
  {
    NewInv(elements);
    RunKeepsInv(New(elements), steps);
    var q := RunFrom(New(elements), steps).value;
    assert (q.taken + q.chan)[k] == q.taken[k];
  }

  /** A new queue is full: its elements can be taken at once, one after the other and in order. */
  lemma FirstTakes<T>(elements: seq<T>)
    ensures var end := RunFrom(New(elements), seq(|elements|, _ => TakeOne));
            end.Some? && end.value.taken == elements && end.value.chan == [] && !Enabled(end.value, TakeOne)
  {
    TakesInOrder(elements, |elements|);
    assert elements[..|elements|] == elements;
  }

  lemma {:induction false} TakesInOrder<T>(elements: seq<T>, m: nat)
    requires m <= |elements|
    ensures RunFrom(New(elements), seq(m, _ => TakeOne))
         == Some(State(elements, elements[m..], 0, None, elements[..m], []))
  {
    var steps := seq(m, _ => TakeOne);
    if m == 0 {
      assert steps == [] && elements[0..] == elements && elements[..0] == [];
    } else {
      TakesInOrder(elements, m - 1);
      assert steps[..m - 1] == seq(m - 1, _ => TakeOne);
      assert elements[m - 1..][1..] == elements[m..];
      assert elements[..m - 1] + [elements[m - 1]] == elements[..m];
    }
  }

  lemma RotationIndex(k: nat, n: nat, j: nat)
    requires n >= 1 && j < n
    ensures (k + j) % n == if k % n + j < n then k % n + j else k % n + j - n
  {
    var d, r := k / n, k % n;
    assert k == d * n + r;
    if r + j < n {
      DivisionUnique(k + j, n, d, r + j);
    } else {
      assert (d + 1) * n == d * n + n;
      DivisionUnique(k + j, n, d + 1, r + j - n);
    }
  }

  /** Any n consecutive takes are a rotation of the element list. */
  lemma ConsecutiveTakesRotate<T>(elements: seq<T>, steps: seq<Step>, k: nat)
    requires elements != [] && RunFrom(New(elements), steps).Some?
    requires k + |elements| <= |RunFrom(New(elements), steps).value.taken|
    ensures var n := |elements|;
            RunFrom(New(elements), steps).value.taken[k..k + n] == elements[k % n..] + elements[..k % n]
  {
    var n, r := |elements|, k % |elements|;
    var taken := RunFrom(New(elements), steps).value.taken;
    var rotated := elements[r..] + elements[..r];
    forall j | 0 <= j < n
      ensures taken[k..k + n][j] == rotated[j]
    {
      TakesAreCyclic(elements, steps, k + j);
      RotationIndex(k, n, j);
    }
  }

  /** A Refill that found m queued and saw t takes sent at most n - m + t elements, and exactly
      n - m if nobody took anything. */
  lemma RefillAmounts<T>(elements: seq<T>, steps: seq<Step>, k: nat)
    requires elements != [] && RunFrom(New(elements), steps).Some?
    requires k < |RunFrom(New(elements), steps).value.finished|
    ensures var r := RunFrom(New(elements), steps).value.finished[k];
            r.sent <= |elements| - r.queued + r.takes && (r.takes == 0 ==> r.sent == |elements| - r.queued)
  {
    NewInv(elements);
    RunKeepsInv(New(elements), steps);
  }

  lemma {:induction false} RunKeepsElements<T>(q: State<T>, steps: seq<Step>)
    requires RunFrom(q, steps).Some?
    ensures RunFrom(q, steps).value.elements == q.elements
  {
    if steps != [] {
      RunKeepsElements(q, steps[..|steps| - 1]);
    }
  }

  /** In every run, a Refill that has not found the channel full can go on to its next round if and only
      if the queue was made with some element: with none its loop would index an empty list. */
  lemma RefillProceedsExactly<T>(elements: seq<T>, steps: seq<Step>)
    requires RunFrom(New(elements), steps).Some?
    requires var q := RunFrom(New(elements), steps).value; q.refill.Some? && !q.refill.value.full
    ensures Enabled(RunFrom(New(elements), steps).value, Loop) <==> elements != []
  {
    RunKeepsElements(New(elements), steps);
    if elements != [] {
      NewInv(elements);
      RunKeepsInv(New(elements), steps);
    }
  }

  lemma RunOneMore<T>(q: State<T>, steps: seq<Step>, h: State<T>, e: Step)
    requires RunFrom(q, steps) == Some(h) && Enabled(h, e)
    ensures RunFrom(q, steps + [e]) == Some(Next(h, e))
  {
    assert (steps + [e])[..|steps|] == steps;
  }

  lemma {:induction false} RunAppend<T>(q: State<T>, a: seq<Step>, b: seq<Step>)
    requires RunFrom(q, a).Some?
    ensures RunFrom(q, a + b) == RunFrom(RunFrom(q, a).value, b)
  {
    if b == [] {
      assert a + b == a;
    } else {
      var n := |b| - 1;
      RunAppend(q, a, b[..n]);
      assert (a + b)[..|a + b| - 1] == a + b[..n];
    }
  }

  // ---- the code ----------------------------------------------------------

  lemma InvBounds<T>(q: State<T>)
    requires Inv(q)
    ensures q.elements != [] && |q.chan| <= |q.elements|
    ensures q.refill.Some? ==> q.refill.value.i <= |q.elements|
  {
  }

  function Total(takes: seq<nat>): nat {
    if takes == [] then 0 else takes[0] + Total(takes[1..])
  }

  lemma TotalNext(takes: seq<nat>, r: nat)
    requires r <= |takes|
    ensures r < |takes| ==> Total(takes[r..]) == takes[r] + Total(takes[r + 1..])
    ensures r == |takes| ==> Total(takes[r..]) == 0
  {
    assert r < |takes| ==> takes[r..][1..] == takes[r + 1..];
  }

  class Queue<T> {
    const elements: seq<T>
    var elementsChan: seq<T>
    var elementsIndex: nat
    ghost var history: State<T>

    /** The record agrees with the fields, and no Refill is running. */
    ghost predicate Valid()
      reads this
    {
      && (if elements == [] then elementsChan == [] else Inv(history)) && history.refill.None?
      && history.elements == elements && history.chan == elementsChan && history.index == elementsIndex
    }

    constructor (elements: seq<T>)
      ensures Valid() && history == New(elements)
      ensures this.elements == elements && elementsChan == elements && elementsIndex == 0
    {
      this.elements := elements;
      var c: seq<T> := [];
      for i := 0 to |elements|
        invariant c == elements[..i]
      {
        c := c + [elements[i]];
      }
      elementsChan, elementsIndex := c, 0;
      history := New(elements);
      if elements != [] {
        NewInv(elements);
      }
      assert elements[..|elements|] == elements;
    }

    /** `Take` once it does not block: with the context done it may come back empty-handed. */
    method Take(contextDone: bool, preferContext: bool) returns (v: Option<T>)
      requires Valid()
      requires elementsChan != [] || contextDone
      modifies this
      ensures Valid()
      ensures v.None? <==> contextDone && (preferContext || old(elementsChan) == [])
      ensures v.None? ==> history == old(history)
      ensures v.None? ==> elementsChan == old(elementsChan)
      ensures v.Some? ==> old(elementsChan) == [v.value] + elementsChan
      ensures v.Some? ==> history == Next(old(history), TakeOne) && history.taken == old(history.taken) + [v.value]
      ensures elementsIndex == old(elementsIndex)
    {
      if contextDone && (preferContext || elementsChan == []) {
        return None;
      }
      TakeKeepsInv(history);
      history := Next(history, TakeOne);
      v := Some(elementsChan[0]);
      elementsChan := elementsChan[1..];
    }

    /** The takes other goroutines complete while Refill is between two steps. */
    method Interference(takes: nat, ghost q: State<T>) returns (ghost after: State<T>, ghost steps: seq<Step>)
      requires Inv(q) && q.chan == elementsChan && q.elements == elements
      modifies this`elementsChan
      ensures Inv(after) && RunFrom(q, steps) == Some(after)
      ensures after.chan == elementsChan && after.elements == elements
      ensures after.index == q.index && after.finished == q.finished
      ensures |elementsChan| == if takes < |old(elementsChan)| then |old(elementsChan)| - takes else 0
      ensures |after.taken| + |elementsChan| == |q.taken| + |old(elementsChan)|
      ensures after.refill == if q.refill.None? then None else
                Some(q.refill.value.(takes := q.refill.value.takes + |old(elementsChan)| - |elementsChan|))
    {
      after, steps := q, [];
      assert RunFrom(q, []) == Some(q);
      hide RunFrom, Inv;
      for t := 0 to takes
        invariant Inv(after) && RunFrom(q, steps) == Some(after)
        invariant after.chan == elementsChan && after.elements == elements
        invariant after.index == q.index && after.finished == q.finished
        invariant |elementsChan| == if t < |old(elementsChan)| then |old(elementsChan)| - t else 0
        invariant |after.taken| + |elementsChan| == |q.taken| + |old(elementsChan)|
        invariant after.refill == if q.refill.None? then None else
                    Some(q.refill.value.(takes := q.refill.value.takes + |old(elementsChan)| - |elementsChan|))
      {
        if elementsChan != [] {
          RunOneMore(q, steps, after, TakeOne);
          TakeKeepsInv(after);
          steps, after := steps + [TakeOne], Next(after, TakeOne);
          elementsChan := elementsChan[1..];
        }
      }
    }

    /** The select of one round: send element `i`, or store the index if the channel is full. */
    method SendOrStore(i: nat, ghost q: State<T>) returns (sent: bool, ghost after: State<T>)
      requires Inv(q) && Enabled(q, Loop) && Wrap(q.refill.value.i, |elements|) == i < |elements|
      requires q.chan == elementsChan && q.elements == elements && q.index == elementsIndex
      modifies this`elementsChan, this`elementsIndex
      ensures after == Next(q, Loop) && Inv(after)
      ensures after.chan == elementsChan && after.elements == elements && after.index == elementsIndex
      ensures after.finished == q.finished && after.taken == q.taken
      ensures sent <==> |old(elementsChan)| < |elements|
      ensures |elementsChan| == if sent then |old(elementsChan)| + 1 else |old(elementsChan)|
      ensures after.refill.Some? && after.refill.value.i == (if sent then i + 1 else i)
      ensures after.refill.value.full == !sent
    {
      StepKeepsInv(q, Loop);
      hide Inv;
      after := Next(q, Loop);
      sent := |elementsChan| < |elements|;
      if sent {
        elementsChan := elementsChan + [elements[i]];
      } else {
        elementsIndex := i;
      }
    }

    /** A Refill is under way: from `q` the steps so far lead to `cur`, which agrees with the fields
        and with the loop variable. */
    ghost predicate Running(q: State<T>, steps: seq<Step>, cur: State<T>, i: nat, full: bool)
      reads this
    {
      && Inv(cur) && RunFrom(q, steps) == Some(cur)
      && elements != [] && |elementsChan| <= |elements|
      && cur.elements == elements && cur.chan == elementsChan && cur.index == elementsIndex
      && cur.finished == q.finished
      && cur.refill.Some? && cur.refill.value.i == i <= |elements| && cur.refill.value.full == full
    }

    /** Some takes by others, then one round of the loop. */
    method RefillRound(t: nat, i: nat, ghost q: State<T>, ghost steps: seq<Step>, ghost cur: State<T>)
      returns (sent: bool, next: nat, ghost steps': seq<Step>, ghost cur': State<T>)
      requires Running(q, steps, cur, i, false)
      modifies this`elementsChan, this`elementsIndex
      ensures Running(q, steps', cur', next, !sent)
      ensures |cur.taken| <= |cur'.taken| <= |cur.taken| + t
      ensures |cur'.taken| + |elementsChan| == |cur.taken| + |old(elementsChan)| + if sent then 1 else 0
      ensures !sent ==> |elementsChan| == |elements|
    {
      hide RunFrom, Inv;
      ghost var after, more := Interference(t, cur);
      RunAppend(q, steps, more);
      InvBounds(after);
      next := i;
      if next == |elements| {
        next := 0;
      }
      RunOneMore(q, steps + more, after, Loop);
      steps' := steps + more + [Loop];
      sent, cur' := SendOrStore(next, after);
      if sent {
        next := next + 1;
      }
    }

    /** Takes by others between the last round and the return. */
    method LeaveRefill(late: nat, i: nat, ghost q: State<T>, ghost steps: seq<Step>, ghost cur: State<T>)
      returns (ghost steps': seq<Step>, ghost cur': State<T>)
      requires Running(q, steps, cur, i, true)
      modifies this`elementsChan
      ensures Inv(cur') && RunFrom(q, steps') == Some(cur')
      ensures cur'.elements == elements && cur'.chan == elementsChan && cur'.index == elementsIndex && cur'.refill.None?
      ensures |cur'.finished| == |q.finished| + 1
      ensures |cur.taken| <= |cur'.taken| <= |cur.taken| + late
      ensures late == 0 ==> |elementsChan| == |old(elementsChan)|
    {
      hide RunFrom, Inv;
      ghost var after, more := Interference(late, cur);
      RunAppend(q, steps, more);
      RunOneMore(q, steps + more, after, Unlock);
      StepKeepsInv(after, Unlock);
      steps', cur' := steps + more + [Unlock], Next(after, Unlock);
    }

    /** `Refill`, with `takes[r]` takes falling before round `r` of its loop and `late` more before it
        returns: a run of the step machine, so all of the above holds of it. */
    method Refill(takes: seq<nat>, late: nat) returns (ghost steps: seq<Step>)
      requires Valid() && elements != []
      modifies this
      ensures Valid()
      ensures RunFrom(old(history), steps) == Some(history)
      ensures |history.finished| == |old(history.finished)| + 1
      ensures late == 0 ==> |elementsChan| == |elements|
      ensures |old(history.taken)| <= |history.taken| <= |old(history.taken)| + Total(takes) + late
    {
      ghost var q := history;
      assert RunFrom(q, []) == Some(q);
      RunOneMore(q, [], q, Lock);
      StepKeepsInv(q, Lock);
      ghost var cur := Next(q, Lock);
      steps := [] + [Lock];
      var i, round := elementsIndex, 0;
      InvBounds(cur);
      assert Running(q, steps, cur, i, false);
      assert takes[0..] == takes;
      hide Total, Running, RunFrom, Inv, Next;
      while |elementsChan| <= |elements|
        invariant Running(q, steps, cur, i, false) && |elementsChan| <= |elements|
        invariant history == q && round <= |takes|
        invariant |q.taken| <= |cur.taken| && |cur.taken| + Total(takes[round..]) <= |q.taken| + Total(takes)
        decreases Total(takes[round..]) + (|elements| - |elementsChan|)
      {
        TotalNext(takes, round);
        var sent;
        sent, i, steps, cur := RefillRound(if round < |takes| then takes[round] else 0, i, q, steps, cur);
        if !sent {
          break;
        }
        RunningBounds(q, steps, cur, i, false);
        if round < |takes| {
          round := round + 1;
        }
      }
      steps, cur := LeaveRefill(late, i, q, steps, cur);
      history := cur;
    }

    lemma RunningBounds(q: State<T>, steps: seq<Step>, cur: State<T>, i: nat, full: bool)
      requires Running(q, steps, cur, i, full)
      ensures |elementsChan| <= |elements|
    {
    }
  }
}

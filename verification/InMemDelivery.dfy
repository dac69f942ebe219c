/** What the in-memory pub/sub does to one subscription, as values, and the delivery guarantee over
    every run of subscribing, publishing, receiving and unsubscribing. */
module InMemDelivery {
  import opened Text

  type Channels = seq<Str>

  /** A subscription: its Go channel holds `buffer`, and `received` has already been taken from it. */
  datatype Sub<E> = Sub(channels: Channels, capacity: nat, received: seq<E>, buffer: seq<E>, open: bool) {
    function Accepted(): seq<E> {
      received + buffer
    }

    predicate Fits() {
      |buffer| <= capacity
    }

    function Room(): int {
      capacity - |buffer|
    }
  }

  function Repeat<E>(e: E, n: nat): (q: seq<E>)
    ensures |q| == n && forall i :: 0 <= i < n ==> q[i] == e
  {
    seq(n, _ => e)
  }

  /** How many entries of a Publish call's channel list the subscription listens to. */
  function Matches(published: Channels, channels: Channels): nat {
    if published == [] then 0
    else
      var n := |published| - 1;
      Matches(published[..n], channels) + if published[n] in channels then 1 else 0
  }

  /** A subscription offered the same event `n` times in a row with nobody receiving: what fits is
      buffered, and the first copy that does not fit evicts it. */
  function Offer<E>(s: Sub<E>, e: E, n: nat): (r: Sub<E>)
    requires s.Fits()
    ensures r.Fits() && r.channels == s.channels
  {
    if !s.open then s
    else if n <= s.Room() then s.(buffer := s.buffer + Repeat(e, n))
    else s.(buffer := s.buffer + Repeat(e, s.Room()), open := false)
  }

  /** Offers add up one at a time: a copy that finds room is buffered, one that does not closes. */
  lemma OfferOneMore<E>(s: Sub<E>, e: E, n: nat)
    requires s.Fits()
    ensures var t := Offer(s, e, n);
            Offer(s, e, n + 1) == if !t.open then t
                                  else if t.Room() > 0 then t.(buffer := t.buffer + [e])
                                  else t.(open := false)
  {
    if s.open && n < s.Room() {
      assert Repeat(e, n + 1) == Repeat(e, n) + [e];
    }
  }

  lemma OfferNothing<E>(s: Sub<E>, e: E)
    requires s.Fits()
    ensures Offer(s, e, 0) == s
  {
    assert s.buffer + Repeat(e, 0) == s.buffer;
  }

  lemma MatchesNext(published: Channels, channels: Channels, i: nat)
    requires i < |published|
    ensures Matches(published[..i + 1], channels)
         == Matches(published[..i], channels) + if published[i] in channels then 1 else 0
  {
    assert published[..i + 1][..i] == published[..i];
  }

  /** How many positions of the published list hold a channel the subscription listens to. */
  lemma {:induction false} MatchesCounts(published: Channels, channels: Channels)
    ensures Matches(published, channels) == |set i | 0 <= i < |published| && published[i] in channels|
  {
    var at := set i | 0 <= i < |published| && published[i] in channels;
    if published == [] {
      assert at == {};
    } else {
      var n := |published| - 1;
      MatchesCounts(published[..n], channels);
      var before := set i | 0 <= i < n && published[..n][i] in channels;
      assert at == before + if published[n] in channels then {n} else {};
    }
  }

  lemma OfferAgain<E>(s: Sub<E>, e: E, n: nat)
    requires s.Fits()
    ensures Offer(Offer(s, e, n), e, 1) == Offer(s, e, n + 1)
    ensures Offer(Offer(s, e, n), e, 0) == Offer(s, e, n)
  {
    var t := Offer(s, e, n);
    OfferOneMore(s, e, n);
    OfferOneMore(t, e, 0);
    assert t.buffer + Repeat(e, 0) == t.buffer;
  }

  /** The owner takes the oldest buffered event, if there is one. */
  function TakeOne<E>(s: Sub<E>): (r: Sub<E>)
    ensures r.Accepted() == s.Accepted() && (s.Fits() ==> r.Fits())
    ensures r.channels == s.channels && r.capacity == s.capacity && r.open == s.open
  {
    if s.buffer == [] then s
    else
      assert s.buffer == [s.buffer[0]] + s.buffer[1..];
      s.(received := s.received + [s.buffer[0]], buffer := s.buffer[1..])
  }

  // ---- runs --------------------------------------------------------------

  datatype Step<E> =
    | Subscribe(id: nat, channels: Channels)
    | Publish(event: E, to: Channels)
    | Unsubscribe(id: nat)
    | Receive(id: nat)

  type State<E> = map<nat, Sub<E>>

  ghost predicate AllFit<E>(st: State<E>) {
    forall id :: id in st ==> st[id].Fits()
  }

  ghost function Apply<E>(cap: nat, st: State<E>, step: Step<E>): (r: State<E>)
    requires AllFit(st)
    ensures AllFit(r)
  {
    match step
    case Subscribe(id, channels) =>
      if channels == [] || id in st then st else st[id := Sub(channels, cap, [], [], true)]
    case Publish(e, to) =>
      map id | id in st :: Offer(st[id], e, Matches(to, st[id].channels))
    case Unsubscribe(id) =>
      if id in st then st[id := st[id].(open := false)] else st
    case Receive(id) =>
      if id in st then st[id := TakeOne(st[id])] else st
  }

  ghost function Run<E>(cap: nat, steps: seq<Step<E>>): (st: State<E>)
    ensures AllFit(st)
  {
    if steps == [] then map[] else Apply(cap, Run(cap, steps[..|steps| - 1]), steps[|steps| - 1])
  }

  lemma RunAppend<E>(cap: nat, steps: seq<Step<E>>, step: Step<E>)
    ensures Run(cap, steps + [step]) == Apply(cap, Run(cap, steps), step)
  {
    assert (steps + [step])[..|steps|] == steps;
  }

  lemma {:induction false} MatchesJoin(a: Channels, b: Channels, channels: Channels)
    ensures Matches(a + b, channels) == Matches(a, channels) + Matches(b, channels)
  {
    if b == [] {
      assert a + b == a;
    } else {
      var n := |b| - 1;
      assert (a + b)[..|a| + n] == a + b[..n];
      MatchesJoin(a, b[..n], channels);
    }
  }

  lemma {:induction false} OffersAdd<E>(s: Sub<E>, e: E, m: nat, n: nat)
    requires s.Fits()
    ensures Offer(Offer(s, e, m), e, n) == Offer(s, e, m + n)
  {
    hide Offer;
    if n == 0 {
      OfferNothing(Offer(s, e, m), e);
    } else {
      OffersAdd(s, e, m, n - 1);
      OfferAgain(Offer(s, e, m), e, n - 1);
      OfferAgain(s, e, m + n - 1);
    }
  }

  /** A Publish is the same as one Publish per entry of its channel list, so that receives falling
      between its sends are runs too. */
  lemma PublishSplits<E>(cap: nat, st: State<E>, e: E, a: Channels, b: Channels)
    requires AllFit(st)
    ensures Apply(cap, st, Publish(e, a + b)) == Apply(cap, Apply(cap, st, Publish(e, a)), Publish(e, b))
  {
    hide Offer, Matches;
    forall id | id in st
      ensures var s := st[id];
              Offer(s, e, Matches(a + b, s.channels))
              == Offer(Offer(s, e, Matches(a, s.channels)), e, Matches(b, s.channels))
    {
      MatchesJoin(a, b, st[id].channels);
      OffersAdd(st[id], e, Matches(a, st[id].channels), Matches(b, st[id].channels));
    }
  }

  /** The channels under which a subscription was made, read off the run. */
  function Listening<E>(steps: seq<Step<E>>, id: nat): Option<Channels> {
    if steps == [] then None
    else
      var n := |steps| - 1;
      var before := Listening(steps[..n], id);
      if before.Some? then before
      else if steps[n].Subscribe? && steps[n].id == id && steps[n].channels != [] then Some(steps[n].channels)
      else None
  }

  /** The ideal stream: every Publish since the subscription, once per matching list entry. */
  function Ideal<E>(steps: seq<Step<E>>, id: nat): seq<E> {
    if steps == [] then []
    else
      var n := |steps| - 1;
      var before := Ideal(steps[..n], id);
      match Listening(steps[..n], id)
      case None => before
      case Some(channels) =>
        if steps[n].Publish? then before + Repeat(steps[n].event, Matches(steps[n].to, channels)) else before
  }

  /** Step `j` published more matching copies than the open subscription had room for. */
  ghost predicate EvictedAt<E>(cap: nat, steps: seq<Step<E>>, id: nat, j: nat) {
    && j < |steps| && steps[j].Publish?
    && var st := Run(cap, steps[..j]);
       id in st && st[id].open && Matches(steps[j].to, st[id].channels) > st[id].Room()
  }

  ghost predicate LeftAt<E>(cap: nat, steps: seq<Step<E>>, id: nat, j: nat) {
    && j < |steps| && steps[j] == Unsubscribe(id)
    && var st := Run(cap, steps[..j]);
       id in st && st[id].open
  }

  ghost predicate ClosedBefore<E>(cap: nat, steps: seq<Step<E>>, id: nat) {
    exists j: nat :: EvictedAt(cap, steps, id, j) || LeftAt(cap, steps, id, j)
  }

  /** The run and the ideal stream agree on which subscriptions exist. */
  lemma {:induction false} ListeningIs<E>(cap: nat, steps: seq<Step<E>>, id: nat)
    ensures Listening(steps, id) ==
      (if id in Run(cap, steps) then Some(Run(cap, steps)[id].channels) else None)
    ensures id in Run(cap, steps) ==> Run(cap, steps)[id].capacity == cap
    ensures id !in Run(cap, steps) ==> Ideal(steps, id) == []
  {
    if steps != [] {
      ListeningIs(cap, steps[..|steps| - 1], id);
    }
  }

  /** A step other than Publish neither adds to what a subscription accepted nor reopens it. */
  lemma OtherStep<E>(cap: nat, st: State<E>, step: Step<E>, id: nat)
    requires AllFit(st) && id in st && !step.Publish?
    ensures var r := Apply(cap, st, step);
            && id in r
            && r[id].Accepted() == st[id].Accepted()
            && (r[id].open ==> st[id].open)
            && (st[id].open && !r[id].open ==> step == Unsubscribe(id))
  {
  }

  /** What was received and what is buffered is a prefix of the ideal stream, all of it while the
      subscription is open. */
  lemma {:induction false} DeliveredPrefix<E>(cap: nat, steps: seq<Step<E>>, id: nat)
    requires id in Run(cap, steps)
    ensures var s := Run(cap, steps)[id];
            s.Accepted() <= Ideal(steps, id) && (s.open ==> s.Accepted() == Ideal(steps, id))
  {
    var n := |steps| - 1;
    var init, last := steps[..n], steps[n];
    var before := Run(cap, init);
    ListeningIs(cap, init, id);
    if id in before {
      hide Listening, Matches, Offer;
      DeliveredPrefix(cap, init, id);
      if last.Publish? {
        OfferAccepts(before[id], last.event, Matches(last.to, before[id].channels), Ideal(init, id));
      } else {
        hide Apply;
        OtherStep(cap, before, last, id);
      }
    }
  }

  lemma OfferAccepts<E>(s: Sub<E>, e: E, n: nat, ideal: seq<E>)
    requires s.Fits() && s.Accepted() <= ideal && (s.open ==> s.Accepted() == ideal)
    ensures var t := Offer(s, e, n);
            && t.Accepted() <= ideal + Repeat(e, n)
            && (t.open ==> t.Accepted() == ideal + Repeat(e, n))
  {
    if s.open {
      var m := if n <= s.Room() then n else s.Room();
      assert Offer(s, e, n).Accepted() == ideal + Repeat(e, m);
      assert Repeat(e, m) <= Repeat(e, n);
    }
  }

  /** A closed subscription accepts nothing more and never reopens. */
  lemma {:induction false} ClosedIsFinal<E>(cap: nat, steps: seq<Step<E>>, id: nat, j: nat)
    requires j <= |steps|
    requires id in Run(cap, steps[..j]) && !Run(cap, steps[..j])[id].open
    ensures id in Run(cap, steps)
    ensures !Run(cap, steps)[id].open
    ensures Run(cap, steps)[id].Accepted() == Run(cap, steps[..j])[id].Accepted()
  {
    if j == |steps| {
      assert steps[..j] == steps;
    } else {
      var n := |steps| - 1;
      assert steps[..n][..j] == steps[..j];
      ClosedIsFinal(cap, steps[..n], id, j);
      if !steps[n].Publish? {
        hide Apply;
        OtherStep(cap, Run(cap, steps[..n]), steps[n], id);
      }
    }
  }

  lemma PrefixInit<T>(q: seq<T>, j: nat)
    requires j < |q|
    ensures var p := q[..j + 1];
            |p| == j + 1 && p[..|p| - 1] == q[..j] && p[|p| - 1] == q[j]
  {
  }

  /** An evicted subscription holds the ideal stream up to exactly the first event that did not fit. */
  lemma EvictionStopsAtFirstMiss<E>(cap: nat, steps: seq<Step<E>>, id: nat, j: nat)
    requires EvictedAt(cap, steps, id, j)
    ensures id in Run(cap, steps) && !Run(cap, steps)[id].open
    ensures var st := Run(cap, steps[..j]);
            Run(cap, steps)[id].Accepted() == Ideal(steps[..j], id) + Repeat(steps[j].event, st[id].Room())
    ensures var got := Run(cap, steps)[id].Accepted();
            |got| < |Ideal(steps, id)| && Ideal(steps, id)[|got|] == steps[j].event
  {
    var init, upTo := steps[..j], steps[..j + 1];
    var s, e := Run(cap, init)[id], steps[j].event;
    EvictingStep(cap, steps, id, j);
    hide Run, Ideal, Offer, Matches;
    ClosedIsFinal(cap, steps, id, j + 1);
    IdealGrows(steps, id, j + 1);
  }

  /** The step that evicts: what has been accepted right after it, and how far the ideal stream got. */
  lemma EvictingStep<E>(cap: nat, steps: seq<Step<E>>, id: nat, j: nat)
    requires EvictedAt(cap, steps, id, j)
    ensures var s, e := Run(cap, steps[..j])[id], steps[j].event;
            var after := Run(cap, steps[..j + 1]);
            && id in after && !after[id].open
            && after[id].Accepted() == Ideal(steps[..j], id) + Repeat(e, s.Room())
            && Ideal(steps[..j + 1], id) == Ideal(steps[..j], id) + Repeat(e, Matches(steps[j].to, s.channels))
  {
    var init, upTo := steps[..j], steps[..j + 1];
    PrefixInit(steps, j);
    var s, e := Run(cap, init)[id], steps[j].event;
    DeliveredPrefix(cap, init, id);
    ListeningIs(cap, init, id);
    hide Listening, Matches;
    assert s.received + (s.buffer + Repeat(e, s.Room())) == s.Accepted() + Repeat(e, s.Room());
  }

  lemma {:induction false} IdealGrows<E>(steps: seq<Step<E>>, id: nat, j: nat)
    requires j <= |steps|
    ensures Ideal(steps[..j], id) <= Ideal(steps, id)
  {
    if j == |steps| {
      assert steps[..j] == steps;
    } else {
      var n := |steps| - 1;
      assert steps[..n][..j] == steps[..j];
      IdealGrows(steps[..n], id, j);
    }
  }

  /** A subscription is closed exactly if some Publish overran it or somebody closed it. */
  lemma {:induction false} ClosedOnlyByEvictionOrLeaving<E>(cap: nat, steps: seq<Step<E>>, id: nat)
    requires id in Run(cap, steps)
    ensures Run(cap, steps)[id].open <==> !ClosedBefore(cap, steps, id)
  {
    var n := |steps| - 1;
    var init, last := steps[..n], steps[n];
    var before := Run(cap, init);
    if id in before {
      ClosedOnlyByEvictionOrLeaving(cap, init, id);
    }
    if Run(cap, steps)[id].open {
      if ClosedBefore(cap, steps, id) {
        var j: nat :| EvictedAt(cap, steps, id, j) || LeftAt(cap, steps, id, j);
        StepCloses(cap, steps, id, j);
        ClosedIsFinal(cap, steps, id, j + 1);
      }
    } else {
      if before[id].open {
        assert EvictedAt(cap, steps, id, n) || LeftAt(cap, steps, id, n);
      } else {
        var j: nat :| EvictedAt(cap, init, id, j) || LeftAt(cap, init, id, j);
        assert init[..j] == steps[..j];
        assert EvictedAt(cap, steps, id, j) || LeftAt(cap, steps, id, j);
      }
    }
  }

  lemma StepCloses<E>(cap: nat, steps: seq<Step<E>>, id: nat, j: nat)
    requires EvictedAt(cap, steps, id, j) || LeftAt(cap, steps, id, j)
    ensures id in Run(cap, steps[..j + 1]) && !Run(cap, steps[..j + 1])[id].open
  {
    PrefixInit(steps, j);
  }

  // ---- the iteration order does not matter -------------------------------

  /** The subscriptions of one channel served one after the other. */
  ghost function ServeInOrder<E>(st: State<E>, e: E, order: seq<nat>): (r: State<E>)
    requires AllFit(st)
    ensures AllFit(r) && r.Keys == st.Keys
  {
    if order == [] then st
    else
      var n := |order| - 1;
      var before := ServeInOrder(st, e, order[..n]);
      if order[n] in before then before[order[n] := Offer(before[order[n]], e, 1)] else before
  }

  /** The order lists each open subscription of the channel once, as a Go map iteration does. */
  ghost predicate Enumerates<E>(order: seq<nat>, st: State<E>, channel: Str) {
    && (forall i, j :: 0 <= i < j < |order| ==> order[i] != order[j])
    && (forall id :: id in order <==> id in st && st[id].open && channel in st[id].channels)
  }

  /** Publish with a chosen iteration order for every entry of the channel list. */
  ghost function PublishInOrders<E>(st: State<E>, e: E, orders: seq<seq<nat>>): (r: State<E>)
    requires AllFit(st)
    ensures AllFit(r) && r.Keys == st.Keys
  {
    if orders == [] then st
    else ServeInOrder(PublishInOrders(st, e, orders[..|orders| - 1]), e, orders[|orders| - 1])
  }

  ghost predicate Faithful<E>(st: State<E>, e: E, to: Channels, orders: seq<seq<nat>>)
    requires AllFit(st)
  {
    && |orders| == |to|
    && (to == [] ||
        var n := |to| - 1;
        && Faithful(st, e, to[..n], orders[..n])
        && Enumerates(orders[n], PublishInOrders(st, e, orders[..n]), to[n]))
  }

  lemma {:induction false} ServedOnceEach<E>(st: State<E>, e: E, order: seq<nat>, id: nat)
    requires AllFit(st) && id in st
    requires forall i, j :: 0 <= i < j < |order| ==> order[i] != order[j]
    ensures ServeInOrder(st, e, order)[id] == if id in order then Offer(st[id], e, 1) else st[id]
  {
    if order != [] {
      var n := |order| - 1;
      ServedOnceEach(st, e, order[..n], id);
      assert order == order[..n] + [order[n]];
    }
  }

  lemma {:induction false} PublishedEach<E>(st: State<E>, e: E, to: Channels, orders: seq<seq<nat>>, id: nat)
    requires AllFit(st) && Faithful(st, e, to, orders) && id in st
    ensures PublishInOrders(st, e, orders)[id] == Offer(st[id], e, Matches(to, st[id].channels))
  {
    if to == [] {
      assert st[id].buffer + Repeat(e, 0) == st[id].buffer;
    } else {
      var n := |to| - 1;
      PublishedEach(st, e, to[..n], orders[..n], id);
      var before := PublishInOrders(st, e, orders[..n]);
      ServedOnceEach(before, e, orders[n], id);
      OfferAgain(st[id], e, Matches(to[..n], st[id].channels));
    }
  }

  /** Every choice of iteration orders leads to the same state. */
  lemma PublishOrderIrrelevant<E>(cap: nat, st: State<E>, e: E, to: Channels, orders: seq<seq<nat>>)
    requires AllFit(st) && Faithful(st, e, to, orders)
    ensures PublishInOrders(st, e, orders) == Apply(cap, st, Publish(e, to))
  {
    forall id | id in st
      ensures PublishInOrders(st, e, orders)[id] == Apply(cap, st, Publish(e, to))[id]
    {
      PublishedEach(st, e, to, orders, id);
    }
  }
}

/** The in-memory pub/sub itself: an index from channel to subscriptions that Publish iterates while
    evictions edit it. */
module InMemPubSub {
  import opened Text
  import opened InMemDelivery

  /** A subscription and its buffered Go channel. */
  class Subscription<E> {
    const channels: Channels
    const capacity: nat
    var buffer: seq<E>
    var open: bool
    var fired: bool
    ghost const id: nat
    ghost var received: seq<E>
    ghost var closes: nat

    ghost predicate Valid()
      reads this
    {
      && |buffer| <= capacity
      && fired == !open
      && closes == if open then 0 else 1
    }

    ghost function View(): Sub<E>
      reads this
    {
      Sub(channels, capacity, received, buffer, open)
    }

    constructor (channels: Channels, capacity: nat, ghost id: nat)
      ensures Valid() && View() == Sub(channels, capacity, [], [], true) && this.id == id
    {
      this.channels, this.capacity, this.id := channels, capacity, id;
      buffer, open, fired, received, closes := [], true, false, [], 0;
    }

    /** A send inside `select` with a default branch; on a closed channel it would panic. */
    method TrySend(e: E) returns (sent: bool)
      requires Valid() && open
      modifies this
      ensures Valid()
      ensures sent <==> |old(buffer)| < capacity
      ensures View() == if sent then old(View()).(buffer := old(buffer) + [e]) else old(View())
    {
      sent := |buffer| < capacity;
      if sent {
        buffer := buffer + [e];
      }
    }

    /** `close(c)`, which panics if repeated. */
    method CloseChannel()
      requires open && closes == 0
      modifies this`open, this`closes
      ensures !open && closes == 1
    {
      open := false;
      closes := closes + 1;
    }

    /** `once.Do(close)`. */
    method CloseOnce()
      requires Valid()
      modifies this
      ensures Valid()
      ensures View() == old(View()).(open := false)
    {
      if !fired {
        CloseChannel();
        fired := true;
      }
    }

    /** A receive that does not wait. */
    method Receive() returns (r: Option<E>)
      requires Valid()
      modifies this
      ensures Valid()
      ensures r == if old(buffer) == [] then None else Some(old(buffer)[0])
      ensures View() == TakeOne(old(View()))
      ensures r.Some? ==> received == old(received) + [r.value] && old(buffer) == [r.value] + buffer
      ensures open == old(open)
    {
      if buffer == [] {
        return None;
      }
      r := Some(buffer[0]);
      received := received + [buffer[0]];
      buffer := buffer[1..];
    }
  }

  predicate Listed<S(==)>(index: map<Str, set<S>>, channel: Str, s: S) {
    channel in index && s in index[channel]
  }

  ghost predicate NoEmptySet<S>(index: map<Str, set<S>>) {
    forall c :: c in index ==> index[c] != {}
  }

  /** An index without empty sets is determined by which subscriptions it lists where. */
  lemma IndexDetermined<S>(a: map<Str, set<S>>, b: map<Str, set<S>>)
    requires NoEmptySet(a) && NoEmptySet(b)
    requires forall c, s :: Listed(a, c, s) <==> Listed(b, c, s)
    ensures a == b
  {
    forall c
      ensures c in a <==> c in b
      ensures c in a ==> a[c] == b[c]
    {
      if c in a {
        var s :| s in a[c];
        assert Listed(a, c, s);
        assert forall x :: x in a[c] <==> Listed(a, c, x);
        assert forall x :: x in b[c] <==> Listed(b, c, x);
      }
      if c in b {
        var s :| s in b[c];
        assert Listed(b, c, s);
      }
    }
  }

  /** Taking one subscription off one channel, and the channel off the index if nobody is left. */
  lemma DroppedFrom<S>(before: map<Str, set<S>>, channel: Str, s: S, after: map<Str, set<S>>)
    requires after == if channel !in before then before
                      else if before[channel] - {s} == {} then before - {channel}
                      else before[channel := before[channel] - {s}]
    ensures forall c, x :: Listed(after, c, x) <==> Listed(before, c, x) && !(c == channel && x == s)
  {
    forall c, x
      ensures Listed(after, c, x) <==> Listed(before, c, x) && !(c == channel && x == s)
    {
      if c == channel && c in before {
        assert x in before[c] - {s} <==> x in before[c] && x != s;
      }
    }
  }

  lemma AddedTo<S>(before: map<Str, set<S>>, channel: Str, s: S, after: map<Str, set<S>>)
    requires after == before[channel := (if channel in before then before[channel] else {}) + {s}]
    ensures forall c, x :: Listed(after, c, x) <==> Listed(before, c, x) || (c == channel && x == s)
  {
  }

  type Views<E> = map<Subscription<E>, Sub<E>>

  ghost predicate Fit<E>(views: Views<E>) {
    forall s :: s in views ==> views[s].Fits() && views[s].channels == s.channels
  }

  /** In the middle of a pass exactly the visited subscriptions have been offered the event. */
  ghost predicate MidPass<E>(was: Views<E>, now: Views<E>, visited: set<Subscription<E>>, event: E)
    requires Fit(was)
  {
    && now.Keys == was.Keys
    && forall s :: s in was ==> now[s] == if s in visited then Offer(was[s], event, 1) else was[s]
  }

  lemma VisitedOneMore<E>(was: Views<E>, now: Views<E>, visited: set<Subscription<E>>, event: E,
                          sub: Subscription<E>)
    requires Fit(was) && Fit(now) && MidPass(was, now, visited, event)
    requires sub in now && sub !in visited
    ensures MidPass(was, now[sub := Offer(now[sub], event, 1)], visited + {sub}, event)
  {
    hide Offer;
  }

  lemma PassDone<E>(was: Views<E>, now: Views<E>, visited: set<Subscription<E>>, event: E)
    requires Fit(was) && MidPass(was, now, visited, event)
    ensures now.Keys == was.Keys
    ensures forall s :: s in was ==> now[s] == if s in visited then Offer(was[s], event, 1) else was[s]
  {
  }

  lemma StillListed<S>(before: set<S>, after: set<S>, start: set<S>, visited: set<S>, x: S)
    requires before - visited == start - visited
    requires after - {x} == before - {x}
    ensures after - (visited + {x}) == start - (visited + {x})
  {
    forall y | y !in visited && y != x
      ensures y in after <==> y in start
    {
      assert y in after <==> y in after - {x};
      assert y in before <==> y in before - {x};
      assert y in before <==> y in before - visited;
      assert y in start <==> y in start - visited;
    }
  }

  lemma AllVisited<S>(start: set<S>, visited: set<S>)
    requires visited <= start && start - visited == {}
    ensures visited == start
  {
    forall x | x in start
      ensures x in visited
    {
      assert x !in start - visited;
    }
  }

  /** Every subscription has been offered the event once per matching entry of the channel list. */
  ghost predicate OfferedEach<E>(was: Views<E>, now: Views<E>, event: E, to: Channels)
    requires Fit(was)
  {
    && now.Keys == was.Keys
    && forall s :: s in was ==> now[s] == Offer(was[s], event, Matches(to, s.channels))
  }

  lemma OfferedNone<E>(views: Views<E>, event: E)
    requires Fit(views)
    ensures OfferedEach(views, views, event, [])
  {
    forall s | s in views
      ensures views[s] == Offer(views[s], event, Matches([], s.channels))
    {
      OfferNothing(views[s], event);
    }
  }

  lemma OfferedOneMore<E>(was: Views<E>, now: Views<E>, next: Views<E>, event: E, channels: Channels, i: nat)
    requires Fit(was) && Fit(now) && i < |channels| && OfferedEach(was, now, event, channels[..i])
    requires next.Keys == now.Keys
    requires forall s :: s in now ==> next[s] == Offer(now[s], event, if channels[i] in s.channels then 1 else 0)
    ensures OfferedEach(was, next, event, channels[..i + 1])
  {
    hide Offer, Matches;
    forall s | s in was
      ensures next[s] == Offer(was[s], event, Matches(channels[..i + 1], s.channels))
    {
      MatchesNext(channels, s.channels, i);
      OfferAgain(was[s], event, Matches(channels[..i], s.channels));
    }
  }

  /** Each subscription is in the state that the run gives its identifier, and the run knows no
      other identifiers. */
  ghost predicate Tracks<E>(views: Views<E>, run: State<E>, n: nat) {
    && (forall s :: s in views ==> s.id < n && s.id in run && run[s.id] == views[s])
    && (forall s, t :: s in views && t in views && s.id == t.id ==> s == t)
    && (forall id :: id in run ==> exists s :: s in views && s.id == id)
  }

  lemma TracksPublish<E>(views: Views<E>, run: State<E>, n: nat, cap: nat, event: E, to: Channels, now: Views<E>)
    requires AllFit(run) && Fit(views) && Tracks(views, run, n) && OfferedEach(views, now, event, to)
    ensures Tracks(now, Apply(cap, run, Step.Publish(event, to)), n + 1)
  {
    hide Offer, Matches;
  }

  lemma TracksUnsubscribe<E>(views: Views<E>, run: State<E>, n: nat, cap: nat, sub: Subscription<E>)
    requires AllFit(run) && Tracks(views, run, n) && sub in views
    ensures Tracks(views[sub := views[sub].(open := false)], Apply(cap, run, Step.Unsubscribe(sub.id)), n + 1)
  {
  }

  lemma TracksReceive<E>(views: Views<E>, run: State<E>, n: nat, cap: nat, sub: Subscription<E>)
    requires AllFit(run) && Tracks(views, run, n) && sub in views
    ensures Tracks(views[sub := TakeOne(views[sub])], Apply(cap, run, Step.Receive(sub.id)), n + 1)
  {
    hide TakeOne;
  }

  lemma TracksNobody<E>(views: Views<E>, run: State<E>, cap: nat, id: nat)
    requires AllFit(run) && Tracks(views, run, id)
    ensures Tracks(views, Apply(cap, run, Step.Subscribe(id, [])), id + 1)
  {
  }

  lemma TracksSubscribe<E>(views: Views<E>, run: State<E>, cap: nat, sub: Subscription<E>, channels: Channels)
    requires AllFit(run) && Tracks(views, run, sub.id) && sub !in views && channels != []
    ensures Tracks(views[sub := Sub(channels, cap, [], [], true)],
                   Apply(cap, run, Step.Subscribe(sub.id, channels)), sub.id + 1)
  {
    assert sub.id !in run;
  }

  class PubSub<E> {
    const eventBufferSize: nat
    var index: map<Str, set<Subscription<E>>>
    ghost var all: set<Subscription<E>>
    ghost var history: seq<Step<E>>

    /** The index holds exactly the open subscriptions under exactly their channels. */
    ghost predicate Indexed()
      reads this`index, this`all, all
    {
      && NoEmptySet(index)
      && (forall c :: c in index ==> index[c] <= all)
      && (forall c, s :: s in all ==> (Listed(index, c, s) <==> s.open && c in s.channels))
    }

    ghost predicate Valid()
      reads this`index, this`all, all
    {
      && eventBufferSize >= 1
      && (forall s :: s in all ==> s.Valid() && s.capacity == eventBufferSize)
      && Indexed()
    }

    /** The subscriptions are in the state that the calls made so far lead to. */
    ghost predicate Recorded()
      reads this, all
    {
      Tracks(Views(), Run(eventBufferSize, history), |history|)
    }

    ghost function Views(): (views: Views<E>)
      reads this`all, this`index, all
      ensures views.Keys == all
      ensures forall s :: s in all ==> views[s] == s.View()
      ensures Valid() ==> Fit(views)
    {
      map s | s in all :: s.View()
    }

    constructor (eventBufferSize: nat)
      requires eventBufferSize >= 1
      ensures Valid() && Recorded() && all == {} && history == [] && this.eventBufferSize == eventBufferSize
    {
      this.eventBufferSize := eventBufferSize;
      index, all, history := map[], {}, [];
    }

    twostate lemma OnlyOneChanged(sub: Subscription<E>)
      requires all == old(all) && sub in all
      requires forall s :: s in all && s != sub ==> unchanged(s)
      ensures Views() == old(Views())[sub := sub.View()]
    {
      forall s | s in all && s != sub
        ensures Views()[s] == old(Views())[s]
      {
        assert s.View() == old(s.View());
      }
    }

    /** Notes down a call whose effect the subscriptions already show. */
    ghost method Record(step: Step<E>)
      requires Tracks(Views(), Apply(eventBufferSize, Run(eventBufferSize, history), step), |history| + 1)
      modifies this`history
      ensures Recorded() && history == old(history) + [step]
    {
      hide Run, Apply, Tracks;
      RunAppend(eventBufferSize, history, step);
      history := history + [step];
    }

    /** The delivery guarantee of the live objects: what a subscription has been given is a prefix of
        what was published to it since it was made, and all of that while it is open. */
    lemma Delivered(sub: Subscription<E>)
      requires Valid() && Recorded() && sub in all
      ensures sub.View().Accepted() <= Ideal(history, sub.id)
      ensures sub.open ==> sub.View().Accepted() == Ideal(history, sub.id)
      ensures Listening(history, sub.id) == Some(sub.channels)
      ensures !sub.open <==> ClosedBefore(eventBufferSize, history, sub.id)
    {
      DeliveredPrefix(eventBufferSize, history, sub.id);
      ListeningIs(eventBufferSize, history, sub.id);
      ClosedOnlyByEvictionOrLeaving(eventBufferSize, history, sub.id);
    }

    method RemoveSubscription(sub: Subscription<E>)
      requires Valid() && sub in all
      modifies this`index, sub
      ensures Valid()
      ensures sub.View() == old(sub.View()).(open := false)
      ensures forall c, s :: Listed(index, c, s) <==> Listed(old(index), c, s) && s != sub
      ensures !old(sub.open) ==> index == old(index)
    {
      sub.CloseOnce();
      var n := |sub.channels|;
      for i := 0 to n
        invariant sub.View() == old(sub.View()).(open := false) && sub.Valid()
        invariant NoEmptySet(index)
        invariant forall c :: c in index ==> index[c] <= all
        invariant forall c, s :: Listed(index, c, s) <==>
                    Listed(old(index), c, s) && (s != sub || c !in sub.channels[..i])
      {
        var channel := sub.channels[i];
        ghost var before := index;
        if channel in index {
          var subs := index[channel] - {sub};
          if subs == {} {
            index := index - {channel};
          } else {
            index := index[channel := subs];
          }
        }
        DroppedFrom(before, channel, sub, index);
        assert forall c :: c in sub.channels[..i + 1] <==> c in sub.channels[..i] || c == channel;
      }
      assert sub.channels[..n] == sub.channels;
      if !old(sub.open) {
        IndexDetermined(index, old(index));
      }
    }

    /** Sends to one subscription of the channel being served, or evicts it. */
    method SendOrEvict(sub: Subscription<E>, event: E)
      requires Valid() && sub in all && sub.open
      modifies this`index, sub
      ensures Valid()
      ensures sub.View() == Offer(old(sub.View()), event, 1)
      ensures forall c, s :: Listed(index, c, s) <==> Listed(old(index), c, s) && (s != sub || sub.open)
    {
      OfferOneMore(sub.View(), event, 0);
      assert sub.View().buffer + Repeat(event, 0) == sub.View().buffer;
      var sent := sub.TrySend(event);
      if !sent {
        RemoveSubscription(sub);
      }
    }

    /** The subscriptions the channel lists right now. */
    function Live(channel: Str): set<Subscription<E>>
      reads this`index
    {
      if channel in index then index[channel] else {}
    }

    /** One round of the pass over a channel: nobody else enters or leaves the channel's live set. */
    method Visit(sub: Subscription<E>, event: E, channel: Str)
      requires Valid() && sub in Live(channel)
      modifies this`index, sub
      ensures Valid()
      ensures Views() == old(Views())[sub := Offer(old(sub.View()), event, 1)]
      ensures Live(channel) - {sub} == old(Live(channel)) - {sub}
    {
      LiveIsOpen(channel);
      hide Offer, NoEmptySet, Listed, Indexed;
      SendOrEvict(sub, event);
      LiveIsOpen(channel);
      OnlyOneChanged(sub);
    }

    /** Ranges over the live set of the channel, each subscription at most once, in any order, while
        evictions delete from that very set and in the end drop the channel.  Whoever has not been
        visited is still in the set at every round, so nobody is skipped. */
    method Serve(event: E, channel: Str)
      requires Valid()
      modifies this`index, all
      ensures Valid()
      ensures forall s :: s in all ==>
                s.View() == if s in old(Live(channel)) then Offer(old(s.View()), event, 1) else old(s.View())
    {
      ghost var start, was := Live(channel), Views();
      LiveIsOpen(channel);
      assert start <= all && MidPass(was, Views(), {}, event);
      hide Offer, Live, MidPass, Fit, Views, Valid;
      var visited: set<Subscription<E>> := {};
      while Live(channel) - visited != {}
        invariant Valid() && visited <= start <= all
        invariant Live(channel) - visited == start - visited
        invariant MidPass(was, Views(), visited, event)
        decreases start - visited
      {
        var sub :| sub in Live(channel) - visited;
        assert sub in start - visited;
        ghost var live, now := Live(channel), Views();
        Visit(sub, event, channel);
        VisitedOneMore(was, now, visited, event, sub);
        StillListed(live, Live(channel), start, visited, sub);
        visited := visited + {sub};
      }
      AllVisited(start, visited);
      PassDone(was, Views(), visited, event);
    }

    lemma LiveIsOpen(channel: Str)
      requires Valid()
      ensures forall s :: s in Live(channel) <==> s in all && s.open && channel in s.channels
    {
      assert forall s :: s in Live(channel) <==> Listed(index, channel, s);
    }

    /** Serves the subscriptions of one channel. */
    method PublishTo(event: E, channel: Str)
      requires Valid()
      modifies this`index, all
      ensures Valid()
      ensures forall s :: s in all ==> s.View() == Offer(old(s.View()), event, if channel in s.channels then 1 else 0)
    {
      LiveIsOpen(channel);
      if channel in index {
        Serve(event, channel);
      }
      forall s | s in all && !(old(s.open) && channel in s.channels)
        ensures s.View() == Offer(old(s.View()), event, if channel in s.channels then 1 else 0)
      {
        OfferNothing(old(s.View()), event);
      }
    }

    method PublishNext(event: E, channels: Channels, i: nat, ghost was: Views<E>)
      requires Valid() && i < |channels|
      requires Fit(was) && OfferedEach(was, Views(), event, channels[..i])
      modifies this`index, all
      ensures Valid() && OfferedEach(was, Views(), event, channels[..i + 1])
    {
      ghost var now := Views();
      PublishTo(event, channels[i]);
      hide Offer, Matches, Indexed, OfferedEach;
      OfferedOneMore(was, now, Views(), event, channels, i);
    }

    /** The two nested loops of Publish. */
    method Deliver(event: E, channels: Channels)
      requires Valid()
      modifies this`index, all
      ensures Valid() && OfferedEach(old(Views()), Views(), event, channels)
    {
      ghost var was := Views();
      OfferedNone(was, event);
      hide Fit, Views, OfferedEach, Valid;
      assert channels[..0] == [];
      for i := 0 to |channels|
        invariant Valid() && Fit(was) && OfferedEach(was, Views(), event, channels[..i])
      {
        PublishNext(event, channels, i, was);
      }
      assert channels[..|channels|] == channels;
    }

    /** Whatever order the maps are iterated in, each subscription ends up as if it had been offered
        the event once per matching entry of the channel list; the index follows from that. */
    method Publish(event: E, channels: Channels) returns (ok: bool)
      requires Valid() && Recorded()
      modifies this`index, this`history, all
      ensures Valid() && Recorded() && history == old(history) + [Step.Publish(event, channels)]
      ensures ok <==> channels != []
      ensures !ok ==> index == old(index)
      ensures OfferedEach(old(Views()), Views(), event, channels)
    {
      hide Run, Apply, Tracks, Fit, Views, Valid, OfferedEach;
      ghost var was, run := Views(), Run(eventBufferSize, history);
      OfferedNone(was, event);
      ok := channels != [];
      if ok {
        Deliver(event, channels);
      }
      TracksPublish(was, run, |history|, eventBufferSize, event, channels, Views());
      Record(Step.Publish(event, channels));
    }

    /** Lists the new subscription under each of its channels. */
    method Enlist(sub: Subscription<E>)
      requires Valid() && sub.Valid() && sub.open && sub !in all && sub.capacity == eventBufferSize
      requires forall c :: !Listed(index, c, sub)
      modifies this`index, this`all
      ensures Valid() && all == old(all) + {sub}
    {
      var n := |sub.channels|;
      for i := 0 to n
        invariant all == old(all) && NoEmptySet(index)
        invariant forall c :: c in index ==> index[c] <= all + {sub}
        invariant forall c, s :: s in all + {sub} ==>
                    (Listed(index, c, s) <==> Listed(old(index), c, s) || (s == sub && c in sub.channels[..i]))
      {
        var c := sub.channels[i];
        var subs: set<Subscription<E>> := if c in index then index[c] else {};
        ghost var before := index;
        index := index[c := subs + {sub}];
        AddedTo(before, c, sub, index);
        assert forall x :: x in sub.channels[..i + 1] <==> x in sub.channels[..i] || x == c;
      }
      assert sub.channels[..n] == sub.channels;
      all := all + {sub};
    }

    method Enroll(channels: Channels, ghost id: nat) returns (sub: Subscription<E>)
      requires Valid()
      modifies this`index, this`all
      ensures Valid() && fresh(sub) && sub.id == id
      ensures all == old(all) + {sub}
      ensures Views() == old(Views())[sub := Sub(channels, eventBufferSize, [], [], true)]
    {
      hide Indexed, Fit;
      sub := new Subscription<E>(channels, eventBufferSize, id);
      Unlisted(sub);
      Enlist(sub);
    }

    lemma Unlisted(sub: Subscription<E>)
      requires Valid() && sub !in all
      ensures forall c :: !Listed(index, c, sub)
    {
    }

    method Subscribe(channels: Channels) returns (r: Option<Subscription<E>>)
      requires Valid() && Recorded()
      modifies this`index, this`all, this`history
      ensures Valid() && Recorded() && history == old(history) + [Step.Subscribe(|old(history)|, channels)]
      ensures r.None? <==> channels == []
      ensures r.None? ==> all == old(all) && index == old(index)
      ensures r.Some? ==> fresh(r.value) && all == old(all) + {r.value} && r.value.id == |old(history)|
      ensures r.Some? ==> r.value.View() == Sub(channels, eventBufferSize, [], [], true)
    {
      hide Run, Apply, Tracks, Valid, Fit, Views;
      ghost var was, run := Views(), Run(eventBufferSize, history);
      if channels == [] {
        TracksNobody(was, run, eventBufferSize, |history|);
        r := None;
      } else {
        var sub := Enroll(channels, |history|);
        TracksSubscribe(was, run, eventBufferSize, sub, channels);
        r := Some(sub);
      }
      Record(Step.Subscribe(|history|, channels));
    }

    /** Closes and unlists; nobody else's state changes. */
    method CloseAndUnlist(sub: Subscription<E>)
      requires Valid() && sub in all
      modifies this`index, sub
      ensures Valid()
      ensures Views() == old(Views())[sub := old(sub.View()).(open := false)]
      ensures !old(sub.open) ==> index == old(index)
    {
      hide Indexed, Listed, Fit;
      RemoveSubscription(sub);
      OnlyOneChanged(sub);
    }

    /** `Unsubscribe`, which is also what `Subscription.Close` calls; closing twice is harmless. */
    method Unsubscribe(sub: Subscription<E>)
      requires Valid() && Recorded() && sub in all
      modifies this`index, this`history, sub
      ensures Valid() && Recorded() && history == old(history) + [Step.Unsubscribe(sub.id)]
      ensures sub.View() == old(sub.View()).(open := false)
      ensures !old(sub.open) ==> index == old(index)
    {
      hide Run, Apply, Tracks, Valid, Fit, Views;
      TracksUnsubscribe(Views(), Run(eventBufferSize, history), |history|, eventBufferSize, sub);
      CloseAndUnlist(sub);
      Record(Step.Unsubscribe(sub.id));
    }

    method TakeFrom(sub: Subscription<E>) returns (r: Option<E>)
      requires Valid() && sub in all
      modifies sub
      ensures Valid()
      ensures Views() == old(Views())[sub := TakeOne(old(sub.View()))]
      ensures r.None? <==> old(sub.buffer) == []
      ensures r.Some? ==> sub.received == old(sub.received) + [r.value]
    {
      hide TakeOne, Fit;
      r := sub.Receive();
      OnlyOneChanged(sub);
    }

    /** The owner takes the next event, if one is buffered. */
    method Receive(sub: Subscription<E>) returns (r: Option<E>)
      requires Valid() && Recorded() && sub in all
      modifies this`history, sub
      ensures Valid() && Recorded() && history == old(history) + [Step.Receive(sub.id)]
      ensures r.None? <==> old(sub.buffer) == []
      ensures r.Some? ==> sub.received == old(sub.received) + [r.value]
    {
      hide Run, Apply, Tracks, TakeOne, Valid, Fit, Views;
      TracksReceive(Views(), Run(eventBufferSize, history), |history|, eventBufferSize, sub);
      r := TakeFrom(sub);
      Record(Step.Receive(sub.id));
    }
  }
}

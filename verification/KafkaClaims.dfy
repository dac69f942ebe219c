/** The consumer-group acknowledgement loop over one partition: deliver, wait for the first Ack or
    Nack, mark or skip, or end with the session; then the next session resumes after the last mark. */
module KafkaClaims {
  import opened Text

  /** `messageAcker`: the first response wins and is sent on a channel of capacity one. */
  class MessageAcker {
    var fired: bool
    var done: Option<bool>
    ghost var calls: seq<bool>

    ghost predicate Valid()
      reads this
    {
      && fired == (calls != [])
      && done == FirstResponse(calls)
    }

    constructor ()
      ensures Valid() && calls == []
    {
      fired, done, calls := false, None, [];
    }

    /** `Ack` is `Respond(true)` and `Nack` is `Respond(false)`. */
    method Respond(ack: bool)
      requires Valid()
      modifies this
      ensures Valid() && calls == old(calls) + [ack]
      ensures done == if old(calls) == [] then Some(ack) else old(done)
    {
      if !fired {
        done := Some(ack);
        fired := true;
      }
      calls := calls + [ack];
    }
  }

  function FirstResponse(calls: seq<bool>): Option<bool> {
    if calls == [] then None else Some(calls[0])
  }

  // ---- the protocol ------------------------------------------------------

  /** What became of a delivered message: still undecided, marked, or skipped after a Nack. */
  datatype Verdict = Undecided | Marked | Skipped

  datatype Delivery = Delivery(offset: nat, response: Option<bool>, verdict: Verdict)

  /** Where `ConsumeClaim` stands: at the outer select, sending a fetched message, waiting for the
      acker of the last delivery, or returned. */
  datatype Phase = Idle | Sending | Waiting | Ended

  datatype Session = Session(start: nat, deliveries: seq<Delivery>, phase: Phase)

  /** One partition: its log end, the offset the group resumes at, and all sessions so far. */
  datatype Group = Group(base: nat, logEnd: nat, resume: nat, sessions: seq<Session>)

  datatype Event =
    | Produce
    | Open
    | Fetch
    | Deliver
    | Respond(session: nat, delivery: nat, ack: bool)
    | Observe
    | End

  predicate Active(g: Group, phase: Phase) {
    g.sessions != [] && g.sessions[|g.sessions| - 1].phase == phase
  }

  function Current(g: Group): Session
    requires g.sessions != []
  {
    g.sessions[|g.sessions| - 1]
  }

  predicate Enabled(g: Group, e: Event) {
    match e
    case Produce => true
    case Open => g.sessions == [] || Active(g, Ended)
    case Fetch => Active(g, Idle) && Current(g).start + |Current(g).deliveries| < g.logEnd
    case Deliver => Active(g, Sending)
    case Respond(i, j, _) => i < |g.sessions| && j < |g.sessions[i].deliveries|
    case Observe => Active(g, Waiting) && Current(g).deliveries != []
                    && Current(g).deliveries[|Current(g).deliveries| - 1].response.Some?
    case End => g.sessions != [] && !Active(g, Ended)
  }

  function WithCurrent(g: Group, s: Session): Group
    requires g.sessions != []
  {
    g.(sessions := g.sessions[|g.sessions| - 1 := s])
  }

  function Answer(d: Delivery, ack: bool): Delivery {
    if d.response.None? then d.(response := Some(ack)) else d
  }

  function Max(a: nat, b: nat): nat {
    if a < b then b else a
  }

  function Next(g: Group, e: Event): Group
    requires Enabled(g, e)
  {
    match e
    case Produce => g.(logEnd := g.logEnd + 1)
    case Open => g.(sessions := g.sessions + [Session(g.resume, [], Idle)])
    case Fetch => WithCurrent(g, Current(g).(phase := Sending))
    case Deliver =>
      var s := Current(g);
      WithCurrent(g, s.(deliveries := s.deliveries + [Delivery(s.start + |s.deliveries|, None, Undecided)],
                        phase := Waiting))
    case Respond(i, j, ack) =>
      var s := g.sessions[i];
      g.(sessions := g.sessions[i := s.(deliveries := s.deliveries[j := Answer(s.deliveries[j], ack)])])
    case Observe =>
      var s := Current(g);
      var n := |s.deliveries| - 1;
      var d := s.deliveries[n];
      if d.response.value then
        WithCurrent(g, s.(deliveries := s.deliveries[n := d.(verdict := Marked)], phase := Idle))
          .(resume := Max(g.resume, d.offset + 1))
      else
        WithCurrent(g, s.(deliveries := s.deliveries[n := d.(verdict := Skipped)], phase := Idle))
    case End => WithCurrent(g, Current(g).(phase := Ended))
  }

  /** The state after a list of events, if every one of them was possible. */
  function RunFrom(g: Group, events: seq<Event>): Option<Group> {
    if events == [] then Some(g)
    else
      var n := |events| - 1;
      match RunFrom(g, events[..n])
      case None => None
      case Some(h) => if Enabled(h, events[n]) then Some(Next(h, events[n])) else None
  }

  function Start(base: nat, logEnd: nat): Group {
    Group(base, logEnd, base, [])
  }

  // ---- the invariant -----------------------------------------------------

  /** The offset after the last marked delivery, or the start if nothing was marked. */
  function ResumeOf(start: nat, ds: seq<Delivery>): nat {
    if ds == [] then start
    else
      var n := |ds| - 1;
      if ds[n].verdict == Marked then ds[n].offset + 1 else ResumeOf(start, ds[..n])
  }

  ghost predicate DeliveryOk(start: nat, ds: seq<Delivery>, j: nat)
    requires j < |ds|
  {
    && ds[j].offset == start + j
    && (ds[j].verdict == Marked ==> ds[j].response == Some(true))
    && (ds[j].verdict == Skipped ==> ds[j].response == Some(false))
    && (j + 1 < |ds| ==> ds[j].verdict != Undecided)
  }

  ghost predicate SessionOk(s: Session) {
    && (forall j :: 0 <= j < |s.deliveries| ==> DeliveryOk(s.start, s.deliveries, j))
    && (s.phase == Waiting ==> s.deliveries != [] && s.deliveries[|s.deliveries| - 1].verdict == Undecided)
    && (s.phase == Idle || s.phase == Sending ==>
          forall j :: 0 <= j < |s.deliveries| ==> s.deliveries[j].verdict != Undecided)
  }

  function StartOf(base: nat, sessions: seq<Session>, i: nat): nat
    requires i <= |sessions|
  {
    if i == 0 then base else ResumeOf(sessions[i - 1].start, sessions[i - 1].deliveries)
  }

  ghost predicate Inv(g: Group) {
    && (forall i :: 0 <= i < |g.sessions| ==> SessionOk(g.sessions[i]))
    && (forall i :: 0 <= i < |g.sessions| ==> g.sessions[i].start == StartOf(g.base, g.sessions, i))
    && g.resume == StartOf(g.base, g.sessions, |g.sessions|)
    && (forall i :: 0 <= i < |g.sessions| - 1 ==> g.sessions[i].phase == Ended)
  }

  lemma {:induction false} ResumeOfSame(start: nat, a: seq<Delivery>, b: seq<Delivery>)
    requires |a| == |b|
    requires forall j :: 0 <= j < |a| ==> a[j].offset == b[j].offset && a[j].verdict == b[j].verdict
    ensures ResumeOf(start, a) == ResumeOf(start, b)
  {
    if a != [] {
      ResumeOfSame(start, a[..|a| - 1], b[..|b| - 1]);
    }
  }

  ghost predicate NoneMarkedFrom(ds: seq<Delivery>, j: nat) {
    forall l :: j <= l < |ds| ==> ds[l].verdict != Marked
  }

  ghost predicate Contiguous(start: nat, ds: seq<Delivery>) {
    forall j :: 0 <= j < |ds| ==> ds[j].offset == start + j
  }

  lemma {:induction false} ResumeOfBounds(start: nat, ds: seq<Delivery>)
    requires Contiguous(start, ds)
    ensures start <= ResumeOf(start, ds) <= start + |ds|
  {
    if ds != [] {
      ResumeOfBounds(start, ds[..|ds| - 1]);
    }
  }

  /** The resume point stays at or below a delivery exactly if nothing from it on was marked. */
  lemma {:induction false} ResumeOfAt(start: nat, ds: seq<Delivery>, j: nat)
    requires Contiguous(start, ds) && j <= |ds|
    ensures ResumeOf(start, ds) <= start + j <==> NoneMarkedFrom(ds, j)
  {
    if j == |ds| {
      ResumeOfBounds(start, ds);
    } else {
      var n := |ds| - 1;
      var init := ds[..n];
      ResumeOfAt(start, init, j);
      if ds[n].verdict != Marked {
        assert forall l :: j <= l < n ==> init[l] == ds[l];
      }
    }
  }

  /** Replacing the last session by one with the same start keeps everything before it in place. */
  lemma ReplaceCurrent(g: Group, s: Session)
    requires Inv(g) && g.sessions != [] && s.start == Current(g).start && SessionOk(s)
    ensures Inv(WithCurrent(g, s).(resume := ResumeOf(s.start, s.deliveries)))
  {
    hide ResumeOf, SessionOk;
    var h := WithCurrent(g, s).(resume := ResumeOf(s.start, s.deliveries));
    forall i | 0 <= i < |h.sessions|
      ensures h.sessions[i].start == StartOf(h.base, h.sessions, i)
    {
      assert h.sessions[i].start == g.sessions[i].start;
      if i > 0 {
        assert h.sessions[i - 1] == g.sessions[i - 1];
      }
    }
  }

  lemma StepKeepsInv(g: Group, e: Event)
    requires Inv(g) && Enabled(g, e)
    ensures Inv(Next(g, e))
  {
    match e
    case Produce =>
    case Open =>
      OpenKeepsInv(g);
    case Fetch =>
      ReplaceCurrent(g, Current(g).(phase := Sending));
    case Deliver =>
      DeliverKeepsInv(g);
    case Respond(i, j, ack) =>
      RespondKeepsInv(g, i, j, ack);
    case Observe =>
      ObserveKeepsInv(g);
    case End =>
      ReplaceCurrent(g, Current(g).(phase := Ended));
  }

  lemma OpenKeepsInv(g: Group)
    requires Inv(g) && Enabled(g, Open)
    ensures Inv(Next(g, Open))
  {
    hide ResumeOf, SessionOk, StartOf;
    EmptySessionOk(g.resume);
    StartOfAppend(g.base, g.sessions, g.resume);
  }

  /** A new session starts at the resume point and leaves it there. */
  lemma StartOfAppend(base: nat, sessions: seq<Session>, resume: nat)
    ensures var after := sessions + [Session(resume, [], Idle)];
            && (forall i :: 0 <= i <= |sessions| ==> StartOf(base, after, i) == StartOf(base, sessions, i))
            && StartOf(base, after, |after|) == resume
  {
    ResumeOfNothing(resume);
    hide ResumeOf;
  }

  lemma EmptySessionOk(start: nat)
    ensures SessionOk(Session(start, [], Idle))
  {
  }

  lemma ResumeOfNothing(start: nat)
    ensures ResumeOf(start, []) == start
  {
  }

  lemma DeliverInSession(s: Session)
    requires SessionOk(s) && s.phase == Sending
    ensures var ds := s.deliveries + [Delivery(s.start + |s.deliveries|, None, Undecided)];
            && SessionOk(s.(deliveries := ds, phase := Waiting))
            && ResumeOf(s.start, ds) == ResumeOf(s.start, s.deliveries)
  {
    var ds := s.deliveries + [Delivery(s.start + |s.deliveries|, None, Undecided)];
    forall j | 0 <= j < |ds|
      ensures DeliveryOk(s.start, ds, j)
    {
      if j < |s.deliveries| {
        assert DeliveryOk(s.start, s.deliveries, j);
      }
    }
    assert ds[..|ds| - 1] == s.deliveries;
  }

  lemma DeliverKeepsInv(g: Group)
    requires Inv(g) && Enabled(g, Deliver)
    ensures Inv(Next(g, Deliver))
  {
    hide SessionOk, ResumeOf;
    var s := Current(g);
    DeliverInSession(s);
    ReplaceCurrent(g, s.(deliveries := s.deliveries + [Delivery(s.start + |s.deliveries|, None, Undecided)],
                         phase := Waiting));
  }

  lemma SessionContiguous(s: Session)
    requires SessionOk(s)
    ensures Contiguous(s.start, s.deliveries)
  {
    forall j | 0 <= j < |s.deliveries|
      ensures s.deliveries[j].offset == s.start + j
    {
      assert DeliveryOk(s.start, s.deliveries, j);
    }
  }

  function Decided(s: Session): Session
    requires s.deliveries != [] && s.deliveries[|s.deliveries| - 1].response.Some?
  {
    var n := |s.deliveries| - 1;
    var d := s.deliveries[n];
    s.(deliveries := s.deliveries[n := d.(verdict := if d.response.value then Marked else Skipped)], phase := Idle)
  }

  lemma ObserveInSession(s: Session)
    requires SessionOk(s) && s.phase == Waiting && s.deliveries[|s.deliveries| - 1].response.Some?
    ensures SessionOk(Decided(s))
    ensures var d := s.deliveries[|s.deliveries| - 1];
            var before := ResumeOf(s.start, s.deliveries);
            && before <= d.offset
            && ResumeOf(s.start, Decided(s).deliveries) == if d.response.value then d.offset + 1 else before
  {
    var n := |s.deliveries| - 1;
    var ds := Decided(s).deliveries;
    forall j | 0 <= j < |ds|
      ensures DeliveryOk(s.start, ds, j) && ds[j].verdict != Undecided
    {
      assert DeliveryOk(s.start, s.deliveries, j);
    }
    SessionContiguous(s);
    ResumeOfAt(s.start, s.deliveries, n);
    assert ds[..n] == s.deliveries[..n];
  }

  lemma ObserveKeepsInv(g: Group)
    requires Inv(g) && Enabled(g, Observe)
    ensures Inv(Next(g, Observe))
    ensures Next(g, Observe).resume >= g.resume
  {
    hide SessionOk, ResumeOf;
    ObserveInSession(Current(g));
    ReplaceCurrent(g, Decided(Current(g)));
  }

  lemma RespondInSession(s: Session, j: nat, ack: bool)
    requires SessionOk(s) && j < |s.deliveries|
    ensures var ds := s.deliveries[j := Answer(s.deliveries[j], ack)];
            && SessionOk(s.(deliveries := ds))
            && ResumeOf(s.start, ds) == ResumeOf(s.start, s.deliveries)
  {
    var ds := s.deliveries[j := Answer(s.deliveries[j], ack)];
    forall l | 0 <= l < |ds|
      ensures DeliveryOk(s.start, ds, l)
    {
      assert DeliveryOk(s.start, s.deliveries, l);
    }
    ResumeOfSame(s.start, s.deliveries, ds);
  }

  lemma RespondKeepsInv(g: Group, i: nat, j: nat, ack: bool)
    requires Inv(g) && Enabled(g, Respond(i, j, ack))
    ensures Inv(Next(g, Respond(i, j, ack)))
  {
    hide SessionOk, ResumeOf;
    var h := Next(g, Respond(i, j, ack));
    RespondInSession(g.sessions[i], j, ack);
    forall l | 0 <= l < |h.sessions|
      ensures SessionOk(h.sessions[l])
      ensures h.sessions[l].start == g.sessions[l].start && h.sessions[l].phase == g.sessions[l].phase
      ensures StartOf(h.base, h.sessions, l + 1) == StartOf(g.base, g.sessions, l + 1)
    {
      if l != i {
        assert h.sessions[l] == g.sessions[l];
      }
    }
    assert StartOf(h.base, h.sessions, 0) == StartOf(g.base, g.sessions, 0);
    forall l | 0 <= l < |h.sessions|
      ensures h.sessions[l].start == StartOf(h.base, h.sessions, l)
    {
      if l > 0 {
        assert StartOf(h.base, h.sessions, l - 1 + 1) == StartOf(g.base, g.sessions, l - 1 + 1);
      }
    }
    var n := |h.sessions|;
    assert StartOf(h.base, h.sessions, n - 1 + 1) == StartOf(g.base, g.sessions, n - 1 + 1);
  }

  lemma {:induction false} RunKeepsInv(g: Group, events: seq<Event>)
    requires Inv(g) && RunFrom(g, events).Some?
    ensures Inv(RunFrom(g, events).value)
    ensures RunFrom(g, events).value.resume >= g.resume
    ensures RunFrom(g, events).value.base == g.base
  {
    if events != [] {
      var n := |events| - 1;
      RunKeepsInv(g, events[..n]);
      var h := RunFrom(g, events[..n]).value;
      StepKeepsInv(h, events[n]);
      if events[n].Observe? {
        ObserveKeepsInv(h);
      }
    }
  }

  ghost predicate Reachable(g: Group) {
    exists base: nat, logEnd: nat, events: seq<Event> :: RunFrom(Start(base, logEnd), events) == Some(g)
  }

  lemma ReachableInv(g: Group)
    requires Reachable(g)
    ensures Inv(g)
  {
    var base: nat, logEnd: nat, events: seq<Event> :|
      RunFrom(Start(base, logEnd), events) == Some(g);
    RunKeepsInv(Start(base, logEnd), events);
  }

  // ---- what consumers can rely on ----------------------------------------

  ghost predicate IsMarked(g: Group, i: nat, j: nat) {
    i < |g.sessions| && j < |g.sessions[i].deliveries| && g.sessions[i].deliveries[j].verdict == Marked
  }

  /** One session moves the resume point from its start, never back and never past its deliveries. */
  lemma SessionMoves(g: Group, i: nat)
    requires Inv(g) && i < |g.sessions|
    ensures var s := g.sessions[i];
            && Contiguous(s.start, s.deliveries)
            && s.start == StartOf(g.base, g.sessions, i)
            && s.start <= StartOf(g.base, g.sessions, i + 1) <= s.start + |s.deliveries|
  {
    hide SessionOk, ResumeOf;
    SessionContiguous(g.sessions[i]);
    ResumeOfBounds(g.sessions[i].start, g.sessions[i].deliveries);
  }

  lemma {:induction false} StartsGrow(g: Group, i: nat, k: nat)
    requires Inv(g) && i <= k <= |g.sessions|
    ensures StartOf(g.base, g.sessions, k) >= StartOf(g.base, g.sessions, i)
    decreases k
  {
    hide Inv, StartOf;
    if i < k {
      StartsGrow(g, i, k - 1);
      SessionMoves(g, k - 1);
    }
  }

  lemma DecidedByFirstResponse(g: Group, i: nat, j: nat)
    requires Inv(g) && i < |g.sessions| && j < |g.sessions[i].deliveries|
    ensures var d := g.sessions[i].deliveries[j];
            && (d.verdict == Marked ==> d.response == Some(true))
            && (d.verdict == Skipped ==> d.response == Some(false))
  {
    assert SessionOk(g.sessions[i]);
    assert DeliveryOk(g.sessions[i].start, g.sessions[i].deliveries, j);
  }

  /** In every run, a message is marked only if its first response was Ack and skipped only if it was
      Nack, and one that was never answered is neither. */
  lemma MarkedWasAcked(g: Group, i: nat, j: nat)
    requires Reachable(g) && i < |g.sessions| && j < |g.sessions[i].deliveries|
    ensures var d := g.sessions[i].deliveries[j];
            && (d.verdict == Marked ==> d.response == Some(true))
            && (d.verdict == Skipped ==> d.response == Some(false))
            && (d.response.None? ==> d.verdict == Undecided)
  {
    ReachableInv(g);
    DecidedByFirstResponse(g, i, j);
  }

  /** Marked offsets strictly increase, within a session and across sessions, and each of them
      belongs to a message whose first response was Ack. */
  lemma MarksIncrease(g: Group, i: nat, j: nat, i2: nat, j2: nat)
    requires Reachable(g)
    requires IsMarked(g, i, j) && IsMarked(g, i2, j2)
    requires i < i2 || (i == i2 && j < j2)
    ensures g.sessions[i].deliveries[j].offset < g.sessions[i2].deliveries[j2].offset
    ensures g.sessions[i].deliveries[j].response == Some(true)
    ensures g.sessions[i2].deliveries[j2].response == Some(true)
  {
    hide SessionOk, ResumeOf, RunFrom;
    ReachableInv(g);
    SessionMoves(g, i);
    SessionMoves(g, i2);
    DecidedByFirstResponse(g, i, j);
    DecidedByFirstResponse(g, i2, j2);
    if i < i2 {
      ResumeOfAt(g.sessions[i].start, g.sessions[i].deliveries, j);
      StartsGrow(g, i + 1, i2);
    }
  }

  ghost predicate DeliveredIn(s: Session, o: nat) {
    exists j :: 0 <= j < |s.deliveries| && s.deliveries[j].offset == o
  }

  ghost predicate DeliveredSomewhere(g: Group, o: nat) {
    exists i :: 0 <= i < |g.sessions| && DeliveredIn(g.sessions[i], o)
  }

  lemma {:induction false} CoveredUpTo(g: Group, k: nat, o: nat)
    requires Inv(g) && k <= |g.sessions|
    requires g.base <= o < StartOf(g.base, g.sessions, k)
    ensures DeliveredSomewhere(g, o)
  {
    hide Inv;
    if k > 0 {
      hide StartOf;
      SessionMoves(g, k - 1);
      var s := g.sessions[k - 1];
      if o < s.start {
        CoveredUpTo(g, k - 1, o);
      } else {
        assert s.deliveries[o - s.start].offset == o;
        assert DeliveredIn(s, o);
      }
    }
  }

  /** At least once: every offset the group will not read again has been delivered. */
  lemma AtLeastOnce(g: Group, o: nat)
    requires Reachable(g) && g.base <= o < g.resume
    ensures DeliveredSomewhere(g, o)
  {
    ReachableInv(g);
    CoveredUpTo(g, |g.sessions|, o);
  }

  /** A message delivered in one session lies in the next session's range exactly if neither it nor
      any later message of its claim was marked, and the next session delivers it as soon as it gets
      that far.  For a nacked message this says: no later message of its claim was marked. */
  lemma RedeliveryExactly(g: Group, i: nat, j: nat)
    requires Reachable(g) && i + 1 < |g.sessions| && j < |g.sessions[i].deliveries|
    ensures var s, next := g.sessions[i], g.sessions[i + 1];
            var d := s.deliveries[j];
            && (next.start <= d.offset <==> NoneMarkedFrom(s.deliveries, j))
            && (DeliveredIn(next, d.offset) <==>
                  NoneMarkedFrom(s.deliveries, j) && d.offset < next.start + |next.deliveries|)
            && (d.verdict == Skipped ==> d.response == Some(false))
            && (d.verdict == Skipped ==> (NoneMarkedFrom(s.deliveries, j) <==> NoneMarkedFrom(s.deliveries, j + 1)))
  {
    hide SessionOk, ResumeOf, RunFrom;
    ReachableInv(g);
    var s, next := g.sessions[i], g.sessions[i + 1];
    var o := s.deliveries[j].offset;
    SessionMoves(g, i);
    SessionMoves(g, i + 1);
    ResumeOfAt(s.start, s.deliveries, j);
    DecidedByFirstResponse(g, i, j);
    if next.start <= o < next.start + |next.deliveries| {
      assert next.deliveries[o - next.start].offset == o;
    }
  }

  // ---- responses ---------------------------------------------------------

  /** The responses that the events give to delivery `j` of session `i`, in order. */
  function CallsOn(events: seq<Event>, i: nat, j: nat): seq<bool> {
    if events == [] then []
    else
      var n := |events| - 1;
      CallsOn(events[..n], i, j)
      + if events[n].Respond? && events[n].session == i && events[n].delivery == j then [events[n].ack] else []
  }

  predicate Exists(g: Group, i: nat, j: nat) {
    i < |g.sessions| && j < |g.sessions[i].deliveries|
  }

  /** What one step does to a response: a first answer is recorded, and nothing else changes it. */
  lemma ResponseStep(g: Group, e: Event, i: nat, j: nat)
    requires Enabled(g, e)
    ensures Exists(g, i, j) ==> Exists(Next(g, e), i, j)
    ensures Exists(Next(g, e), i, j) ==>
              Next(g, e).sessions[i].deliveries[j].response ==
              if !Exists(g, i, j) then None
              else
                var r := g.sessions[i].deliveries[j].response;
                if r.None? && e.Respond? && e.session == i && e.delivery == j then Some(e.ack) else r
    ensures !Exists(g, i, j) ==> !(e.Respond? && e.session == i && e.delivery == j)
  {
  }

  /** In every run the recorded response of a message is the first one it was given. */
  lemma {:induction false} FirstResponseCounts(base: nat, logEnd: nat, events: seq<Event>, i: nat, j: nat)
    requires RunFrom(Start(base, logEnd), events).Some?
    ensures var g, calls := RunFrom(Start(base, logEnd), events).value, CallsOn(events, i, j);
            && (!Exists(g, i, j) ==> calls == [])
            && (Exists(g, i, j) ==>
                  g.sessions[i].deliveries[j].response == if calls == [] then None else Some(calls[0]))
  {
    if events != [] {
      var n := |events| - 1;
      FirstResponseCounts(base, logEnd, events[..n], i, j);
      var h := RunFrom(Start(base, logEnd), events[..n]).value;
      ResponseStep(h, events[n], i, j);
      hide Next, Enabled;
    }
  }

  // ---- the code ----------------------------------------------------------

  /** What the environment does to one round of the loop: the session ends while the loop waits for a
      message, while it sends one, or while it waits for the acker, or the consumer responds in time. */
  datatype Round =
    | StopIdle
    | StopSending
    | StopWaiting(responses: seq<bool>)
    | Answered(first: bool, rest: seq<bool>)

  function Responses(i: nat, j: nat, calls: seq<bool>): seq<Event> {
    seq(|calls|, l requires 0 <= l < |calls| => Respond(i, j, calls[l]))
  }

  lemma {:induction false} RunAppend(g: Group, a: seq<Event>, b: seq<Event>)
    requires RunFrom(g, a).Some?
    ensures RunFrom(g, a + b) == RunFrom(RunFrom(g, a).value, b)
  {
    hide Next, Enabled;
    if b == [] {
      assert a + b == a;
    } else {
      var n := |b| - 1;
      RunAppend(g, a, b[..n]);
      assert (a + b)[..|a + b| - 1] == a + b[..n];
    }
  }

  lemma RunOneMore(g: Group, events: seq<Event>, h: Group, e: Event)
    requires RunFrom(g, events) == Some(h) && Enabled(h, e)
    ensures RunFrom(g, events + [e]) == Some(Next(h, e))
  {
    assert (events + [e])[..|events|] == events;
  }

  /** Responses to a fresh delivery: only the first one is recorded. */
  lemma {:induction false} RunResponses(g: Group, calls: seq<bool>)
    requires Active(g, Waiting) && Current(g).deliveries != []
    requires Current(g).deliveries[|Current(g).deliveries| - 1].response.None?
    ensures var s := Current(g);
            var n := |s.deliveries| - 1;
            var d := s.deliveries[n].(response := FirstResponse(calls));
            RunFrom(g, Responses(|g.sessions| - 1, n, calls))
            == Some(WithCurrent(g, s.(deliveries := s.deliveries[n := d])))
  {
    var s := Current(g);
    var i, n := |g.sessions| - 1, |s.deliveries| - 1;
    if calls == [] {
      assert s.deliveries[n := s.deliveries[n]] == s.deliveries;
      assert g.sessions[i := s] == g.sessions;
    } else {
      var m := |calls| - 1;
      RunResponses(g, calls[..m]);
      var events := Responses(i, n, calls);
      assert events[..m] == Responses(i, n, calls[..m]);
      var h := RunFrom(g, events[..m]).value;
      assert Enabled(h, events[m]);
      var d := s.deliveries[n].(response := FirstResponse(calls));
      assert Current(h).deliveries[n := d] == s.deliveries[n := d];
      assert Next(h, events[m]).sessions == g.sessions[i := s.(deliveries := s.deliveries[n := d])];
    }
  }

  lemma ReplaceTwice(g: Group, a: Session, b: Session)
    requires g.sessions != []
    ensures Current(WithCurrent(g, a)) == a
    ensures WithCurrent(WithCurrent(g, a), b) == WithCurrent(g, b)
  {
    var n := |g.sessions| - 1;
    assert g.sessions[n := a][n := b] == g.sessions[n := b];
  }

  lemma ReplaceLast<T>(q: seq<T>, a: T, b: T)
    ensures (q + [a])[|q| := b] == q + [b]
  {
  }

  /** A fetched message is sent out. */
  lemma SendOut(g: Group)
    requires Enabled(g, Fetch)
    ensures var s := Current(g);
            var d := Delivery(s.start + |s.deliveries|, None, Undecided);
            RunFrom(g, [Fetch, Deliver]) == Some(WithCurrent(g, Session(s.start, s.deliveries + [d], Waiting)))
  {
    var s := Current(g);
    var d := Delivery(s.start + |s.deliveries|, None, Undecided);
    ReplaceTwice(g, s.(phase := Sending), Session(s.start, s.deliveries + [d], Waiting));
    RunOneMore(g, [], g, Fetch);
    assert [] + [Fetch] == [Fetch] && [Fetch] + [Deliver] == [Fetch, Deliver];
    hide RunFrom;
    RunOneMore(g, [Fetch], Next(g, Fetch), Deliver);
  }

  /** A fetched message is sent out and its acker called: what the protocol state is then. */
  lemma RunDelivery(g: Group, calls: seq<bool>) returns (events: seq<Event>)
    requires Enabled(g, Fetch)
    ensures var s := Current(g);
            var d := Delivery(s.start + |s.deliveries|, FirstResponse(calls), Undecided);
            RunFrom(g, events) == Some(WithCurrent(g, Session(s.start, s.deliveries + [d], Waiting)))
    ensures events == [Fetch, Deliver] + Responses(|g.sessions| - 1, |Current(g).deliveries|, calls)
  {
    hide RunFrom, Next, Responses;
    var s := Current(g);
    var n := |s.deliveries|;
    var sent := Delivery(s.start + n, None, Undecided);
    var d := sent.(response := FirstResponse(calls));
    var waiting := Session(s.start, s.deliveries + [sent], Waiting);
    SendOut(g);
    ReplaceTwice(g, waiting, Session(s.start, s.deliveries + [d], Waiting));
    hide WithCurrent, Enabled;
    RunResponses(WithCurrent(g, waiting), calls);
    ReplaceLast(s.deliveries, sent, d);
    events := [Fetch, Deliver] + Responses(|g.sessions| - 1, n, calls);
    RunAppend(g, [Fetch, Deliver], Responses(|g.sessions| - 1, n, calls));
  }

  /** The group while (or after) its current session runs. */
  function At(g: Group, ds: seq<Delivery>, phase: Phase, mark: nat): Group
    requires g.sessions != []
  {
    WithCurrent(g, Session(Current(g).start, ds, phase)).(resume := mark)
  }

  lemma AtAgain(g: Group, ds: seq<Delivery>, phase: Phase, mark: nat, ds2: seq<Delivery>, phase2: Phase, mark2: nat)
    requires g.sessions != []
    ensures At(At(g, ds, phase, mark), ds2, phase2, mark2) == At(g, ds2, phase2, mark2)
    ensures Current(At(g, ds, phase, mark)) == Session(Current(g).start, ds, phase)
  {
    var n := |g.sessions| - 1;
    var a, b := Session(Current(g).start, ds, phase), Session(Current(g).start, ds2, phase2);
    assert g.sessions[n := a][n := b] == g.sessions[n := b];
  }

  lemma AtStep(g: Group, ds: seq<Delivery>, phase: Phase, mark: nat, events: seq<Event>, e: Event)
    requires g.sessions != [] && phase != Ended
    requires RunFrom(g, events) == Some(At(g, ds, phase, mark))
    requires e == End || (e == Fetch && phase == Idle && Current(g).start + |ds| < g.logEnd)
    ensures RunFrom(g, events + [e]) == Some(At(g, ds, if e == End then Ended else Sending, mark))
  {
    hide RunFrom;
    AtAgain(g, ds, phase, mark, ds, if e == End then Ended else Sending, mark);
    RunOneMore(g, events, At(g, ds, phase, mark), e);
  }

  lemma AtDelivery(g: Group, ds: seq<Delivery>, mark: nat, events: seq<Event>, calls: seq<bool>)
    returns (more: seq<Event>)
    requires g.sessions != [] && Current(g).start + |ds| < g.logEnd
    requires RunFrom(g, events) == Some(At(g, ds, Idle, mark))
    ensures var d := Delivery(Current(g).start + |ds|, FirstResponse(calls), Undecided);
            RunFrom(g, events + more) == Some(At(g, ds + [d], Waiting, mark))
    ensures more == [Fetch, Deliver] + Responses(|g.sessions| - 1, |ds|, calls)
  {
    hide RunFrom;
    var d := Delivery(Current(g).start + |ds|, FirstResponse(calls), Undecided);
    AtAgain(g, ds, Idle, mark, ds + [d], Waiting, mark);
    more := RunDelivery(At(g, ds, Idle, mark), calls);
    RunAppend(g, events, more);
  }

  lemma AtObserve(g: Group, ds: seq<Delivery>, d: Delivery, mark: nat, events: seq<Event>)
    requires g.sessions != [] && d.response.Some? && d.verdict == Undecided
    requires RunFrom(g, events) == Some(At(g, ds + [d], Waiting, mark))
    ensures RunFrom(g, events + [Observe]) ==
      if d.response.value then Some(At(g, ds + [d.(verdict := Marked)], Idle, Max(mark, d.offset + 1)))
      else Some(At(g, ds + [d.(verdict := Skipped)], Idle, mark))
  {
    hide RunFrom;
    var e := d.(verdict := if d.response.value then Marked else Skipped);
    assert (ds + [d])[|ds| := e] == ds + [e];
    AtAgain(g, ds + [d], Waiting, mark, ds + [e], Idle, if d.response.value then Max(mark, d.offset + 1) else mark);
    RunOneMore(g, events, At(g, ds + [d], Waiting, mark), Observe);
  }

  lemma OutcomeNext(start: nat, rounds: seq<Round>, i: nat)
    requires i < |rounds|
    ensures Outcome(start, rounds[i..]) ==
      RoundOutcome(start, rounds[i]) + if rounds[i].Answered? then Outcome(start + 1, rounds[i + 1..]) else []
  {
    assert rounds[i..][1..] == rounds[i + 1..];
  }

  lemma NoMoreRounds(start: nat, rounds: seq<Round>)
    ensures Outcome(start + |rounds|, rounds[|rounds|..]) == []
  {
  }

  /** The consumer's calls on one acker. */
  method CallAcker(acker: MessageAcker, calls: seq<bool>)
    requires acker.Valid() && acker.calls == []
    modifies acker
    ensures acker.Valid() && acker.done == FirstResponse(calls)
  {
    for i := 0 to |calls|
      invariant acker.Valid() && acker.calls == calls[..i]
    {
      acker.Respond(calls[i]);
    }
    assert calls[..|calls|] == calls;
  }

  /** What one round makes of the message at `offset`. */
  function RoundOutcome(offset: nat, r: Round): seq<Delivery> {
    if r.StopIdle? || r.StopSending? then []
    else if r.StopWaiting? then [Delivery(offset, FirstResponse(r.responses), Undecided)]
    else [Delivery(offset, Some(r.first), if r.first then Marked else Skipped)]
  }

  /** What the rounds make of the messages from `start` on: contiguous deliveries up to the first
      stop, each answered one marked or skipped by its first response. */
  function Outcome(start: nat, rounds: seq<Round>): seq<Delivery>
    decreases |rounds|
  {
    if rounds == [] then []
    else RoundOutcome(start, rounds[0]) + if rounds[0].Answered? then Outcome(start + 1, rounds[1..]) else []
  }

  function PhaseAfter(r: Round): Phase {
    if r.StopSending? then Sending else if r.StopWaiting? then Waiting else Idle
  }

  function MarkAfter(mark: nat, offset: nat, r: Round): nat {
    if r.Answered? && r.first then Max(mark, offset + 1) else mark
  }

  /** The calls the consumer makes on the acker of a round. */
  function Calls(r: Round): seq<bool> {
    if r.StopWaiting? then r.responses else if r.Answered? then [r.first] + r.rest else []
  }

  /** The events answer delivery `j` of session `i` as given, and no other delivery. */
  ghost predicate AnswersOnly(events: seq<Event>, i: nat, j: nat, calls: seq<bool>) {
    forall i': nat, j': nat :: CallsOn(events, i', j') == if i' == i && j' == j then calls else []
  }

  lemma {:induction false} CallsOnAppend(a: seq<Event>, b: seq<Event>, i: nat, j: nat)
    ensures CallsOn(a + b, i, j) == CallsOn(a, i, j) + CallsOn(b, i, j)
  {
    if b == [] {
      assert a + b == a;
    } else {
      var n := |b| - 1;
      assert (a + b)[..|a| + n] == a + b[..n];
      CallsOnAppend(a, b[..n], i, j);
    }
  }

  lemma {:induction false} ResponsesAnswer(i: nat, j: nat, calls: seq<bool>)
    ensures AnswersOnly(Responses(i, j, calls), i, j, calls)
  {
    if calls != [] {
      var n := |calls| - 1;
      ResponsesAnswer(i, j, calls[..n]);
      var events := Responses(i, j, calls);
      assert events[..n] == Responses(i, j, calls[..n]);
      assert calls == calls[..n] + [calls[n]];
      assert events[n] == Respond(i, j, calls[n]);
    }
  }

  lemma NoCalls(e: Event, i: nat, j: nat)
    ensures CallsOn([], i, j) == []
    ensures !e.Respond? ==> CallsOn([e], i, j) == []
  {
    assert [e][..0] == [];
  }

  lemma DeliveryAnswers(i: nat, j: nat, calls: seq<bool>)
    ensures AnswersOnly([Fetch, Deliver] + Responses(i, j, calls), i, j, calls)
    ensures AnswersOnly([Fetch, Deliver] + Responses(i, j, calls) + [Observe], i, j, calls)
  {
    var events := Responses(i, j, calls);
    ResponsesAnswer(i, j, calls);
    assert [Fetch] + [Deliver] == [Fetch, Deliver];
    hide Responses;
    forall i': nat, j': nat
      ensures CallsOn([Fetch, Deliver] + events, i', j') == CallsOn(events, i', j')
      ensures CallsOn([Fetch, Deliver] + events + [Observe], i', j') == CallsOn(events, i', j')
    {
      NoCalls(Fetch, i', j');
      NoCalls(Deliver, i', j');
      NoCalls(Observe, i', j');
      CallsOnAppend([Fetch], [Deliver], i', j');
      CallsOnAppend([Fetch, Deliver], events, i', j');
      CallsOnAppend([Fetch, Deliver] + events, [Observe], i', j');
    }
  }

  /** One round is a run of the protocol, in which exactly the calls of the round are made. */
  lemma RoundRun(g: Group, ds: seq<Delivery>, mark: nat, events: seq<Event>, r: Round) returns (more: seq<Event>)
    requires g.sessions != [] && (r.StopIdle? || Current(g).start + |ds| < g.logEnd)
    requires RunFrom(g, events) == Some(At(g, ds, Idle, mark))
    ensures var offset := Current(g).start + |ds|;
            RunFrom(g, events + more)
            == Some(At(g, ds + RoundOutcome(offset, r), PhaseAfter(r), MarkAfter(mark, offset, r)))
    ensures AnswersOnly(more, |g.sessions| - 1, |ds|, Calls(r))
  {
    hide RunFrom, At, CallsOn;
    var offset := Current(g).start + |ds|;
    if r.StopIdle? {
      more := [];
      assert events + more == events && ds + [] == ds;
      Silent(|g.sessions| - 1, |ds|);
    } else if r.StopSending? {
      AtStep(g, ds, Idle, mark, events, Fetch);
      more := [Fetch];
      assert ds + [] == ds;
      Silent(|g.sessions| - 1, |ds|);
    } else {
      var calls := Calls(r);
      DeliveryAnswers(|g.sessions| - 1, |ds|, calls);
      more := AtDelivery(g, ds, mark, events, calls);
      if r.Answered? {
        AtObserve(g, ds, Delivery(offset, Some(r.first), Undecided), mark, events + more);
        assert events + more + [Observe] == events + (more + [Observe]);
        more := more + [Observe];
      }
    }
  }

  lemma Silent(i: nat, j: nat)
    ensures AnswersOnly([], i, j, []) && AnswersOnly([Fetch], i, j, [])
  {
    forall i': nat, j': nat
      ensures CallsOn([Fetch], i', j') == []
    {
      NoCalls(Fetch, i', j');
    }
  }

  /** One round of the loop body: the next message is fetched, sent and answered, or the session ends. */
  method ConsumeRound(offset: nat, mark: nat, r: Round) returns (delivered: seq<Delivery>, mark': nat)
    ensures delivered == RoundOutcome(offset, r)
    ensures mark' == MarkAfter(mark, offset, r)
    ensures r.StopIdle? || r.StopSending? <==> delivered == []
    ensures delivered != [] ==> |delivered| == 1 && delivered[0].offset == offset
    ensures r.Answered? ==>
              && delivered[0].response == Some(r.first)
              && (delivered[0].verdict == Marked <==> r.first) && (delivered[0].verdict == Skipped <==> !r.first)
    ensures r.StopWaiting? ==>
              && delivered[0].verdict == Undecided
              && delivered[0].response == if r.responses == [] then None else Some(r.responses[0])
    ensures mark' == if r.Answered? && r.first && mark <= offset then offset + 1 else mark
  {
    delivered, mark' := [], mark;
    if r.StopIdle? || r.StopSending? {
      return;
    }
    var acker := new MessageAcker();
    CallAcker(acker, if r.StopWaiting? then r.responses else [r.first] + r.rest);
    if r.StopWaiting? {
      delivered := [Delivery(offset, acker.done, Undecided)];
    } else if acker.done.value {
      mark' := Max(mark, offset + 1);
      delivered := [Delivery(offset, acker.done, Marked)];
    } else {
      delivered := [Delivery(offset, acker.done, Skipped)];
    }
  }

  /** How many messages the rounds take from the log. */
  function Fetches(rounds: seq<Round>): nat {
    if rounds == [] || rounds[0].StopIdle? then 0
    else 1 + if rounds[0].Answered? then Fetches(rounds[1..]) else 0
  }

  /** That is one per delivery, and one more if the session ended while a fetched message was being sent. */
  lemma {:induction false} FetchesIs(start: nat, rounds: seq<Round>)
    ensures var n := |Outcome(start, rounds)|;
            var sending := n < |rounds| && rounds[n].StopSending? && (n == 0 || rounds[n - 1].Answered?);
            Fetches(rounds) == if sending then n + 1 else n
    decreases |rounds|
  {
    if rounds != [] && rounds[0].Answered? {
      FetchesIs(start + 1, rounds[1..]);
      assert forall l :: 1 <= l < |rounds| ==> rounds[l] == rounds[1..][l - 1];
    }
  }

  lemma FetchesNext(rounds: seq<Round>, i: nat)
    requires i < |rounds|
    ensures rounds[i].StopIdle? || Fetches(rounds[i..]) >= 1
    ensures rounds[i].Answered? ==> Fetches(rounds[i..]) == 1 + Fetches(rounds[i + 1..])
  {
    assert rounds[i..][1..] == rounds[i + 1..];
  }

  /** The messages that have to arrive before the claim can go through its rounds. */
  function Awaited(g: Group, rounds: seq<Round>): nat
    requires g.sessions != []
  {
    Max(g.logEnd, Current(g).start + Fetches(rounds)) - g.logEnd
  }

  function Produces(m: nat): seq<Event> {
    seq(m, _ => Produce)
  }

  lemma {:induction false} RunProduces(g: Group, m: nat)
    ensures RunFrom(g, Produces(m)) == Some(g.(logEnd := g.logEnd + m))
  {
    if m > 0 {
      RunProduces(g, m - 1);
      assert Produces(m)[..m - 1] == Produces(m - 1);
    }
  }

  /** What became of delivery `l`, by its round: an answered one is marked or skipped by the first answer, and
      one left unanswered is the last. */
  ghost predicate FollowsRounds(start: nat, rounds: seq<Round>, deliveries: seq<Delivery>) {
    && |deliveries| <= |rounds|
    && (forall l :: 0 <= l < |deliveries| ==>
          && deliveries[l].offset == start + l
          && (rounds[l].Answered? || (rounds[l].StopWaiting? && l == |deliveries| - 1)))
    && (forall l :: 0 <= l < |deliveries| && rounds[l].Answered? ==>
          && deliveries[l].response == Some(rounds[l].first)
          && (deliveries[l].verdict == Marked <==> rounds[l].first)
          && (deliveries[l].verdict == Skipped <==> !rounds[l].first))
    && (forall l :: 0 <= l < |deliveries| && rounds[l].StopWaiting? ==>
          && deliveries[l].verdict == Undecided
          && deliveries[l].response == if rounds[l].responses == [] then None else Some(rounds[l].responses[0]))
    && (|deliveries| < |rounds| ==>
          || rounds[|deliveries|].StopIdle? || rounds[|deliveries|].StopSending?
          || (deliveries != [] && rounds[|deliveries| - 1].StopWaiting?))
  }

  lemma {:induction false} OutcomeFollows(start: nat, rounds: seq<Round>)
    ensures FollowsRounds(start, rounds, Outcome(start, rounds))
    decreases |rounds|
  {
    if rounds != [] && rounds[0].Answered? {
      OutcomeFollows(start + 1, rounds[1..]);
      FollowsOneMore(start, rounds, Outcome(start + 1, rounds[1..]));
    }
  }

  lemma FollowsOneMore(start: nat, rounds: seq<Round>, rest: seq<Delivery>)
    requires rounds != [] && rounds[0].Answered? && FollowsRounds(start + 1, rounds[1..], rest)
    ensures FollowsRounds(start, rounds, RoundOutcome(start, rounds[0]) + rest)
  {
    var ds := RoundOutcome(start, rounds[0]) + rest;
    assert forall l :: 1 <= l < |ds| ==> ds[l] == rest[l - 1];
    assert forall l :: 1 <= l < |rounds| ==> rounds[l] == rounds[1..][l - 1];
  }

  /** The mark is past every marked delivery and no further than the last of them. */
  ghost predicate MarkFollows(resume: nat, deliveries: seq<Delivery>, mark: nat) {
    && mark >= resume
    && (forall l :: 0 <= l < |deliveries| && deliveries[l].verdict == Marked ==> mark > deliveries[l].offset)
    && (mark == resume ||
        exists l :: 0 <= l < |deliveries| && deliveries[l].verdict == Marked && mark == deliveries[l].offset + 1)
  }

  lemma MarkStep(resume: nat, ds: seq<Delivery>, mark: nat, offset: nat, r: Round)
    requires MarkFollows(resume, ds, mark)
    ensures MarkFollows(resume, ds + RoundOutcome(offset, r), MarkAfter(mark, offset, r))
  {
    var all := ds + RoundOutcome(offset, r);
    assert forall l :: 0 <= l < |ds| ==> all[l] == ds[l];
    if l :| 0 <= l < |ds| && ds[l].verdict == Marked && mark == ds[l].offset + 1 {
      assert all[l].verdict == Marked;
    }
    if r.Answered? && r.first {
      assert all[|ds|].verdict == Marked && all[|ds|].offset == offset;
    }
  }

  /** The responses given during the claim are exactly the calls of its rounds, delivery by delivery. */
  ghost predicate CallsFollow(events: seq<Event>, session: nat, rounds: seq<Round>, n: nat)
    requires n <= |rounds|
  {
    forall i: nat, l: nat :: CallsOn(events, i, l) ==
      if i != session || l >= n then []
      else if rounds[l].Answered? then [rounds[l].first] + rounds[l].rest
      else if rounds[l].StopWaiting? then rounds[l].responses
      else []
  }

  lemma CallsStep(events: seq<Event>, more: seq<Event>, session: nat, rounds: seq<Round>, n: nat, m: nat)
    requires n < |rounds| && CallsFollow(events, session, rounds, n)
    requires AnswersOnly(more, session, n, Calls(rounds[n]))
    requires m == n + 1 || (m == n && Calls(rounds[n]) == [])
    ensures CallsFollow(events + more, session, rounds, m)
  {
    forall i: nat, l: nat
      ensures CallsOn(events + more, i, l) == CallsOn(events, i, l) + CallsOn(more, i, l)
    {
      CallsOnAppend(events, more, i, l);
    }
    hide CallsOn;
  }

  lemma {:induction false} ProducesSilent(m: nat, i: nat, j: nat)
    ensures CallsOn(Produces(m), i, j) == []
  {
    if m > 0 {
      ProducesSilent(m - 1, i, j);
      assert Produces(m)[..m - 1] == Produces(m - 1);
    }
  }

  lemma CallsInBetween(m: nat, events: seq<Event>, session: nat, rounds: seq<Round>, n: nat)
    requires n <= |rounds| && CallsFollow(events, session, rounds, n)
    ensures CallsFollow(Produces(m) + (events + [End]), session, rounds, n)
  {
    var produces := Produces(m);
    forall i: nat, l: nat
      ensures CallsOn(produces + (events + [End]), i, l) == CallsOn(events, i, l)
    {
      ProducesSilent(m, i, l);
      NoCalls(End, i, l);
      CallsOnAppend(events, [End], i, l);
      CallsOnAppend(produces, events + [End], i, l);
    }
    hide CallsOn;
  }

  /** The claim in the middle of its rounds: the events so far are a run that made these deliveries. */
  ghost predicate Midway(
      g: Group, rounds: seq<Round>, deliveries: seq<Delivery>, phase: Phase, mark: nat, events: seq<Event>)
  {
    && g.sessions != [] && |deliveries| <= |rounds|
    && RunFrom(g, events) == Some(At(g, deliveries, phase, mark))
    && MarkFollows(g.resume, deliveries, mark)
    && CallsFollow(events, |g.sessions| - 1, rounds, |deliveries|)
  }

  lemma MidwayStart(g: Group, rounds: seq<Round>)
    requires Active(g, Idle) && Current(g).deliveries == []
    ensures Midway(g, rounds, [], Idle, g.resume, [])
  {
    ClaimStart(g);
    hide RunFrom, At;
  }

  lemma MidwayStep(g: Group, rounds: seq<Round>, deliveries: seq<Delivery>, mark: nat, events: seq<Event>)
    returns (more: seq<Event>)
    requires Midway(g, rounds, deliveries, Idle, mark, events) && |deliveries| < |rounds|
    requires rounds[|deliveries|].StopIdle? || Current(g).start + |deliveries| < g.logEnd
    ensures var r, offset := rounds[|deliveries|], Current(g).start + |deliveries|;
            Midway(g, rounds, deliveries + RoundOutcome(offset, r), PhaseAfter(r), MarkAfter(mark, offset, r),
                   events + more)
  {
    hide RunFrom, At, MarkFollows, CallsFollow, AnswersOnly, MarkAfter, PhaseAfter;
    var n := |deliveries|;
    var r, offset := rounds[n], Current(g).start + n;
    MarkStep(g.resume, deliveries, mark, offset, r);
    more := RoundRun(g, deliveries, mark, events, r);
    CallsStep(events, more, |g.sessions| - 1, rounds, n, n + |RoundOutcome(offset, r)|);
  }

  lemma RunGrown(g: Group, grown: Group, m: nat, events: seq<Event>)
    requires grown == g.(logEnd := g.logEnd + m)
    ensures RunFrom(g, Produces(m) + events) == RunFrom(grown, events)
  {
    hide RunFrom, Produces, Next, Enabled;
    RunProduces(g, m);
    RunAppend(g, Produces(m), events);
  }

  /** The session ends; in front go the messages that had to arrive first. */
  lemma MidwayEnd(
      g: Group, m: nat, rounds: seq<Round>, deliveries: seq<Delivery>, phase: Phase, mark: nat, events: seq<Event>)
    requires phase != Ended && Midway(g, rounds, deliveries, phase, mark, events)
    ensures RunFrom(g, events + [End]) == Some(At(g, deliveries, Ended, mark))
    ensures MarkFollows(g.resume, deliveries, mark)
    ensures CallsFollow(Produces(m) + (events + [End]), |g.sessions| - 1, rounds, |deliveries|)
  {
    hide RunFrom, At, MarkFollows, CallsFollow, Produces;
    AtStep(g, deliveries, phase, mark, events, End);
    CallsInBetween(m, events, |g.sessions| - 1, rounds, |deliveries|);
  }

  /** The deliveries of the first `i` rounds, all answered, with enough of the log left for the rest. */
  ghost predicate OutcomeSoFar(start: nat, logEnd: nat, rounds: seq<Round>, deliveries: seq<Delivery>, i: nat) {
    && i <= |rounds| && |deliveries| == i
    && start + i + Fetches(rounds[i..]) <= logEnd
    && Outcome(start, rounds) == deliveries + Outcome(start + i, rounds[i..])
  }

  lemma NoRoundYet(g: Group, rounds: seq<Round>)
    requires g.sessions != []
    ensures OutcomeSoFar(Current(g).start, g.logEnd + Awaited(g, rounds), rounds, [], 0)
  {
    assert rounds[0..] == rounds;
    hide Outcome, Fetches;
  }

  lemma OneRoundMore(start: nat, logEnd: nat, rounds: seq<Round>, deliveries: seq<Delivery>, i: nat)
    requires OutcomeSoFar(start, logEnd, rounds, deliveries, i) && i < |rounds|
    ensures |deliveries| == i && (rounds[i].StopIdle? || start + i < logEnd)
    ensures PhaseAfter(rounds[i]) != Ended
    ensures var ds := deliveries + RoundOutcome(start + i, rounds[i]);
            if rounds[i].Answered? then PhaseAfter(rounds[i]) == Idle && OutcomeSoFar(start, logEnd, rounds, ds, i + 1)
            else Outcome(start, rounds) == ds
  {
    hide Outcome, Fetches;
    OutcomeNext(start + i, rounds, i);
    FetchesNext(rounds, i);
    var delivered := RoundOutcome(start + i, rounds[i]);
    if rounds[i].Answered? {
      Regroup(deliveries, delivered, Outcome(start + i + 1, rounds[i + 1..]));
    } else {
      assert delivered + [] == delivered;
    }
  }

  lemma AllRounds(start: nat, logEnd: nat, rounds: seq<Round>, deliveries: seq<Delivery>)
    requires Outcome(start, rounds) == deliveries || OutcomeSoFar(start, logEnd, rounds, deliveries, |rounds|)
    ensures Outcome(start, rounds) == deliveries
  {
    NoMoreRounds(start, rounds);
    assert deliveries + [] == deliveries;
  }

  /** `ConsumeClaim`: it delivers and marks exactly what the rounds call for, and that is a run of the
      protocol that ends the session, in which the consumer responds exactly as the rounds say.  When the
      log runs out the loop waits, so the run begins with the messages that had to arrive. */
  method ConsumeClaim(g: Group, rounds: seq<Round>)
    returns (deliveries: seq<Delivery>, mark: nat, ghost events: seq<Event>)
    requires Active(g, Idle) && Current(g).deliveries == []
    ensures FollowsRounds(Current(g).start, rounds, deliveries)
    ensures MarkFollows(g.resume, deliveries, mark)
    ensures CallsFollow(events, |g.sessions| - 1, rounds, |deliveries|)
    ensures var grown := g.(logEnd := g.logEnd + Awaited(g, rounds));
            RunFrom(g, events) == Some(At(grown, deliveries, Ended, mark))
  {
    hide RunFrom, At, Outcome, RoundOutcome, MarkAfter, PhaseAfter, MarkFollows, CallsFollow, FollowsRounds, Midway,
      OutcomeSoFar;
    var start := Current(g).start;
    ghost var m := Awaited(g, rounds);
    ghost var grown := g.(logEnd := g.logEnd + m);
    deliveries, mark, events := [], g.resume, [];
    ghost var phase := Idle;
    MidwayStart(grown, rounds);
    NoRoundYet(g, rounds);
    hide Current, Awaited, Active, Fetches;
    for i := 0 to |rounds|
      invariant phase == Idle
      invariant OutcomeSoFar(start, grown.logEnd, rounds, deliveries, i)
      invariant Midway(grown, rounds, deliveries, Idle, mark, events)
    {
      var r := rounds[i];
      OneRoundMore(start, grown.logEnd, rounds, deliveries, i);
      ghost var more := MidwayStep(grown, rounds, deliveries, mark, events);
      var delivered;
      delivered, mark := ConsumeRound(start + i, mark, r);
      events, phase := events + more, PhaseAfter(r);
      deliveries := deliveries + delivered;
      if !r.Answered? {
        break;
      }
    }
    AllRounds(start, grown.logEnd, rounds, deliveries);
    OutcomeFollows(start, rounds);
    MidwayEnd(grown, m, rounds, deliveries, phase, mark, events);
    RunGrown(g, grown, m, events + [End]);
    events := Produces(m) + (events + [End]);
  }

  lemma ClaimStart(g: Group)
    requires Active(g, Idle) && Current(g).deliveries == []
    ensures RunFrom(g, []) == Some(At(g, [], Idle, g.resume))
  {
    assert g.sessions[|g.sessions| - 1 := Current(g)] == g.sessions;
  }

  lemma Regroup<T>(a: seq<T>, b: seq<T>, c: seq<T>)
    ensures a + (b + c) == a + b + c
  {
  }
}

/** Where each datagram goes: through run and onMessage in order, to a session of its own address. */
module UdpFlow {
  import opened Bytes
  import opened UdpFraming
  import opened UdpSessions
  import opened UdpTable

  function DatagramOf(m: Msg): Datagram {
    Datagram(m.addr, m.payload)
  }

  function Datagrams(ms: seq<Msg>): seq<Datagram> {
    seq(|ms|, i requires 0 <= i < |ms| => DatagramOf(ms[i]))
  }

  function Given(hs: seq<Handover>): seq<Datagram> {
    seq(|hs|, i requires 0 <= i < |hs| => hs[i].datagram)
  }

  /** Received, and not handed to a session yet. */
  function Waiting(s: State): seq<Datagram> {
    (if s.dispatch.Offering? then [DatagramOf(s.dispatch.msg)] else []) + Datagrams(s.channel) +
    (if s.run.Sending? then [DatagramOf(s.run.msg)] else [])
  }

  /**
   * Nothing is lost, doubled or overtaken on the way to the sessions while both goroutines run; they
   * stop only when the listener is closed.
   */
  ghost predicate Flowing(s: State) {
    Given(s.handed) <= s.received &&
    (!s.dispatch.DispatchStopped? ==> Given(s.handed) + Waiting(s) <= s.received) &&
    (!s.dispatch.DispatchStopped? && !s.run.RunStopped? ==> Given(s.handed) + Waiting(s) == s.received) &&
    (s.dispatch.DispatchStopped? || s.run.RunStopped? ==> s.closed)
  }

  /** The payloads handed to session c. */
  function HandedTo(hs: seq<Handover>, c: nat): seq<seq<Byte>> {
    if hs == [] then []
    else
      var h := hs[|hs| - 1];
      HandedTo(hs[..|hs| - 1], c) + if h.to == c then [h.datagram.payload] else []
  }

  ghost predicate Addressed(s: State) {
    (forall i :: 0 <= i < |s.handed| ==>
      s.handed[i].to in s.sessions && s.sessions[s.handed[i].to].addr == s.handed[i].datagram.addr) &&
    (forall c :: HandedTo(s.handed, c) == if c in s.sessions then s.sessions[c].arrived else [])
  }

  lemma RunKeepsFlowing(s: State, a: RunAct)
    requires Flowing(s) && RunEnabled(s, a)
    ensures Flowing(RunNext(s, a))
  {
    var t := RunNext(s, a);
    if a.Send? {
      assert Waiting(t) == Waiting(s);
    } else if a.Receive? {
      assert Waiting(t) == Waiting(s) + [Datagram(a.addr, a.data)];
    } else if a.SendClosed? {
      assert Waiting(s) == Waiting(t) + [DatagramOf(s.run.msg)];
    } else {
      assert Waiting(t) == Waiting(s);
    }
  }

  /** Handing over the datagram that has waited longest. */
  lemma HandingKeepsFlowing(s: State, t: State, m: Msg, c: nat)
    requires Flowing(s) && !s.dispatch.DispatchStopped?
    requires t.handed == s.handed + [Handover(c, DatagramOf(m))] && Waiting(s) == [DatagramOf(m)] + Waiting(t)
    requires t.received == s.received && t.run == s.run && t.dispatch.Putting? && (s.closed ==> t.closed)
    ensures Flowing(t)
  {
    hide Waiting;
    assert Given(t.handed) == Given(s.handed) + [DatagramOf(m)];
    Assoc(Given(s.handed), [DatagramOf(m)], Waiting(t));
  }

  lemma NextKeepsFlowing(s: State, a: DispatchAct)
    requires Flowing(s) && a.Next? && DispatchEnabled(s, a)
    ensures Flowing(DispatchNext(s, a))
  {
    hide FrameOf, Flowing;
    var t, m := DispatchNext(s, a), s.channel[0];
    assert Datagrams(s.channel) == [DatagramOf(m)] + Datagrams(s.channel[1..]);
    if m.addr in s.keys {
      assert Waiting(s) == [DatagramOf(m)] + Waiting(t);
      HandingKeepsFlowing(s, t, m, a.c);
    } else {
      assert Waiting(s) == Waiting(t);
      SameFlowing(s, t);
    }
  }

  lemma SameFlowing(s: State, t: State)
    requires Flowing(s) && t.handed == s.handed && t.received == s.received && Waiting(t) == Waiting(s)
    requires t.run == s.run
    requires (s.closed ==> t.closed) && (t.dispatch.DispatchStopped? <==> s.dispatch.DispatchStopped?)
    ensures Flowing(t)
  {
  }

  lemma DispatchKeepsFlowing(s: State, a: DispatchAct)
    requires Flowing(s) && DispatchEnabled(s, a)
    ensures Flowing(DispatchNext(s, a))
  {
    hide FrameOf;
    var t := DispatchNext(s, a);
    match a
    case Next(_) => NextKeepsFlowing(s, a);
    case Accept =>
      assert Waiting(s) == [DatagramOf(s.dispatch.msg)] + Waiting(t);
      HandingKeepsFlowing(s, t, s.dispatch.msg, s.dispatch.to);
    case HearClose(_) => SameFlowing(s, t);
    case _ =>
  }

  lemma SameAddressed(s: State, t: State)
    requires Addressed(s) && t.handed == s.handed
    requires forall c :: c in s.sessions ==> c in t.sessions && t.sessions[c].addr == s.sessions[c].addr
    requires forall c :: c in s.sessions ==> t.sessions[c].arrived == s.sessions[c].arrived
    requires forall c :: c in t.sessions && c !in s.sessions ==> t.sessions[c].arrived == []
    ensures Addressed(t)
  {
    hide HandedTo;
  }

  lemma HandingKeepsAddressed(s: State, m: Msg, c: nat)
    requires Addressed(s) && CanHand(s, m, c) && s.sessions[c].addr == m.addr
    ensures Addressed(Handed(s, m, c))
  {
    hide HandedTo;
    var t := Handed(s, m, c);
    forall d ensures HandedTo(t.handed, d) == if d in t.sessions then t.sessions[d].arrived else [] {
      HandedMore(s.handed, Handover(c, DatagramOf(m)), d);
    }
  }

  lemma {:induction false} HandedMore(hs: seq<Handover>, h: Handover, c: nat)
    ensures HandedTo(hs + [h], c) == HandedTo(hs, c) + if h.to == c then [h.datagram.payload] else []
  {
    assert (hs + [h])[..|hs|] == hs;
  }

  lemma DispatchKeepsAddressed(s: State, a: DispatchAct)
    requires Addressed(s) && Tabled(s) && DispatchEnabled(s, a)
    ensures Addressed(DispatchNext(s, a))
  {
    hide Addressed, FrameOf, NoneLost;
    var t := DispatchNext(s, a);
    match a
    case Next(c) =>
      var u := s.(channel := s.channel[1..]);
      SameAddressed(s, u);
      if s.channel[0].addr in s.keys {
        HandingKeepsAddressed(u, s.channel[0], c);
      } else {
        SameAddressed(s, t);
      }
    case Accept =>
      var u := s.(keys := t.keys);
      SameAddressed(s, u);
      HandingKeepsAddressed(u, s.dispatch.msg, s.dispatch.to);
    case _ => SameAddressed(s, t);
  }

  /** putRead, readers and closers move no datagram between the goroutines. */
  lemma AsideKeepsFlow(s: State, t: State)
    requires Flowing(s) && Addressed(s)
    requires t.handed == s.handed && t.received == s.received && t.channel == s.channel && t.run == s.run
    requires s.closed ==> t.closed
    requires t.dispatch == s.dispatch || (s.dispatch.Putting? && (t.dispatch.Putting? || t.dispatch.AtSelect?))
    requires t.sessions.Keys == s.sessions.Keys
    requires forall c :: c in s.sessions ==>
      t.sessions[c].addr == s.sessions[c].addr && t.sessions[c].arrived == s.sessions[c].arrived
    ensures Flowing(t) && Addressed(t)
  {
    hide Flowing, Addressed;
    SameFlowing(s, t);
    SameAddressed(s, t);
  }

  lemma PutKeepsFlow(s: State, a: PutAct)
    requires Flowing(s) && Addressed(s) && PutEnabled(s, a)
    ensures Flowing(PutNext(s, a)) && Addressed(PutNext(s, a))
  {
    hide FrameOf, Flowing, Addressed;
    AsideKeepsFlow(s, PutNext(s, a));
  }

  lemma SessionKeepsFlow(s: State, c: nat, a: SessionAct)
    requires Flowing(s) && Addressed(s) && SessionEnabled(s, c, a)
    ensures Flowing(SessionNext(s, c, a)) && Addressed(SessionNext(s, c, a))
  {
    hide FrameOf, Flowing, Addressed;
    AsideKeepsFlow(s, SessionNext(s, c, a));
  }

  lemma RunKeepsFlow(s: State, a: RunAct)
    requires Flowing(s) && Addressed(s) && RunEnabled(s, a)
    ensures Flowing(RunNext(s, a)) && Addressed(RunNext(s, a))
  {
    RunKeepsFlowing(s, a);
    hide Flowing, Addressed;
    SameAddressed(s, RunNext(s, a));
  }

  lemma OtherKeepsFlow(s: State, a: OtherAct)
    requires Flowing(s) && Addressed(s) && OtherEnabled(s, a)
    ensures Flowing(OtherNext(s, a)) && Addressed(OtherNext(s, a))
  {
    hide Flowing, Addressed;
    AsideKeepsFlow(s, OtherNext(s, a));
  }

  lemma StepKeepsFlow(s: State, step: Step)
    requires Flowing(s) && Addressed(s) && Tabled(s) && Enabled(s, step)
    ensures Flowing(Apply(s, step)) && Addressed(Apply(s, step))
  {
    hide Tabled, Flowing, Addressed, RunNext, DispatchNext, PutNext, SessionNext, OtherNext;
    hide RunEnabled, DispatchEnabled, PutEnabled, SessionEnabled, OtherEnabled;
    match step
    case OfRun(a) => RunKeepsFlow(s, a);
    case OfDispatch(a) =>
      DispatchKeepsFlowing(s, a);
      DispatchKeepsAddressed(s, a);
    case OfPut(a) => PutKeepsFlow(s, a);
    case OfSession(c, a) => SessionKeepsFlow(s, c, a);
    case OfOther(a) => OtherKeepsFlow(s, a);
  }
}

/** Every run of the UDP listener: who holds each buffer, what readers see, and the session table. */
module UdpSafety {
  import opened Bytes
  import opened UdpFraming
  import opened UdpSessions
  import opened UdpOwnership
  import opened UdpDelivery

  // ----- Delivery, step by step -----

  ghost predicate OnlyAt(s: State, b: nat, place: Place) {
    forall p :: HolderAt(s, p) == Some(b) ==> p == place
  }

  ghost predicate AgreeBut(mem: map<nat, seq<Byte>>, after: map<nat, seq<Byte>>, b: nat) {
    forall x :: x in mem && x != b ==> Holds(after, x, mem[x])
  }

  lemma MemoryKeepsSessions(s: State, after: map<nat, seq<Byte>>, b: nat, place: Place)
    requires SessionsIntact(s) && OnlyAt(s, b, place) && AgreeBut(s.mem, after, b)
    requires !place.InQueue? && !place.InSlot?
    ensures forall c :: c in s.sessions ==> Intact(s.sessions[c], after)
  {
    hide Intact, Orderly, FrameOf;
    forall c | c in s.sessions ensures Intact(s.sessions[c], after) {
      var x := s.sessions[c];
      assert forall i :: 0 <= i < |x.queue| ==> HolderAt(s, InQueue(c, i)) == Some(x.queue[i].msg.buf);
      assert x.slot.Taken? ==> HolderAt(s, InSlot(c)) == Some(x.slot.item.msg.buf);
      MemoryKeeps(x, s.mem, after);
    }
  }

  /** A step that leaves channel, dispatcher and sessions alone and writes no buffer but that of run. */
  lemma MemoryKeepsDelivering(s: State, t: State, b: nat)
    requires Delivering(s) && OnlyAt(s, b, InRun) && AgreeBut(s.mem, t.mem, b)
    requires t.frame == s.frame && t.channel == s.channel && t.dispatch == s.dispatch && t.sessions == s.sessions
    requires t.run.Sending? ==> Whole(t, t.run.msg)
    ensures Delivering(t)
  {
    hide Intact, Orderly, FrameOf;
    MemoryKeepsSessions(s, t.mem, b, InRun);
    assert forall i :: 0 <= i < |s.channel| ==> HolderAt(s, InChannel(i)) == Some(s.channel[i].buf);
    assert s.dispatch.Offering? || s.dispatch.Putting? ==> HolderAt(s, InHand) == Some(s.dispatch.msg.buf);
  }

  lemma RunKeepsDelivering(s: State, a: RunAct)
    requires Owned(s) && Delivering(s) && RunEnabled(s, a)
    ensures Delivering(RunNext(s, a))
  {
    hide Intact, Orderly, FrameOf;
    var t := RunNext(s, a);
    match a
    case Get(b, _) => MemoryKeepsDelivering(s, t, b);
    case Receive(_, _) =>
      assert HolderAt(s, InRun) == Some(s.run.buf);
      MemoryKeepsDelivering(s, t, s.run.buf);
    case _ =>
  }

  lemma OtherKeepsDelivering(s: State, a: OtherAct)
    requires Owned(s) && Delivering(s) && OtherEnabled(s, a)
    ensures Delivering(OtherNext(s, a))
  {
    hide Intact, Orderly, FrameOf;
    if a.Scribble? || a.PoolGet? {
      if s.run.Sending? {
        assert HolderAt(s, InRun) == Some(s.run.msg.buf);
      }
      MemoryKeepsDelivering(s, OtherNext(s, a), a.buf);
    }
  }

  /** putRead begins. */
  lemma HandingKeepsDelivering(s: State, m: Msg, c: nat)
    requires SessionsIntact(s) && !s.dispatch.Putting? && CanHand(s, m, c) && Whole(s, m)
    ensures HandIntact(Handed(s, m, c)) && SessionsIntact(Handed(s, m, c))
  {
    hide Intact, Orderly, FrameOf;
    ArrivalKeeps(s.sessions[c], s.mem, m.payload, s.frame);
    var t := Handed(s, m, c);
    assert t.sessions[c] == AfterArrival(s.sessions[c], m.payload);
    forall d | d in t.sessions ensures Orderly(t.sessions[d], t.frame, Pending(t, d)) && Intact(t.sessions[d], t.mem) {
    }
  }

  lemma NewSession(addr: nat, frame: nat, mem: map<nat, seq<Byte>>)
    ensures var x := Session(addr, Open, [], Empty, [], [], []); Orderly(x, frame, false) && Intact(x, mem)
  {
  }

  lemma ClosingKeeps(x: Session, closing: Closing, frame: nat, pending: bool, mem: map<nat, seq<Byte>>)
    requires Orderly(x, frame, pending) && Intact(x, mem) && !closing.Open?
    ensures Orderly(x.(closing := closing), frame, pending) && Intact(x.(closing := closing), mem)
  {
    hide FrameOf;
    assert Order(x.(closing := closing)) == Order(x);
  }

  lemma NextKeepsDelivering(s: State, a: DispatchAct)
    requires Delivering(s) && DispatchEnabled(s, a) && a.Next?
    ensures Delivering(DispatchNext(s, a))
  {
    hide Intact, Orderly, FrameOf;
    var m, u := s.channel[0], s.(channel := s.channel[1..]);
    if m.addr in s.keys {
      HandingKeepsDelivering(u, m, a.c);
    } else {
      NewSession(m.addr, s.frame, s.mem);
    }
  }

  lemma DispatchKeepsDelivering(s: State, a: DispatchAct)
    requires Delivering(s) && DispatchEnabled(s, a)
    ensures Delivering(DispatchNext(s, a))
  {
    hide Intact, Orderly, FrameOf;
    match a
    case Next(_) => NextKeepsDelivering(s, a);
    case Accept => HandingKeepsDelivering(s.(keys := DispatchNext(s, a).keys), s.dispatch.msg, s.dispatch.to);
    case HearClose(c) => ClosingKeeps(s.sessions[c], Returned, s.frame, Pending(s, c), s.mem);
    case _ =>
  }

  /** putRead may leave the newest datagram out of a session that has been closed. */
  lemma GivingUpKeeps(x: Session, frame: nat)
    requires Orderly(x, frame, true) && !x.closing.Open?
    ensures Orderly(x, frame, false)
  {
  }

  lemma PutKeepsDelivering(s: State, a: PutAct)
    requires Owned(s) && Delivering(s) && PutEnabled(s, a)
    ensures Delivering(PutNext(s, a))
  {
    hide Intact, Orderly, FrameOf;
    var m, c, x := s.dispatch.msg, s.dispatch.to, s.sessions[s.dispatch.to];
    match a
    case WriteLength =>
      WritingKeepsDelivering(s, a);
    case SeeClosed => GivingUpKeeps(x, s.frame);
    case Push => PushKeeps(x, s.mem, m, s.frame);
    case SeeFull =>
    case DropOldest => DropKeeps(x, s.mem, s.frame);
  }

  lemma WritingKeepsDelivering(s: State, a: PutAct)
    requires Owned(s) && Delivering(s) && PutEnabled(s, a) && a.WriteLength?
    ensures Delivering(PutNext(s, a))
  {
    hide Intact, Orderly, FrameOf;
    var t, b := PutNext(s, a), s.dispatch.msg.buf;
    assert HolderAt(s, InHand) == Some(b);
    MemoryKeepsSessions(s, t.mem, b, InHand);
    assert forall i :: 0 <= i < |s.channel| ==> HolderAt(s, InChannel(i)) == Some(s.channel[i].buf);
    if s.run.Sending? {
      assert HolderAt(s, InRun) == Some(s.run.msg.buf);
    }
  }

  lemma ReplacingKeepsDelivering(s: State, c: nat, y: Session, free: set<nat>)
    requires HandIntact(s) && SessionsIntact(s) && c in s.sessions && y.arrived == s.sessions[c].arrived
    requires Orderly(y, s.frame, Pending(s, c)) && Intact(y, s.mem)
    ensures var t := s.(sessions := s.sessions[c := y], free := free); HandIntact(t) && SessionsIntact(t)
  {
    hide Intact, Orderly, FrameOf;
  }

  lemma SessionKeepsDelivering(s: State, c: nat, a: SessionAct)
    requires Delivering(s) && SessionEnabled(s, c, a)
    ensures Delivering(SessionNext(s, c, a))
  {
    hide Intact, Orderly, HandIntact, FrameOf;
    var x, p, t := s.sessions[c], Pending(s, c), SessionNext(s, c, a);
    match a {
      case Take => TakeKeeps(x, s.mem, s.frame, p);
      case Deliver(k) => DeliverKeeps(x, s.mem, k, s.frame, p);
      case CloseBegin => ClosingKeeps(x, Telling, s.frame, p, s.mem);
      case CloseEnd => ClosingKeeps(x, Returned, s.frame, p, s.mem);
    }
    hide SessionsIntact;
    assert t == s.(sessions := s.sessions[c := t.sessions[c]], free := t.free);
    ReplacingKeepsDelivering(s, c, t.sessions[c], t.free);
  }
}

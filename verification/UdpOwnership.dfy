/** Who holds which buffer: at most one place does, and never the pool at the same time. */
module UdpOwnership {
  import opened Bytes
  import opened UdpFraming
  import opened UdpSessions

  /** The places a buffer can be held in. */
  datatype Place = InRun | InChannel(i: nat) | InHand | InQueue(c: nat, i: nat) | InSlot(c: nat)

  function HolderAt(s: State, p: Place): Option<nat> {
    match p
    case InRun => if s.run.Reading? then Some(s.run.buf) else if s.run.Sending? then Some(s.run.msg.buf) else None
    case InChannel(i) => if i < |s.channel| then Some(s.channel[i].buf) else None
    case InHand => if s.dispatch.Offering? || s.dispatch.Putting? then Some(s.dispatch.msg.buf) else None
    case InQueue(c, i) =>
      if c in s.sessions && i < |s.sessions[c].queue| then Some(s.sessions[c].queue[i].msg.buf) else None
    case InSlot(c) =>
      if c in s.sessions && s.sessions[c].slot.Taken? then Some(s.sessions[c].slot.item.msg.buf) else None
  }

  /** The buffers nobody in the listener may hold. */
  function Pooled(s: State): set<nat> {
    s.free + s.elsewhere
  }

  ghost predicate Owned(s: State) {
    (forall p, q :: HolderAt(s, p).Some? && HolderAt(s, p) == HolderAt(s, q) ==> p == q) &&
    (forall p :: HolderAt(s, p).Some? ==> HolderAt(s, p).value in s.mem && HolderAt(s, p).value !in Pooled(s)) &&
    Pooled(s) <= s.mem.Keys && s.free !! s.elsewhere
  }

  /** Every place that holds a buffer in t has it from place back(p) in s, no two from the same one. */
  ghost predicate Moved(s: State, t: State, back: Place -> Place) {
    (forall p :: HolderAt(t, p).Some? ==> HolderAt(t, p) == HolderAt(s, back(p))) &&
    (forall p, q :: HolderAt(t, p).Some? && HolderAt(t, q).Some? && back(p) == back(q) ==> p == q)
  }

  /** The buffer held at place gone of s has gone to the pool, and is held nowhere in t. */
  ghost predicate GaveBack(s: State, t: State, back: Place -> Place, gone: Place) {
    HolderAt(s, gone).Some? && t.free == s.free + {HolderAt(s, gone).value} &&
    forall p :: HolderAt(t, p).Some? ==> back(p) != gone
  }

  /** Moving buffers keeps them owned; one that is held nowhere any more may have gone to the pool. */
  lemma MovingKeepsOwned(s: State, t: State, back: Place -> Place, gone: Place)
    requires Owned(s) && Moved(s, t, back)
    requires s.mem.Keys <= t.mem.Keys && t.elsewhere == s.elsewhere
    requires t.free == s.free || GaveBack(s, t, back, gone)
    ensures Owned(t)
  {
    hide HolderAt;
  }

  lemma GettingKeepsOwned(s: State, a: RunAct)
    requires Owned(s) && a.Get? && RunEnabled(s, a)
    ensures Owned(RunNext(s, a))
  {
    var t := RunNext(s, a);
    assert forall p :: p != InRun ==> HolderAt(t, p) == HolderAt(s, p);
  }

  lemma RunKeepsOwned(s: State, a: RunAct)
    requires Owned(s) && RunEnabled(s, a)
    ensures Owned(RunNext(s, a))
  {
    hide Owned;
    var t := RunNext(s, a);
    if a.Get? {
      GettingKeepsOwned(s, a);
    } else if a.Send? {
      MovingKeepsOwned(s, t, (p: Place) => if p == InChannel(|s.channel|) then InRun else p, InRun);
    } else {
      MovingKeepsOwned(s, t, p => p, InRun);
    }
  }

  /** Taking the oldest message from the channel moves every message in it. */
  lemma NextHolders(s: State, a: DispatchAct, p: Place)
    requires DispatchEnabled(s, a) && a.Next?
    ensures HolderAt(DispatchNext(s, a), p) ==
      if p.InHand? then HolderAt(s, InChannel(0))
      else if p.InChannel? then HolderAt(s, InChannel(p.i + 1))
      else HolderAt(s, p)
  {
    hide FrameOf;
  }

  lemma NextKeepsOwned(s: State, a: DispatchAct)
    requires Owned(s) && DispatchEnabled(s, a) && a.Next?
    ensures Owned(DispatchNext(s, a))
  {
    var t := DispatchNext(s, a);
    assert t.mem == s.mem && t.free == s.free && t.elsewhere == s.elsewhere;
    hide Owned, DispatchNext, HolderAt, Pooled;
    forall p {:trigger HolderAt(t, p)} {
      NextHolders(s, a, p);
    }
    var back := (p: Place) => if p.InHand? then InChannel(0) else if p.InChannel? then InChannel(p.i + 1) else p;
    MovingKeepsOwned(s, t, back, InHand);
  }

  lemma DispatchKeepsOwned(s: State, a: DispatchAct)
    requires Owned(s) && DispatchEnabled(s, a)
    ensures Owned(DispatchNext(s, a))
  {
    hide Owned, FrameOf;
    if a.Next? {
      NextKeepsOwned(s, a);
    } else {
      MovingKeepsOwned(s, DispatchNext(s, a), p => p, InHand);
    }
  }

  lemma DropKeepsOwned(s: State, a: PutAct)
    requires Owned(s) && PutEnabled(s, a) && a.DropOldest?
    ensures Owned(PutNext(s, a))
  {
    hide Owned, FrameOf;
    var t, c := PutNext(s, a), s.dispatch.to;
    MovingKeepsOwned(s, t, (p: Place) => if p.InQueue? && p.c == c then InQueue(c, p.i + 1) else p, InQueue(c, 0));
  }

  lemma PutKeepsOwned(s: State, a: PutAct)
    requires Owned(s) && PutEnabled(s, a)
    ensures Owned(PutNext(s, a))
  {
    hide Owned, FrameOf;
    var t, c, n := PutNext(s, a), s.dispatch.to, |s.sessions[s.dispatch.to].queue|;
    match a
    case Push => MovingKeepsOwned(s, t, (p: Place) => if p == InQueue(c, n) then InHand else p, InHand);
    case DropOldest => DropKeepsOwned(s, a);
    case _ => MovingKeepsOwned(s, t, p => p, InHand);
  }

  lemma DeliveryKeepsOwned(s: State, c: nat, a: SessionAct)
    requires Owned(s) && SessionEnabled(s, c, a) && a.Deliver?
    ensures Owned(SessionNext(s, c, a))
  {
    hide Owned, FrameOf;
    var t := SessionNext(s, c, a);
    var m := s.sessions[c].slot.item.msg;
    assert HolderAt(s, InSlot(c)) == Some(m.buf);
    MovingKeepsOwned(s, t, p => p, InSlot(c));
  }

  lemma SessionKeepsOwned(s: State, c: nat, a: SessionAct)
    requires Owned(s) && SessionEnabled(s, c, a)
    ensures Owned(SessionNext(s, c, a))
  {
    hide Owned, FrameOf;
    var t := SessionNext(s, c, a);
    if a.Take? {
      var back := (p: Place) =>
        if p == InSlot(c) then InQueue(c, 0) else if p.InQueue? && p.c == c then InQueue(c, p.i + 1) else p;
      MovingKeepsOwned(s, t, back, InSlot(c));
    } else if a.Deliver? {
      DeliveryKeepsOwned(s, c, a);
    } else {
      MovingKeepsOwned(s, t, p => p, InSlot(c));
    }
  }

  lemma OtherKeepsOwned(s: State, a: OtherAct)
    requires Owned(s) && OtherEnabled(s, a)
    ensures Owned(OtherNext(s, a))
  {
    var t := OtherNext(s, a);
    assert forall p :: HolderAt(t, p) == HolderAt(s, p);
  }

  // ----- Nothing from the pool is lost -----

  /** Whether the buffer held at p came from the pool. */
  predicate FromPool(s: State, p: Place)
    requires HolderAt(s, p).Some?
  {
    match p
    case InRun => if s.run.Reading? then s.run.pooled else s.run.msg.pooled
    case InChannel(i) => s.channel[i].pooled
    case InHand => s.dispatch.msg.pooled
    case InQueue(c, i) => s.sessions[c].queue[i].msg.pooled
    case InSlot(c) => s.sessions[c].slot.item.msg.pooled
  }

  /** The pool buffer held at p of s is held at q of t. */
  predicate Keeps(s: State, p: Place, t: State, q: Place) {
    HolderAt(s, p).Some? && HolderAt(t, q) == HolderAt(s, p) && FromPool(t, q) == FromPool(s, p)
  }

  ghost predicate KeptOrFreed(s: State, p: Place, t: State) {
    HolderAt(s, p).Some? && FromPool(s, p) ==> HolderAt(s, p).value in t.free || exists q :: Keeps(s, p, t, q)
  }

  lemma RunKeepsBuffers(s: State, a: RunAct, p: Place)
    requires Owned(s) && RunEnabled(s, a)
    ensures KeptOrFreed(s, p, RunNext(s, a))
  {
    var t := RunNext(s, a);
    if p != InRun {
      assert HolderAt(s, p).Some? ==> Keeps(s, p, t, p);
    } else if a.Send? {
      assert Keeps(s, p, t, InChannel(|s.channel|));
    } else if a.Receive? {
      assert Keeps(s, p, t, InRun);
    }
  }

  lemma NextKeepsBuffers(s: State, a: DispatchAct, p: Place)
    requires DispatchEnabled(s, a) && a.Next?
    ensures KeptOrFreed(s, p, DispatchNext(s, a))
  {
    hide FrameOf;
    var t := DispatchNext(s, a);
    if HolderAt(s, p).Some? {
      var q := if p == InChannel(0) then InHand else if p.InChannel? then InChannel(p.i - 1) else p;
      assert HolderAt(t, q) == HolderAt(s, p);
      assert Keeps(s, p, t, q);
    }
  }

  lemma DispatchKeepsBuffers(s: State, a: DispatchAct, p: Place)
    requires DispatchEnabled(s, a)
    ensures KeptOrFreed(s, p, DispatchNext(s, a))
  {
    hide FrameOf;
    if a.Next? {
      NextKeepsBuffers(s, a, p);
    } else if HolderAt(s, p).Some? && (p != InHand || a.Accept?) {
      assert Keeps(s, p, DispatchNext(s, a), p);
    }
  }

  lemma PutKeepsBuffers(s: State, a: PutAct, p: Place)
    requires PutEnabled(s, a)
    ensures KeptOrFreed(s, p, PutNext(s, a))
  {
    hide FrameOf;
    var t, c := PutNext(s, a), s.dispatch.to;
    if a.DropOldest? && p.InQueue? && p.c == c {
      assert p.i > 0 && HolderAt(s, p).Some? ==> Keeps(s, p, t, InQueue(c, p.i - 1));
    } else if a.Push? && p == InHand {
      assert Keeps(s, p, t, InQueue(c, |s.sessions[c].queue|));
    } else if a.SeeClosed? && p == InHand {
    } else {
      assert HolderAt(s, p).Some? ==> Keeps(s, p, t, p);
    }
  }

  lemma TakeKeepsBuffers(s: State, c: nat, p: Place)
    requires SessionEnabled(s, c, Take)
    ensures KeptOrFreed(s, p, SessionNext(s, c, Take))
  {
    hide FrameOf;
    var t := SessionNext(s, c, Take);
    if HolderAt(s, p).Some? {
      var q := if p == InQueue(c, 0) then InSlot(c) else if p.InQueue? && p.c == c then InQueue(c, p.i - 1) else p;
      assert HolderAt(t, q) == HolderAt(s, p);
      assert Keeps(s, p, t, q);
    }
  }

  /** Delivering bytes changes at most what the slot holds. */
  lemma DeliveryHolders(s: State, c: nat, k: nat, p: Place)
    requires SessionEnabled(s, c, Deliver(k)) && HolderAt(s, p).Some?
    requires p == InSlot(c) ==> SessionNext(s, c, Deliver(k)).sessions[c].slot.Taken?
    ensures Keeps(s, p, SessionNext(s, c, Deliver(k)), p)
  {
    hide FrameOf;
  }

  lemma DeliveryKeepsBuffers(s: State, c: nat, k: nat, p: Place)
    requires SessionEnabled(s, c, Deliver(k))
    ensures KeptOrFreed(s, p, SessionNext(s, c, Deliver(k)))
  {
    hide FrameOf, Keeps;
    if HolderAt(s, p).Some? && (p == InSlot(c) ==> SessionNext(s, c, Deliver(k)).sessions[c].slot.Taken?) {
      DeliveryHolders(s, c, k, p);
    }
  }

  lemma SessionKeepsBuffers(s: State, c: nat, a: SessionAct, p: Place)
    requires SessionEnabled(s, c, a)
    ensures KeptOrFreed(s, p, SessionNext(s, c, a))
  {
    hide FrameOf;
    match a
    case Take => TakeKeepsBuffers(s, c, p);
    case Deliver(k) => DeliveryKeepsBuffers(s, c, k, p);
    case _ =>
      if HolderAt(s, p).Some? {
        assert Keeps(s, p, SessionNext(s, c, a), p);
      }
  }

  lemma OtherKeepsBuffers(s: State, a: OtherAct, p: Place)
    requires OtherEnabled(s, a)
    ensures KeptOrFreed(s, p, OtherNext(s, a))
  {
    if HolderAt(s, p).Some? {
      assert Keeps(s, p, OtherNext(s, a), p);
    }
  }
}

/** The UDP listener over whole runs, whatever the order of its goroutines' steps. */
module UdpRuns {
  import opened Bytes
  import opened UdpFraming
  import opened UdpSessions
  import opened UdpOwnership
  import opened UdpDelivery
  import opened UdpSafety
  import opened UdpTable
  import opened UdpFlow

  ghost predicate Safe(s: State) {
    s.frame >= 1 && Owned(s) && Delivering(s) && Tabled(s) && Flowing(s) && Addressed(s)
  }

  /** t is reached from s by these steps. */
  ghost predicate Reaches(s: State, steps: seq<Step>, t: State)
    decreases |steps|
  {
    if steps == [] then s == t else Enabled(s, steps[0]) && Reaches(Apply(s, steps[0]), steps[1..], t)
  }

  lemma InitiallySafe(s: State)
    requires Initial(s)
    ensures Safe(s)
  {
  }

  lemma StepKeepsOwned(s: State, step: Step)
    requires Owned(s) && Enabled(s, step)
    ensures Owned(Apply(s, step))
  {
    hide Owned;
    match step
    case OfRun(a) => RunKeepsOwned(s, a);
    case OfDispatch(a) => DispatchKeepsOwned(s, a);
    case OfPut(a) => PutKeepsOwned(s, a);
    case OfSession(c, a) => SessionKeepsOwned(s, c, a);
    case OfOther(a) => OtherKeepsOwned(s, a);
  }

  lemma StepKeepsDelivering(s: State, step: Step)
    requires Owned(s) && Delivering(s) && Enabled(s, step)
    ensures Delivering(Apply(s, step))
  {
    hide Owned, Delivering;
    match step
    case OfRun(a) => RunKeepsDelivering(s, a);
    case OfDispatch(a) => DispatchKeepsDelivering(s, a);
    case OfPut(a) => PutKeepsDelivering(s, a);
    case OfSession(c, a) => SessionKeepsDelivering(s, c, a);
    case OfOther(a) => OtherKeepsDelivering(s, a);
  }

  lemma DispatchKeepsFrame(s: State, a: DispatchAct)
    requires DispatchEnabled(s, a)
    ensures DispatchNext(s, a).frame == s.frame
  {
    hide FrameOf;
  }

  lemma PutKeepsFrame(s: State, a: PutAct)
    requires PutEnabled(s, a)
    ensures PutNext(s, a).frame == s.frame
  {
    hide FrameOf;
  }

  lemma SessionKeepsFrame(s: State, c: nat, a: SessionAct)
    requires SessionEnabled(s, c, a)
    ensures SessionNext(s, c, a).frame == s.frame
  {
    hide FrameOf;
  }

  lemma StepKeepsFrame(s: State, step: Step)
    requires Enabled(s, step)
    ensures Apply(s, step).frame == s.frame
  {
    hide DispatchNext, PutNext, SessionNext, DispatchEnabled, PutEnabled, SessionEnabled;
    match step
    case OfDispatch(a) => DispatchKeepsFrame(s, a);
    case OfPut(a) => PutKeepsFrame(s, a);
    case OfSession(c, a) => SessionKeepsFrame(s, c, a);
    case _ =>
  }

  lemma StepKeepsSafe(s: State, step: Step)
    requires Safe(s) && Enabled(s, step)
    ensures Safe(Apply(s, step))
  {
    hide Owned, Delivering, Tabled, Flowing, Addressed, Enabled, Apply;
    StepKeepsFrame(s, step);
    StepKeepsOwned(s, step);
    StepKeepsDelivering(s, step);
    StepKeepsTable(s, step);
    StepKeepsFlow(s, step);
  }

  lemma {:induction false} StepsKeepSafe(s: State, steps: seq<Step>, t: State)
    requires Safe(s) && Reaches(s, steps, t)
    ensures Safe(t)
    decreases |steps|
  {
    if steps != [] {
      StepKeepsSafe(s, steps[0]);
      StepsKeepSafe(Apply(s, steps[0]), steps[1..], t);
    }
  }

  /** Ownership, delivery, the table and the flow of datagrams hold after any run. */
  lemma {:induction false} RunsAreSafe(s: State, steps: seq<Step>, t: State)
    requires Initial(s) && Reaches(s, steps, t)
    ensures Safe(t)
  {
    InitiallySafe(s);
    StepsKeepSafe(s, steps, t);
  }

  // ----- No step is missing -----

  /** The head of the channel, when its address is known, can be handed over. */
  lemma {:induction false} NextCanHand(s: State, steps: seq<Step>, t: State)
    requires Initial(s) && Reaches(s, steps, t)
    requires t.dispatch.AtSelect? && t.channel != [] && t.channel[0].addr in t.keys
    ensures DispatchEnabled(t, Next(t.keys[t.channel[0].addr]))
  {
    hide Owned, Flowing, Addressed, Reaches;
    RunsAreSafe(s, steps, t);
  }

  /** So can a message whose session Accept takes. */
  lemma {:induction false} OfferedCanHand(s: State, steps: seq<Step>, t: State)
    requires Initial(s) && Reaches(s, steps, t) && t.dispatch.Offering?
    ensures DispatchEnabled(t, Accept)
  {
    hide Owned, Flowing, Addressed, Reaches;
    RunsAreSafe(s, steps, t);
  }

  /** putRead always has a step to take, whatever its readers do: it never blocks. */
  lemma {:induction false} PutNeverBlocks(s: State, steps: seq<Step>, t: State)
    requires Initial(s) && Reaches(s, steps, t) && t.dispatch.Putting?
    ensures t.dispatch.stage.Header? ==> PutEnabled(t, WriteLength)
    ensures t.dispatch.stage.First? ==> PutEnabled(t, SeeClosed) || PutEnabled(t, Push) || PutEnabled(t, SeeFull)
    ensures t.dispatch.stage.Second? ==> PutEnabled(t, SeeClosed) || PutEnabled(t, Push) || PutEnabled(t, DropOldest)
  {
    hide Owned, Flowing, Addressed, Reaches, SessionsIntact;
    RunsAreSafe(s, steps, t);
  }

  /** A reader with a frame in its slot can take any number of its bytes. */
  lemma {:induction false} ReaderNeverBlocks(s: State, steps: seq<Step>, t: State, c: nat)
    requires Initial(s) && Reaches(s, steps, t) && c in t.sessions && t.sessions[c].slot.Taken?
    ensures var slot := t.sessions[c].slot;
      slot.item.msg.buf in t.mem && slot.offset < |t.mem[slot.item.msg.buf]| &&
      forall k :: 0 <= k <= |t.mem[slot.item.msg.buf]| - slot.offset ==> SessionEnabled(t, c, Deliver(k))
  {
    hide Safe, Reaches, Frames, FrameOf, Picked;
    RunsAreSafe(s, steps, t);
    SafeSession(t, c);
  }

  // ----- What that means for a reader -----

  /** The datagrams whose frames Read has returned to the last byte. */
  function Finished(x: Session): seq<nat>
    requires x.slot.Taken? ==> x.taken != []
  {
    if x.slot.Taken? then x.taken[..|x.taken| - 1] else x.taken
  }

  /**
   * A reader has got the frames of a rising selection of its datagrams, the last one perhaps in
   * part; the newest is queued or taken once putRead is done with it, unless the session was closed.
   */
  lemma {:induction false} ReadersGetWholeFrames(s: State, steps: seq<Step>, t: State, c: nat)
    requires Initial(s) && Reaches(s, steps, t) && c in t.sessions
    ensures var x := t.sessions[c];
      && (forall i :: 0 <= i < |x.taken| ==> x.taken[i] < |x.arrived|)
      && (forall i, j :: 0 <= i < j < |x.taken| ==> x.taken[i] < x.taken[j])
      && x.out <= Frames(Picked(x.arrived, x.taken))
      && (x.slot.Empty? ==> x.out == Frames(Picked(x.arrived, x.taken)))
      && |x.queue| <= t.frame
      && (!Pending(t, c) && x.closing.Open? && x.arrived != [] ==>
           |x.arrived| - 1 in x.taken + Numbers(x.queue))
  {
    hide Safe, Reaches, Frames, FrameOf;
    RunsAreSafe(s, steps, t);
    SafeSession(t, c);
    var x := t.sessions[c];
    assert forall i :: 0 <= i < |x.taken| ==> Order(x)[i] == x.taken[i];
  }

  lemma SafeSession(s: State, c: nat)
    requires Safe(s) && c in s.sessions
    ensures Orderly(s.sessions[c], s.frame, Pending(s, c)) && Intact(s.sessions[c], s.mem)
  {
    hide Owned, Tabled, Flowing, Addressed;
  }

  /** Decoded at the other end, that is exactly the nonempty datagrams finished so far, none of them torn. */
  lemma {:induction false} ReadersDecode(s: State, steps: seq<Step>, t: State, c: nat)
    requires Initial(s) && Reaches(s, steps, t) && c in t.sessions
    requires forall d :: d in t.sessions[c].arrived ==> |d| <= MAX_DATAGRAM
    ensures var x := t.sessions[c];
      && (x.slot.Taken? ==> x.taken != []) && Rising(Finished(x), |x.arrived|)
      && Decode(x.out) == NonEmpty(Picked(x.arrived, Finished(x)))
  {
    hide Safe, Reaches, Frames, FrameOf, Decode, NonEmpty, Picked;
    RunsAreSafe(s, steps, t);
    SafeSession(t, c);
    var x := t.sessions[c];
    assert forall i :: 0 <= i < |x.taken| ==> Order(x)[i] == x.taken[i];
    hide Intact;
    SessionDecodes(x, t.mem);
  }

  lemma SessionDecodes(x: Session, mem: map<nat, seq<Byte>>)
    requires Intact(x, mem) && (x.slot.Taken? ==> x.taken != []) && Rising(x.taken, |x.arrived|)
    requires forall d :: d in x.arrived ==> |d| <= MAX_DATAGRAM
    ensures Decode(x.out) == NonEmpty(Picked(x.arrived, Finished(x)))
  {
    hide Frames, FrameOf, Decode, NonEmpty, Order;
    var ds := Picked(x.arrived, Finished(x));
    assert forall d :: d in ds ==> d in x.arrived;
    if x.slot.Empty? {
      assert x.out == Frames(ds) + FrameOf([])[..0];
      DecodeFrames(ds, [], 0);
    } else {
      var d, o := x.arrived[x.slot.item.index], x.slot.offset;
      assert Picked(x.arrived, x.taken) == ds + [d];
      FramesSnoc(ds, d);
      Cut(x.out, FrameOf(d), o, Frames(ds));
      DecodeFrames(ds, d, o);
    }
  }

  lemma Cut(out: seq<Byte>, f: seq<Byte>, o: nat, all: seq<Byte>)
    requires o <= |f| && out + f[o..] == all + f
    ensures out == all + f[..o]
  {
    assert all + f == (all + f[..o]) + f[o..];
    assert |out| == |all| + o;
    assert out == (out + f[o..])[..|out|];
  }

  // ----- For buffers -----

  /** The buffer a step hands to the pool's Put, if any. */
  function Puts(s: State, step: Step): Option<nat>
    requires Enabled(s, step)
  {
    match step
    case OfRun(Fail) => if s.run.pooled then Some(s.run.buf) else None
    case OfRun(SendClosed) => if s.run.msg.pooled then Some(s.run.msg.buf) else None
    case OfDispatch(OfferClosed) => if s.dispatch.msg.pooled then Some(s.dispatch.msg.buf) else None
    case OfPut(SeeClosed) => if s.dispatch.msg.pooled then Some(s.dispatch.msg.buf) else None
    case OfPut(DropOldest) =>
      var m := s.sessions[s.dispatch.to].queue[0].msg;
      if m.pooled then Some(m.buf) else None
    case OfSession(c, Deliver(k)) =>
      var slot := s.sessions[c].slot;
      if slot.item.msg.pooled && slot.offset + k == |s.mem[slot.item.msg.buf]| then Some(slot.item.msg.buf) else None
    case OfOther(PoolPut(b)) => Some(b)
    case _ => None
  }

  /**
   * Whatever is put back was in neither the pool nor anyone else's hands unless it is theirs to put,
   * and afterwards no place of the listener holds it.
   */
  lemma {:induction false} PutOnce(s: State, steps: seq<Step>, t: State, step: Step)
    requires Initial(s) && Reaches(s, steps, t) && Enabled(t, step) && Puts(t, step).Some?
    ensures var b := Puts(t, step).value;
      && b !in t.free && (b in t.elsewhere <==> step.OfOther?) && b in Apply(t, step).free
      && (forall p :: HolderAt(Apply(t, step), p) != Some(b))
  {
    RunsAreSafe(s, steps, t);
    PutFromHolder(t, step);
    StepKeepsOwned(t, step);
    hide Apply, Enabled, HolderAt, Puts, Delivering, Tabled, Flowing, Addressed;
  }

  lemma PutFromHolder(s: State, step: Step)
    requires Owned(s) && Enabled(s, step) && Puts(s, step).Some?
    ensures var b := Puts(s, step).value;
      && b in Apply(s, step).free
      && if step.OfOther? then b in s.elsewhere else exists p :: HolderAt(s, p) == Some(b)
  {
    hide Owned, FrameOf;
    match step
    case OfRun(_) => assert HolderAt(s, InRun) == Puts(s, step);
    case OfDispatch(_) => assert HolderAt(s, InHand) == Puts(s, step);
    case OfPut(SeeClosed) => assert HolderAt(s, InHand) == Puts(s, step);
    case OfPut(DropOldest) => assert HolderAt(s, InQueue(s.dispatch.to, 0)) == Puts(s, step);
    case OfSession(c, _) => assert HolderAt(s, InSlot(c)) == Puts(s, step);
    case _ =>
  }

  /** A buffer of the pool that a place of the listener holds stays held until it is put back. */
  lemma NoneLostByStep(s: State, step: Step, p: Place)
    requires Owned(s) && Enabled(s, step)
    ensures KeptOrFreed(s, p, Apply(s, step))
  {
    hide Owned, KeptOrFreed;
    match step
    case OfRun(a) => RunKeepsBuffers(s, a, p);
    case OfDispatch(a) => DispatchKeepsBuffers(s, a, p);
    case OfPut(a) => PutKeepsBuffers(s, a, p);
    case OfSession(c, a) => SessionKeepsBuffers(s, c, a, p);
    case OfOther(a) => OtherKeepsBuffers(s, a, p);
  }

  // ----- For the table -----

  /**
   * While the listener is open and onMessage is at its select, a session is in the table exactly
   * until its first Close returns; so there is one such session per address at most.
   */
  lemma {:induction false} TableIsExact(s: State, steps: seq<Step>, t: State, c: nat)
    requires Initial(s) && Reaches(s, steps, t) && !t.closed && t.dispatch.AtSelect? && c in t.sessions
    ensures (t.sessions[c].addr in t.keys && t.keys[t.sessions[c].addr] == c) <==> !t.sessions[c].closing.Returned?
    ensures !t.sessions[c].closing.Returned? ==>
      forall d :: d in t.sessions && t.sessions[d].addr == t.sessions[c].addr && !t.sessions[d].closing.Returned? ==>
        d == c
  {
    hide Owned, Delivering, Flowing, Addressed, Reaches;
    RunsAreSafe(s, steps, t);
  }

  // ----- For datagrams -----

  /** While the listener is open, the datagrams handed to sessions, then those waiting, are those received, in order. */
  lemma {:induction false} NothingLostOnTheWay(s: State, steps: seq<Step>, t: State)
    requires Initial(s) && Reaches(s, steps, t)
    ensures Given(t.handed) <= t.received
    ensures !t.closed ==> Given(t.handed) + Waiting(t) == t.received
  {
    hide Owned, Delivering, Tabled, Addressed, Reaches;
    RunsAreSafe(s, steps, t);
  }

  /** A session's datagrams are those handed to it, in order, each from its own address. */
  lemma {:induction false} DatagramsGoHome(s: State, steps: seq<Step>, t: State, c: nat)
    requires Initial(s) && Reaches(s, steps, t) && c in t.sessions
    ensures t.sessions[c].arrived == HandedTo(t.handed, c)
    ensures forall i :: 0 <= i < |t.handed| && t.handed[i].to == c ==> t.handed[i].datagram.addr == t.sessions[c].addr
  {
    hide Owned, Delivering, Tabled, Flowing, Reaches;
    RunsAreSafe(s, steps, t);
  }
}

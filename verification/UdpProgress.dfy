/**
 * No state of the UDP listener is a dead end: from every state a run reaches, some continuation delivers
 * what is queued, and any further datagram while the listener is open; closing can always be completed.
 */
module UdpProgress {
  import opened Bytes
  import opened UdpFraming
  import opened UdpSessions
  import opened UdpOwnership
  import opened UdpDelivery
  import opened UdpTable
  import opened UdpFlow
  import opened UdpRuns

  // ----- Runs -----

  lemma {:induction false} ReachesMore(s: State, a: seq<Step>, t: State, b: seq<Step>, u: State)
    requires Reaches(s, a, t) && Reaches(t, b, u)
    ensures Reaches(s, a + b, u)
    decreases |a|
  {
    if a == [] {
      assert a + b == b;
    } else {
      ReachesMore(Apply(s, a[0]), a[1..], t, b, u);
      assert (a + b)[1..] == a[1..] + b;
    }
  }

  lemma {:induction false} ReachesOne(s: State, step: Step)
    requires Safe(s) && Enabled(s, step)
    ensures Reaches(s, [step], Apply(s, step)) && Safe(Apply(s, step))
  {
    hide Safe, Enabled, Apply;
    StepKeepsSafe(s, step);
    assert [step][1..] == [];
    assert Reaches(Apply(s, step), [], Apply(s, step));
  }

  lemma {:induction false} PutStep(s: State, a: PutAct)
    requires Safe(s) && PutEnabled(s, a)
    ensures Reaches(s, [OfPut(a)], PutNext(s, a)) && Safe(PutNext(s, a))
  {
    hide Safe, PutEnabled, PutNext;
    ReachesOne(s, OfPut(a));
  }

  lemma {:induction false} DispatchStep(s: State, a: DispatchAct)
    requires Safe(s)
    ensures DispatchEnabled(s, a) ==>
      Reaches(s, [OfDispatch(a)], DispatchNext(s, a)) && Safe(DispatchNext(s, a))
  {
    hide Safe, DispatchEnabled, DispatchNext;
    if DispatchEnabled(s, a) {
      ReachesOne(s, OfDispatch(a));
    }
  }

  lemma {:induction false} RunStep(s: State, a: RunAct)
    requires Safe(s) && RunEnabled(s, a)
    ensures Reaches(s, [OfRun(a)], RunNext(s, a)) && Safe(RunNext(s, a))
  {
    hide Safe, RunEnabled, RunNext;
    ReachesOne(s, OfRun(a));
  }

  lemma {:induction false} SessionStep(s: State, c: nat, a: SessionAct)
    requires Safe(s) && SessionEnabled(s, c, a)
    ensures Reaches(s, [OfSession(c, a)], SessionNext(s, c, a)) && Safe(SessionNext(s, c, a))
  {
    hide Safe, SessionEnabled, SessionNext;
    ReachesOne(s, OfSession(c, a));
  }

  lemma Fresh(names: set<nat>) returns (n: nat)
    ensures forall x :: x in names ==> x < n
  {
    if names == {} {
      n := 0;
    } else {
      var x :| x in names;
      var m := Fresh(names - {x});
      assert names == names - {x} + {x};
      n := if x < m then m else x + 1;
    }
  }

  // ----- A reader -----

  /** Steps of one session's reader. */
  predicate Reads(steps: seq<Step>, c: nat) {
    forall step :: step in steps ==> step.OfSession? && step.c == c && (step.session.Take? || step.session.Deliver?)
  }

  /** What they leave alone. */
  predicate OnlyRead(s: State, t: State, c: nat) {
    t.frame == s.frame && t.closed == s.closed && t.run == s.run && t.channel == s.channel &&
    t.dispatch == s.dispatch && t.keys == s.keys && t.received == s.received && t.handed == s.handed &&
    t.mem == s.mem && t.elsewhere == s.elsewhere &&
    c in s.sessions && t.sessions.Keys == s.sessions.Keys && t.sessions == s.sessions[c := t.sessions[c]] &&
    t.sessions[c].addr == s.sessions[c].addr && t.sessions[c].closing == s.sessions[c].closing &&
    t.sessions[c].arrived == s.sessions[c].arrived
  }

  /** A reader whose slot is empty can take from its queue, down to the last message. */
  lemma {:induction false} TakeEnabled(s: State, steps: seq<Step>, t: State, c: nat)
    requires Initial(s) && Reaches(s, steps, t)
    requires c in t.sessions && t.sessions[c].slot.Empty? && |t.sessions[c].queue| >= 1
    ensures SessionEnabled(t, c, Take)
  {
  }

  /** The rest of the frame in the slot, in one read. */
  lemma {:induction false} FinishSlot(s: State, c: nat) returns (steps: seq<Step>, t: State)
    requires Safe(s) && c in s.sessions
    ensures Reaches(s, steps, t) && Safe(t) && Reads(steps, c) && OnlyRead(s, t, c)
    ensures t.sessions[c].slot.Empty? && t.sessions[c].queue == s.sessions[c].queue
    ensures t.sessions[c].taken == s.sessions[c].taken
  {
    hide Safe, FrameOf, Frames, Picked;
    var x := s.sessions[c];
    if x.slot.Empty? {
      steps, t := [], s;
    } else {
      SafeSession(s, c);
      var a := Deliver(|s.mem[x.slot.item.msg.buf]| - x.slot.offset);
      steps, t := [OfSession(c, a)], SessionNext(s, c, a);
      SessionStep(s, c, a);
    }
  }

  lemma {:induction false} TakeOne(s: State, c: nat) returns (steps: seq<Step>, t: State)
    requires Safe(s) && c in s.sessions && s.sessions[c].slot.Empty? && s.sessions[c].queue != []
    ensures Reaches(s, steps, t) && Safe(t) && Reads(steps, c) && OnlyRead(s, t, c)
    ensures var x, y := s.sessions[c], t.sessions[c];
      y.slot.Empty? && y.queue == x.queue[1..] && y.taken == x.taken + [x.queue[0].index]
  {
    hide Safe, Reaches;
    var s1 := SessionNext(s, c, Take);
    SessionStep(s, c, Take);
    var more;
    more, t := FinishSlot(s1, c);
    steps := [OfSession(c, Take)] + more;
    ReachesMore(s, [OfSession(c, Take)], s1, more, t);
  }

  /** Everything queued can be read out. */
  lemma {:induction false} DrainQueue(s: State, c: nat) returns (steps: seq<Step>, t: State)
    requires Safe(s) && c in s.sessions
    ensures Reaches(s, steps, t) && Safe(t) && Reads(steps, c) && OnlyRead(s, t, c)
    ensures t.sessions[c].slot.Empty? && t.sessions[c].queue == [] && t.sessions[c].taken == Order(s.sessions[c])
    decreases |s.sessions[c].queue|
  {
    hide Safe, Reaches;
    steps, t := FinishSlot(s, c);
    var x := s.sessions[c];
    if x.queue == [] {
      assert Order(x) == x.taken;
    } else {
      var one, t1 := TakeOne(t, c);
      var more, t2 := DrainQueue(t1, c);
      ReachesMore(s, steps, t, one, t1);
      ReachesMore(s, steps + one, t1, more, t2);
      steps, t := steps + one + more, t2;
      assert Order(t1.sessions[c]) == Order(x);
    }
  }

  /** In every run: the datagram at the head of a queue can be returned whole, by its reader alone. */
  lemma {:induction false} HeadDelivered(s: State, steps: seq<Step>, t: State, c: nat)
    returns (more: seq<Step>, u: State)
    requires Initial(s) && Reaches(s, steps, t) && c in t.sessions && t.sessions[c].queue != []
    ensures Reaches(t, more, u) && Reads(more, c) && c in u.sessions
    ensures var x := t.sessions[c];
      x.queue[0].index < |x.arrived| && (forall i :: 0 <= i < |x.taken| ==> x.taken[i] < |x.arrived|) &&
      x.out <= u.sessions[c].out &&
      u.sessions[c].out == Frames(Picked(x.arrived, x.taken)) + FrameOf(x.arrived[x.queue[0].index])
  {
    hide Safe, Reaches, Frames, FrameOf, Picked;
    RunsAreSafe(s, steps, t);
    SafeSession(t, c);
    var t1;
    more, t1 := FinishSlot(t, c);
    var one;
    one, u := TakeOne(t1, c);
    ReachesMore(t, more, t1, one, u);
    more := more + one;
    SafeSession(u, c);
    var x := t.sessions[c];
    assert Order(x)[|x.taken| + 0] == x.queue[0].index;
    assert forall i :: 0 <= i < |x.taken| ==> Order(x)[i] == x.taken[i];
    TakenMore(x.arrived, x.taken, x.queue[0].index);
  }

  lemma {:induction false} TakenMore(arrived: seq<seq<Byte>>, taken: seq<nat>, n: nat)
    requires n < |arrived| && forall i :: 0 <= i < |taken| ==> taken[i] < |arrived|
    ensures Frames(Picked(arrived, taken + [n])) == Frames(Picked(arrived, taken)) + FrameOf(arrived[n])
  {
    hide Frames, FrameOf;
    assert Picked(arrived, taken + [n]) == Picked(arrived, taken) + [arrived[n]];
    FramesSnoc(Picked(arrived, taken), arrived[n]);
  }

  // ----- onMessage and putRead -----

  /** What handing over messages leaves alone. */
  predicate OnlyHanded(s: State, t: State) {
    t.frame == s.frame && t.closed == s.closed && t.run == s.run && t.received == s.received && t.keys == s.keys
  }

  /** A session as putRead finds and leaves it, but for its queue. */
  predicate SamePeer(x: Session, y: Session) {
    y.addr == x.addr && y.arrived == x.arrived && y.closing == x.closing
  }

  /** putRead's message is in memory, and its session there. */
  lemma HandReady(s: State)
    requires Safe(s)
    ensures s.dispatch.Putting? || s.dispatch.Offering? ==> CanHand(s, s.dispatch.msg, s.dispatch.to) && s.frame >= 1
    ensures s.dispatch.Putting? ==> s.sessions[s.dispatch.to].arrived != []
    ensures s.dispatch.Offering? ==> s.sessions[s.dispatch.to].addr == s.dispatch.msg.addr
  {
    hide Owned, Flowing, Addressed, SessionsIntact, EntriesOk, NoneLost, FrameOf;
  }

  /** A step putRead can take next, pushing its message rather than dropping another. */
  function NextPut(s: State): PutAct
    requires s.dispatch.Putting? && s.dispatch.to in s.sessions
  {
    var x := s.sessions[s.dispatch.to];
    if s.dispatch.stage.Header? then WriteLength
    else if |x.queue| < s.frame then Push
    else if s.dispatch.stage.Second? then DropOldest
    else if x.closing.Open? then SeeFull
    else SeeClosed
  }

  /** How far putRead is from its end. */
  function Ahead(s: State): nat
    requires s.dispatch.Putting? && s.dispatch.to in s.sessions
  {
    3 * |s.sessions[s.dispatch.to].queue| +
    match s.dispatch.stage case Header => 3 case First => 2 case Second => 1
  }

  lemma PutEffect(s: State, a: PutAct)
    requires PutEnabled(s, a)
    ensures var t := PutNext(s, a);
      OnlyHanded(s, t) && t.channel == s.channel && t.handed == s.handed && t.sessions.Keys == s.sessions.Keys &&
      (forall d :: d in s.sessions ==> SamePeer(s.sessions[d], t.sessions[d]))
    ensures var t, c := PutNext(s, a), s.dispatch.to;
      if a.Push? then
        t.dispatch.AtSelect? &&
        t.sessions[c].slot == s.sessions[c].slot && t.sessions[c].taken == s.sessions[c].taken &&
        t.sessions[c].queue == s.sessions[c].queue + [Item(s.dispatch.msg, |s.sessions[c].arrived| - 1)]
      else if a.SeeClosed? then t.dispatch.AtSelect? && t.sessions == s.sessions
      else
        t.dispatch.Putting? && t.dispatch.to == c && t.dispatch.msg == s.dispatch.msg &&
        (if a.DropOldest? then |t.sessions[c].queue| < |s.sessions[c].queue| else t.sessions == s.sessions) &&
        (a == NextPut(s) ==> Ahead(t) < Ahead(s))
  {
    hide FrameOf;
  }

  /** putRead can be completed; a message that fits goes into the queue. */
  lemma {:induction false} FinishPut(s: State) returns (steps: seq<Step>, t: State)
    requires Safe(s) && s.dispatch.Putting? && s.dispatch.to in s.sessions
    ensures Reaches(s, steps, t) && Safe(t) && OnlyHanded(s, t) && t.channel == s.channel && t.handed == s.handed
    ensures t.dispatch.AtSelect? && t.sessions.Keys == s.sessions.Keys
    ensures forall d :: d in s.sessions ==> SamePeer(s.sessions[d], t.sessions[d])
    ensures var x, y := s.sessions[s.dispatch.to], t.sessions[s.dispatch.to];
      |x.queue| < s.frame ==>
        y.queue == x.queue + [Item(s.dispatch.msg, |x.arrived| - 1)] && y.slot == x.slot && y.taken == x.taken
    decreases Ahead(s)
  {
    hide Safe, FrameOf, Reaches;
    HandReady(s);
    var a := NextPut(s);
    var s1 := PutNext(s, a);
    PutStep(s, a);
    PutEffect(s, a);
    hide PutNext, PutEnabled;
    if a.Push? || a.SeeClosed? {
      steps, t := [OfPut(a)], s1;
    } else {
      var more;
      more, t := FinishPut(s1);
      steps := [OfPut(a)] + more;
      ReachesMore(s, [OfPut(a)], s1, more, t);
    }
  }

  /** From any point of its loop onMessage can come back to its select. */
  lemma {:induction false} ToSelect(s: State) returns (steps: seq<Step>, t: State)
    requires Safe(s) && !s.dispatch.DispatchStopped?
    ensures Reaches(s, steps, t) && Safe(t) && t.dispatch.AtSelect? && t.channel == s.channel
    ensures t.frame == s.frame && t.closed == s.closed && t.run == s.run && t.received == s.received
    ensures s.sessions.Keys <= t.sessions.Keys
    ensures forall d :: d in s.sessions ==>
      t.sessions[d].addr == s.sessions[d].addr && t.sessions[d].closing == s.sessions[d].closing
  {
    hide Safe, FrameOf;
    assert Reaches(s, [], s);
    hide Reaches;
    if s.dispatch.AtSelect? {
      steps, t := [], s;
    } else {
      HandReady(s);
      if s.dispatch.Putting? {
        steps, t := FinishPut(s);
      } else {
        var s1 := DispatchNext(s, Accept);
        DispatchStep(s, Accept);
        var more;
        more, t := FinishPut(s1);
        steps := [OfDispatch(Accept)] + more;
        ReachesMore(s, [OfDispatch(Accept)], s1, more, t);
      }
    }
  }

  /** Session c has got m as its newest datagram; queued, if its queue had room. */
  predicate GotIt(s: State, t: State, c: nat, m: Msg) {
    c in t.sessions && t.sessions[c].addr == m.addr &&
    t.sessions[c].arrived == (if c in s.sessions then s.sessions[c].arrived else []) + [m.payload] &&
    ((c in s.sessions ==> |s.sessions[c].queue| < s.frame) ==>
      t.sessions[c].queue != [] &&
      t.sessions[c].queue[|t.sessions[c].queue| - 1].index == |t.sessions[c].arrived| - 1)
  }

  lemma HeadReady(s: State)
    requires Safe(s) && s.channel != []
    ensures s.channel[0].buf in s.mem && |s.mem[s.channel[0].buf]| >= 2 && s.frame >= 1
    ensures s.channel[0].addr in s.keys ==>
      s.keys[s.channel[0].addr] in s.sessions && s.sessions[s.keys[s.channel[0].addr]].addr == s.channel[0].addr
  {
    hide Owned, Flowing, Addressed, HandIntact, SessionsIntact, FrameOf, NoneLost, HandOk;
  }

  /** The oldest message in the channel is handed to the session of its address, a new one if need be. */
  lemma {:induction false} HandNext(s: State) returns (steps: seq<Step>, t: State, c: nat)
    requires Safe(s) && s.dispatch.AtSelect? && s.channel != []
    ensures Reaches(s, steps, t) && Safe(t) && t.dispatch.AtSelect? && t.channel == s.channel[1..]
    ensures t.frame == s.frame && t.closed == s.closed && t.run == s.run && t.received == s.received
    ensures if s.channel[0].addr in s.keys then c == s.keys[s.channel[0].addr] else c !in s.sessions
    ensures GotIt(s, t, c, s.channel[0])
  {
    hide Safe, FrameOf, Reaches;
    HeadReady(s);
    var m := s.channel[0];
    c := Fresh(s.sessions.Keys);
    if m.addr in s.keys {
      c := s.keys[m.addr];
    }
    var s1, more := DispatchNext(s, Next(c)), [];
    steps := [OfDispatch(Next(c))];
    DispatchStep(s, Next(c));
    if m.addr !in s.keys {
      var s2 := DispatchNext(s1, Accept);
      DispatchStep(s1, Accept);
      ReachesMore(s, steps, s1, [OfDispatch(Accept)], s2);
      steps, s1 := steps + [OfDispatch(Accept)], s2;
    }
    hide DispatchNext, DispatchEnabled;
    more, t := FinishPut(s1);
    ReachesMore(s, steps, s1, more, t);
    steps := steps + more;
  }

  lemma {:induction false} EmptyChannel(s: State) returns (steps: seq<Step>, t: State)
    requires Safe(s) && s.dispatch.AtSelect?
    ensures Reaches(s, steps, t) && Safe(t) && t.dispatch.AtSelect? && t.channel == []
    ensures t.frame == s.frame && t.closed == s.closed && t.run == s.run && t.received == s.received
    decreases |s.channel|
  {
    hide Safe;
    if s.channel == [] {
      steps, t := [], s;
    } else {
      var one, s1, _ := HandNext(s);
      var more;
      more, t := EmptyChannel(s1);
      steps := one + more;
      ReachesMore(s, one, s1, more, t);
    }
  }

  // ----- A datagram from the socket to the reader -----

  lemma StillRunning(s: State)
    requires Safe(s) && !s.closed
    ensures !s.dispatch.DispatchStopped? && !s.run.RunStopped? && s.frame >= 1
  {
    hide Owned, Delivering, Tabled, Addressed;
  }

  /** While the listener is open, everything received so far can be handed over. */
  lemma {:induction false} Settle(s: State) returns (steps: seq<Step>, t: State)
    requires Safe(s) && !s.closed
    ensures Reaches(s, steps, t) && Safe(t) && !t.closed && t.received == s.received && t.frame == s.frame >= 1
    ensures t.dispatch.AtSelect? && t.channel == [] && t.run.Idle?
  {
    StillRunning(s);
    hide Safe, FrameOf, Reaches;
    var s1, s2;
    var a, b;
    a, s1 := ToSelect(s);
    b, s2 := EmptyChannel(s1);
    ReachesMore(s, a, s1, b, s2);
    if s.run.Idle? {
      steps, t := a + b, s2;
    } else {
      var act := if s.run.Reading? then Fail else Send;
      var s3 := RunNext(s2, act);
      RunStep(s2, act);
      ReachesMore(s, a + b, s2, [OfRun(act)], s3);
      var d;
      d, t := EmptyChannel(s3);
      steps := a + b + [OfRun(act)] + d;
      ReachesMore(s, a + b + [OfRun(act)], s3, d, t);
    }
  }

  /** A datagram comes in while nothing else is going on, and is handed to its session. */
  lemma {:induction false} Arrive(s: State, addr: nat, data: seq<Byte>) returns (steps: seq<Step>, t: State, c: nat)
    requires Safe(s) && !s.closed && s.frame >= 1 && s.dispatch.AtSelect? && s.channel == [] && s.run.Idle?
    requires addr in s.keys ==> s.keys[addr] in s.sessions && s.sessions[s.keys[addr]].queue == []
    ensures Reaches(s, steps, t) && Safe(t) && !t.closed && t.received == s.received + [Datagram(addr, data)]
    ensures c in t.sessions && t.sessions[c].addr == addr && t.sessions[c].queue != []
    ensures var x := t.sessions[c];
      x.arrived != [] && x.arrived[|x.arrived| - 1] == data && x.queue[|x.queue| - 1].index == |x.arrived| - 1
  {
    hide Safe, FrameOf, Reaches;
    var b := NewBuffer(s);
    var s1 := RunNext(s, Get(b, false));
    RunStep(s, Get(b, false));
    var s2 := RunNext(s1, Receive(addr, data));
    RunStep(s1, Receive(addr, data));
    ReachesMore(s, [OfRun(Get(b, false))], s1, [OfRun(Receive(addr, data))], s2);
    var s3 := RunNext(s2, Send);
    RunStep(s2, Send);
    var a := [OfRun(Get(b, false))] + [OfRun(Receive(addr, data))];
    ReachesMore(s, a, s2, [OfRun(Send)], s3);
    var more;
    more, t, c := HandNext(s3);
    steps := a + [OfRun(Send)] + more;
    ReachesMore(s, a + [OfRun(Send)], s3, more, t);
  }

  /** A buffer made for the purpose. */
  lemma NewBuffer(s: State) returns (b: nat)
    requires Safe(s) && s.run.Idle?
    ensures RunEnabled(s, Get(b, false))
  {
    hide Delivering, Tabled, Flowing, Addressed;
    b := Fresh(s.mem.Keys);
    assert b !in s.mem.Keys;
  }

  lemma KnownSession(s: State, addr: nat)
    requires Safe(s) && addr in s.keys
    ensures s.keys[addr] in s.sessions
  {
    hide Owned, Delivering, Flowing, Addressed, NoneLost, HandOk;
  }

  /**
   * No dead end: from every state a run reaches with the listener open, whatever the queues hold and
   * whoever is in the middle of what, a datagram from any address can be received and returned to the
   * last byte by the reader of a session of that address.
   */
  lemma {:induction false} AnyDatagramArrives(s: State, steps: seq<Step>, t: State, addr: nat, data: seq<Byte>)
    returns (more: seq<Step>, u: State, c: nat, before: seq<Byte>)
    requires Initial(s) && Reaches(s, steps, t) && !t.closed
    ensures Reaches(t, more, u) && !u.closed && u.received == t.received + [Datagram(addr, data)]
    ensures c in u.sessions && u.sessions[c].addr == addr && u.sessions[c].arrived != []
    ensures u.sessions[c].arrived[|u.sessions[c].arrived| - 1] == data
    ensures u.sessions[c].slot.Empty? && u.sessions[c].out == before + FrameOf(data)
  {
    hide Safe, Reaches, Frames, FrameOf, Picked;
    RunsAreSafe(s, steps, t);
    var s1, s2, s3;
    var a, b, d, e := [], [], [], [];
    a, s1 := Settle(t);
    s2 := s1;
    if addr in s1.keys {
      KnownSession(s1, addr);
      b, s2 := DrainQueue(s1, s1.keys[addr]);
      ReachesMore(t, a, s1, b, s2);
      a := a + b;
    }
    d, s3, c := Arrive(s2, addr, data);
    ReachesMore(t, a, s2, d, s3);
    e, u := DrainQueue(s3, c);
    ReachesMore(t, a + d, s3, e, u);
    more := a + d + e;
    before := LastTaken(s3, u, c);
  }

  /** What has been read last when a queue is drained. */
  lemma {:induction false} LastTaken(s: State, t: State, c: nat) returns (before: seq<Byte>)
    requires Safe(t) && c in s.sessions && c in t.sessions && s.sessions[c].queue != []
    requires t.sessions[c].slot.Empty? && t.sessions[c].taken == Order(s.sessions[c])
    requires var x := t.sessions[c];
      x.arrived != [] && s.sessions[c].queue[|s.sessions[c].queue| - 1].index == |x.arrived| - 1
    ensures var x := t.sessions[c]; x.out == before + FrameOf(x.arrived[|x.arrived| - 1])
  {
    hide Safe, Frames, FrameOf, Picked;
    SafeSession(t, c);
    var x := t.sessions[c];
    var n := |x.taken| - 1;
    assert x.taken[n] == |x.arrived| - 1;
    assert forall i :: 0 <= i < |x.taken| ==> Order(x)[i] == x.taken[i];
    before := Frames(Picked(x.arrived, x.taken[..n]));
    TakenMore(x.arrived, x.taken[..n], x.taken[n]);
    assert x.taken[..n] + [x.taken[n]] == x.taken;
  }

  // ----- Closing -----

  /** Once the listener is closed both of its goroutines can return. */
  lemma {:induction false} GoroutinesReturn(s: State, steps: seq<Step>, t: State) returns (more: seq<Step>, u: State)
    requires Initial(s) && Reaches(s, steps, t) && t.closed
    ensures Reaches(t, more, u) && u.run.RunStopped? && u.dispatch.DispatchStopped?
  {
    hide Safe, FrameOf;
    RunsAreSafe(s, steps, t);
    assert Reaches(t, [], t);
    hide Reaches;
    var s1;
    more, s1 := StopRun(t);
    if s1.dispatch.DispatchStopped? {
      u := s1;
    } else {
      var a, s2 := ToSelect(s1);
      ReachesMore(t, more, s1, a, s2);
      u := DispatchNext(s2, Stop);
      DispatchStep(s2, Stop);
      ReachesMore(t, more + a, s2, [OfDispatch(Stop)], u);
      more := more + a + [OfDispatch(Stop)];
    }
  }

  lemma {:induction false} StopRun(s: State) returns (steps: seq<Step>, t: State)
    requires Safe(s) && s.closed
    ensures Reaches(s, steps, t) && Safe(t) && t.closed && t.run.RunStopped? && t.dispatch == s.dispatch
  {
    hide Safe, FrameOf;
    assert Reaches(s, [], s);
    hide Reaches;
    steps, t := [], s;
    if t.run.Idle? {
      var b := NewBuffer(t);
      var s1 := RunNext(t, Get(b, false));
      RunStep(t, Get(b, false));
      steps, t := [OfRun(Get(b, false))], s1;
    }
    if !t.run.RunStopped? {
      var a := if t.run.Reading? then Fail else SendClosed;
      var s2 := RunNext(t, a);
      RunStep(t, a);
      ReachesMore(s, steps, t, [OfRun(a)], s2);
      steps, t := steps + [OfRun(a)], s2;
    }
  }

  /** A session's first Close can return, and then no table entry names it. */
  lemma {:induction false} CloseReturns(s: State, steps: seq<Step>, t: State, c: nat)
    returns (more: seq<Step>, u: State)
    requires Initial(s) && Reaches(s, steps, t) && c in t.sessions
    ensures Reaches(t, more, u) && c in u.sessions && u.sessions[c].closing.Returned?
    ensures !t.closed ==> forall a :: a in u.keys ==> u.keys[a] != c
  {
    hide Safe, FrameOf;
    RunsAreSafe(s, steps, t);
    assert Reaches(t, [], t);
    hide Reaches;
    more, u := [], t;
    if u.sessions[c].closing.Open? {
      u := SessionNext(t, c, CloseBegin);
      SessionStep(t, c, CloseBegin);
      more := [OfSession(c, CloseBegin)];
    }
    if u.sessions[c].closing.Telling? {
      var a, s1, s2 := [], u, u;
      if u.closed {
        s2 := SessionNext(s1, c, CloseEnd);
        SessionStep(s1, c, CloseEnd);
        a := [OfSession(c, CloseEnd)];
      } else {
        StillRunning(u);
        var b;
        b, s1 := ToSelect(u);
        ReachesMore(t, more, u, b, s1);
        more := more + b;
        s2 := DispatchNext(s1, HearClose(c));
        DispatchStep(s1, HearClose(c));
        a := [OfDispatch(HearClose(c))];
      }
      ReachesMore(t, more, s1, a, s2);
      more, u := more + a, s2;
    }
    NotListed(u, c);
  }

  lemma NotListed(s: State, c: nat)
    requires Safe(s) && c in s.sessions && s.sessions[c].closing.Returned?
    ensures !s.closed ==> forall a :: a in s.keys ==> s.keys[a] != c
  {
    hide Owned, Delivering, Flowing, Addressed, NoneLost, HandOk;
  }

  // ----- Others -----

  /** Nothing keeps other users of the pool from taking any free buffer, writing to it and putting it back. */
  lemma OthersAreFree(s: State, b: nat, data: seq<Byte>)
    requires b in s.free
    ensures Enabled(s, OfOther(PoolGet(b)))
    ensures var t := Apply(s, OfOther(PoolGet(b)));
      b !in t.free && Enabled(t, OfOther(Scribble(b, data))) &&
      var u := Apply(t, OfOther(Scribble(b, data)));
      b in u.mem && u.mem[b] == data && Enabled(u, OfOther(PoolPut(b))) && b in Apply(u, OfOther(PoolPut(b))).free
    ensures Enabled(s, OfOther(ListenerClose)) && Apply(s, OfOther(ListenerClose)).closed
  {
  }

  lemma RunPuts(s: State, a: RunAct, b: nat)
    requires RunEnabled(s, a) && b in RunNext(s, a).free && b !in s.free
    ensures Puts(s, OfRun(a)) == Some(b)
  {
    hide FrameOf, DispatchNext, PutNext, SessionNext, OtherNext;
  }

  lemma DispatchPuts(s: State, a: DispatchAct, b: nat)
    requires DispatchEnabled(s, a) && b in DispatchNext(s, a).free && b !in s.free
    ensures Puts(s, OfDispatch(a)) == Some(b)
  {
    hide FrameOf, RunNext, PutNext, SessionNext, OtherNext;
  }

  lemma PutPuts(s: State, a: PutAct, b: nat)
    requires PutEnabled(s, a) && b in PutNext(s, a).free && b !in s.free
    ensures Puts(s, OfPut(a)) == Some(b)
  {
    hide FrameOf, RunNext, DispatchNext, SessionNext, OtherNext;
  }

  lemma SessionPuts(s: State, c: nat, a: SessionAct, b: nat)
    requires SessionEnabled(s, c, a) && b in SessionNext(s, c, a).free && b !in s.free
    ensures Puts(s, OfSession(c, a)) == Some(b)
  {
    hide FrameOf, RunNext, DispatchNext, PutNext, OtherNext;
  }

  /** The pool gets nothing but what Puts names. */
  lemma OnlyPutsFree(s: State, step: Step, b: nat)
    requires Enabled(s, step) && b in Apply(s, step).free && b !in s.free
    ensures Puts(s, step) == Some(b)
  {
    hide RunNext, DispatchNext, PutNext, SessionNext, RunEnabled, DispatchEnabled, PutEnabled, SessionEnabled, Puts;
    match step
    case OfRun(a) => RunPuts(s, a, b);
    case OfDispatch(a) => DispatchPuts(s, a, b);
    case OfPut(a) => PutPuts(s, a, b);
    case OfSession(c, a) => SessionPuts(s, c, a, b);
    case OfOther(a) => OtherPuts(s, a, b);
  }

  lemma OtherPuts(s: State, a: OtherAct, b: nat)
    requires OtherEnabled(s, a) && b in OtherNext(s, a).free && b !in s.free
    ensures Puts(s, OfOther(a)) == Some(b)
  {
    hide FrameOf;
  }
}

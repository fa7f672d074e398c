/**
 * What the readers of the UDP listener's sessions see: whole frames of their datagrams, in order of
 * arrival, some dropped, whatever the interleaving.
 */
module UdpDelivery {
  import opened Bytes
  import opened UdpFraming
  import opened UdpSessions

  // ----- One session -----

  function Numbers(q: seq<Item>): seq<nat> {
    seq(|q|, i requires 0 <= i < |q| => q[i].index)
  }

  /** The datagrams taken by Read and then those queued, by number. */
  function Order(x: Session): seq<nat> {
    x.taken + Numbers(x.queue)
  }

  ghost predicate Rising(ns: seq<nat>, bound: int) {
    (forall i, j :: 0 <= i < j < |ns| ==> ns[i] < ns[j]) && (forall i :: 0 <= i < |ns| ==> ns[i] < bound)
  }

  function Picked(arrived: seq<seq<Byte>>, ns: seq<nat>): seq<seq<Byte>>
    requires forall i :: 0 <= i < |ns| ==> ns[i] < |arrived|
  {
    seq(|ns|, i requires 0 <= i < |ns| => arrived[ns[i]])
  }

  /**
   * Numbers rise, the queue is bounded, and the newest datagram is queued or taken unless putRead is
   * still at work on it (pending) or the session has been closed.
   */
  ghost predicate Orderly(x: Session, frame: nat, pending: bool) {
    Rising(Order(x), |x.arrived| - (if pending then 1 else 0)) && |x.queue| <= frame && (pending ==> x.arrived != []) &&
    (!pending && x.closing.Open? && x.arrived != [] ==> Order(x) != [] && Order(x)[|Order(x)| - 1] == |x.arrived| - 1)
  }

  ghost predicate Holds(mem: map<nat, seq<Byte>>, buf: nat, data: seq<Byte>) {
    buf in mem && mem[buf] == data
  }

  /**
   * Queued buffers hold the frames of their datagrams; Read has returned the taken ones but for what the
   * slot still has.
   */
  ghost predicate Intact(x: Session, mem: map<nat, seq<Byte>>) {
    Rising(Order(x), |x.arrived|) &&
    (forall i :: 0 <= i < |x.queue| ==> Order(x)[|x.taken| + i] == x.queue[i].index) &&
    (forall i :: 0 <= i < |x.queue| ==> Holds(mem, x.queue[i].msg.buf, FrameOf(x.arrived[x.queue[i].index]))) &&
    (forall i :: 0 <= i < |x.taken| ==> Order(x)[i] == x.taken[i]) &&
    match x.slot
    case Empty => x.out == Frames(Picked(x.arrived, x.taken))
    case Taken(item, offset) =>
      x.taken != [] && x.taken[|x.taken| - 1] == item.index &&
      Holds(mem, item.msg.buf, FrameOf(x.arrived[item.index])) && offset < |mem[item.msg.buf]| &&
      x.out + mem[item.msg.buf][offset..] == Frames(Picked(x.arrived, x.taken))
  }

  lemma {:induction false} FramesSnoc(ds: seq<seq<Byte>>, d: seq<Byte>)
    ensures Frames(ds + [d]) == Frames(ds) + FrameOf(d)
  {
    hide FrameOf;
    if ds == [] {
      assert ds + [d] == [d] && [d][1..] == [];
    } else {
      FramesSnoc(ds[1..], d);
      assert (ds + [d])[1..] == ds[1..] + [d];
      Assoc(FrameOf(ds[0]), Frames(ds[1..]), FrameOf(d));
    }
  }

  function AfterTake(x: Session): Session
    requires x.queue != []
  {
    x.(queue := x.queue[1..], slot := Taken(x.queue[0], 0), taken := x.taken + [x.queue[0].index])
  }

  lemma TakeKeeps(x: Session, mem: map<nat, seq<Byte>>, frame: nat, pending: bool)
    requires Intact(x, mem) && Orderly(x, frame, pending) && x.slot.Empty? && x.queue != []
    ensures Order(AfterTake(x)) == Order(x)
    ensures Intact(AfterTake(x), mem) && Orderly(AfterTake(x), frame, pending)
  {
    var y, n := AfterTake(x), x.queue[0].index;
    hide FrameOf, Frames;
    assert Order(y) == Order(x);
    assert x.queue[0].index == Order(x)[|x.taken| + 0];
    assert Picked(y.arrived, y.taken) == Picked(x.arrived, x.taken) + [x.arrived[n]];
    FramesSnoc(Picked(x.arrived, x.taken), x.arrived[n]);
    assert mem[x.queue[0].msg.buf][0..] == mem[x.queue[0].msg.buf];
  }

  function AfterDeliver(x: Session, data: seq<Byte>, k: nat): Session
    requires x.slot.Taken? && x.slot.offset + k <= |data|
  {
    var y := x.(out := x.out + data[x.slot.offset..x.slot.offset + k]);
    if x.slot.offset + k < |data| then y.(slot := x.slot.(offset := x.slot.offset + k)) else y.(slot := Empty)
  }

  lemma DeliverKeepsOrder(x: Session, data: seq<Byte>, k: nat, frame: nat, pending: bool)
    requires Orderly(x, frame, pending) && x.slot.Taken? && x.slot.offset + k <= |data|
    ensures Orderly(AfterDeliver(x, data, k), frame, pending) && Order(AfterDeliver(x, data, k)) == Order(x)
  {
    assert Order(AfterDeliver(x, data, k)) == Order(x);
  }

  lemma DeliverKeepsIntact(x: Session, mem: map<nat, seq<Byte>>, k: nat)
    requires Intact(x, mem) && x.slot.Taken? && x.slot.offset + k <= |mem[x.slot.item.msg.buf]|
    requires Order(AfterDeliver(x, mem[x.slot.item.msg.buf], k)) == Order(x)
    ensures Intact(AfterDeliver(x, mem[x.slot.item.msg.buf], k), mem)
  {
    hide FrameOf, Frames, Order;
    var data, o := mem[x.slot.item.msg.buf], x.slot.offset;
    Split(data, o, o + k, |data|);
    assert data[o..] == data[o..|data|] && data[o + k..] == data[o + k..|data|];
    Assoc(x.out, data[o..o + k], data[o + k..]);
  }

  lemma DeliverKeeps(x: Session, mem: map<nat, seq<Byte>>, k: nat, frame: nat, pending: bool)
    requires Intact(x, mem) && Orderly(x, frame, pending) && x.slot.Taken?
    requires x.slot.offset + k <= |mem[x.slot.item.msg.buf]|
    ensures var y := AfterDeliver(x, mem[x.slot.item.msg.buf], k); Intact(y, mem) && Orderly(y, frame, pending)
  {
    hide FrameOf, Frames, Orderly, Order, Picked, AfterDeliver;
    DeliverKeepsOrder(x, mem[x.slot.item.msg.buf], k, frame, pending);
    DeliverKeepsIntact(x, mem, k);
  }

  function AfterArrival(x: Session, d: seq<Byte>): Session {
    x.(arrived := x.arrived + [d])
  }

  lemma ArrivalKeeps(x: Session, mem: map<nat, seq<Byte>>, d: seq<Byte>, frame: nat)
    requires Intact(x, mem) && Orderly(x, frame, false)
    ensures Intact(AfterArrival(x, d), mem) && Orderly(AfterArrival(x, d), frame, true)
  {
    hide FrameOf, Frames, Picked;
    assert Order(AfterArrival(x, d)) == Order(x);
    PickedBefore(x.arrived, d, x.taken);
  }

  lemma PickedBefore(arrived: seq<seq<Byte>>, d: seq<Byte>, ns: seq<nat>)
    requires forall i :: 0 <= i < |ns| ==> ns[i] < |arrived|
    ensures Picked(arrived + [d], ns) == Picked(arrived, ns)
  {
  }

  function AfterPush(x: Session, m: Msg): Session
    requires x.arrived != []
  {
    x.(queue := x.queue + [Item(m, |x.arrived| - 1)])
  }

  lemma PushKeeps(x: Session, mem: map<nat, seq<Byte>>, m: Msg, frame: nat)
    requires Intact(x, mem) && Orderly(x, frame, true) && |x.queue| < frame
    requires Holds(mem, m.buf, FrameOf(x.arrived[|x.arrived| - 1]))
    ensures Intact(AfterPush(x, m), mem) && Orderly(AfterPush(x, m), frame, false)
  {
    hide FrameOf, Frames;
    var y := AfterPush(x, m);
    assert Order(y) == Order(x) + [|x.arrived| - 1];
  }

  function AfterDrop(x: Session): Session
    requires x.queue != []
  {
    x.(queue := x.queue[1..])
  }

  lemma DropKeeps(x: Session, mem: map<nat, seq<Byte>>, frame: nat)
    requires Intact(x, mem) && Orderly(x, frame, true) && x.queue != []
    ensures Intact(AfterDrop(x), mem) && Orderly(AfterDrop(x), frame, true)
  {
    hide FrameOf, Frames, Picked;
    var y, k := AfterDrop(x), |x.taken|;
    assert Order(y) == Order(x)[..k] + Order(x)[k + 1..];
  }

  /** Only the buffers of the queue and the slot matter. */
  lemma MemoryKeeps(x: Session, mem: map<nat, seq<Byte>>, after: map<nat, seq<Byte>>)
    requires Intact(x, mem)
    requires forall i :: 0 <= i < |x.queue| && x.queue[i].msg.buf in mem ==>
      Holds(after, x.queue[i].msg.buf, mem[x.queue[i].msg.buf])
    requires x.slot.Taken? && x.slot.item.msg.buf in mem ==> Holds(after, x.slot.item.msg.buf, mem[x.slot.item.msg.buf])
    ensures Intact(x, after)
  {
    hide FrameOf, Frames, Picked, Order;
  }

  // ----- The whole listener -----

  /** The datagram lies in its buffer, after room for the length. */
  ghost predicate Whole(s: State, m: Msg) {
    m.buf in s.mem && |s.mem[m.buf]| >= 2 && s.mem[m.buf][2..] == m.payload
  }

  predicate Pending(s: State, c: nat) {
    s.dispatch.Putting? && s.dispatch.to == c
  }

  /** The datagram putRead is working on is the newest of its session, and framed once the length is written. */
  ghost predicate HandIntact(s: State) {
    s.dispatch.Putting? ==>
      CanHand(s, s.dispatch.msg, s.dispatch.to) && s.sessions[s.dispatch.to].arrived != [] &&
      var arrived, data := s.sessions[s.dispatch.to].arrived, s.mem[s.dispatch.msg.buf];
      var d := arrived[|arrived| - 1];
      if s.dispatch.stage.Header? then data[2..] == d else data == FrameOf(d)
  }

  ghost predicate SessionsIntact(s: State) {
    forall c :: c in s.sessions ==> Orderly(s.sessions[c], s.frame, Pending(s, c)) && Intact(s.sessions[c], s.mem)
  }

  ghost predicate Delivering(s: State) {
    |s.channel| <= s.frame &&
    (s.run.Sending? ==> Whole(s, s.run.msg)) &&
    (forall i :: 0 <= i < |s.channel| ==> Whole(s, s.channel[i])) &&
    (s.dispatch.Offering? ==> Whole(s, s.dispatch.msg)) &&
    HandIntact(s) && SessionsIntact(s)
  }
}

/**
 * The UDP listener of internal/network/udp.go as a state machine: the goroutine that receives
 * datagrams (run), the one that hands them to sessions (onMessage), the readers of the sessions, and
 * whoever closes sessions or the listener, interleaved in any way at their channel operations.
 */
module UdpSessions {
  import opened Bytes
  import opened UdpFraming

  /**
   * readUdpMessage: the buffer it lies in, whether that buffer belongs to the pool, and the datagram as the
   * socket gave it.
   */
  datatype Msg = Msg(addr: nat, buf: nat, pooled: bool, payload: seq<Byte>)

  datatype Datagram = Datagram(addr: nat, payload: seq<Byte>)

  /** A datagram given to the putRead of session to. */
  datatype Handover = Handover(to: nat, datagram: Datagram)

  /** A queued message, with its number among the datagrams of its session. */
  datatype Item = Item(msg: Msg, index: nat)

  datatype Run = Idle | Reading(buf: nat, pooled: bool) | Sending(msg: Msg) | RunStopped

  /** Where putRead stands: before the length is written, at its first select, at its second. */
  datatype Stage = Header | First | Second

  datatype Dispatch =
    | AtSelect
    | Offering(msg: Msg, to: nat)
    | Putting(msg: Msg, to: nat, stage: Stage)
    | DispatchStopped

  /** c.read: the item being read and how many of its bytes have been. */
  datatype Slot = Empty | Taken(item: Item, offset: nat)

  /** The first Close of a session: not begun, done closed and the listener being told, returned. */
  datatype Closing = Open | Telling | Returned

  datatype Session = Session(
    addr: nat,
    closing: Closing,
    queue: seq<Item>,
    slot: Slot,
    /** Everything Read has returned. */
    out: seq<Byte>,
    /** Every datagram handed to putRead, and the numbers of those taken from the queue by Read. */
    arrived: seq<seq<Byte>>,
    taken: seq<nat>)

  datatype State = State(
    /** The capacity of the queues. */
    frame: nat,
    /** u.done is closed. */
    closed: bool,
    run: Run,
    channel: seq<Msg>,
    dispatch: Dispatch,
    keys: map<nat, nat>,
    sessions: map<nat, Session>,
    /** The buffers in the pool, those other users of the pool hold, and the contents of all of them. */
    free: set<nat>,
    elsewhere: set<nat>,
    mem: map<nat, seq<Byte>>,
    /** The datagrams the socket gave, and those given to sessions, so far. */
    received: seq<Datagram>,
    handed: seq<Handover>)

  function Put(free: set<nat>, buf: nat, pooled: bool): set<nat> {
    if pooled then free + {buf} else free
  }

  function Released(s: State, m: Msg): State {
    s.(free := Put(s.free, m.buf, m.pooled))
  }

  /** Memory with buffer b in it, a new one if need be. */
  function Known(mem: map<nat, seq<Byte>>, b: nat): map<nat, seq<Byte>> {
    if b in mem then mem else mem[b := []]
  }

  // ----- run -----

  datatype RunAct = Get(buf: nat, pooled: bool) | Receive(addr: nat, data: seq<Byte>) | Fail | Send | SendClosed

  /** Get: a pooled buffer or one made here; the pool, too, may make a new one. */
  predicate RunEnabled(s: State, a: RunAct) {
    match a
    case Get(b, pooled) => s.run.Idle? && b !in s.elsewhere && (if b in s.free then pooled else b !in s.mem)
    case Receive(_, _) => s.run.Reading?
    case Fail => s.run.Reading?
    case Send => s.run.Sending? && |s.channel| < s.frame
    case SendClosed => s.run.Sending? && s.closed
  }

  function RunNext(s: State, a: RunAct): State
    requires RunEnabled(s, a)
  {
    match a
    case Get(b, pooled) => s.(run := Reading(b, pooled), free := s.free - {b}, mem := Known(s.mem, b))
    case Receive(addr, data) =>
      s.(run := Sending(Msg(addr, s.run.buf, s.run.pooled, data)), mem := s.mem[s.run.buf := [0, 0] + data],
         received := s.received + [Datagram(addr, data)])
    case Fail => s.(run := if s.closed then RunStopped else Idle, free := Put(s.free, s.run.buf, s.run.pooled))
    case Send => s.(run := Idle, channel := s.channel + [s.run.msg])
    case SendClosed => Released(s, s.run.msg).(run := RunStopped)
  }

  // ----- onMessage, outside putRead -----

  datatype DispatchAct = Stop | HearClose(c: nat) | Next(c: nat) | OfferClosed | Accept

  predicate DispatchEnabled(s: State, a: DispatchAct) {
    match a
    case Stop => s.dispatch.AtSelect? && s.closed
    case HearClose(c) => s.dispatch.AtSelect? && c in s.sessions && s.sessions[c].closing.Telling?
    case Next(c) => s.dispatch.AtSelect? && s.channel != [] &&
      var m := s.channel[0];
      if m.addr in s.keys then c == s.keys[m.addr] && CanHand(s, m, c) else c !in s.sessions
    case OfferClosed => s.dispatch.Offering? && s.closed
    case Accept => s.dispatch.Offering? && CanHand(s, s.dispatch.msg, s.dispatch.to)
  }

  function DispatchNext(s: State, a: DispatchAct): State
    requires DispatchEnabled(s, a)
  {
    match a
    case Stop => s.(dispatch := DispatchStopped)
    case HearClose(c) =>
      var addr := s.sessions[c].addr;
      s.(keys := if addr in s.keys && s.keys[addr] == c then s.keys - {addr} else s.keys,
         sessions := s.sessions[c := s.sessions[c].(closing := Returned)])
    case Next(c) =>
      var m := s.channel[0];
      if m.addr in s.keys then Handed(s.(channel := s.channel[1..]), m, c)
      else s.(channel := s.channel[1..], dispatch := Offering(m, c),
              sessions := s.sessions[c := Session(m.addr, Open, [], Empty, [], [], [])])
    case OfferClosed => Released(s, s.dispatch.msg).(dispatch := DispatchStopped)
    case Accept => Handed(s.(keys := s.keys[s.dispatch.msg.addr := s.dispatch.to]), s.dispatch.msg, s.dispatch.to)
  }

  /** A message in memory and a session to take it; no run reaches putRead without them. */
  predicate CanHand(s: State, m: Msg, c: nat) {
    c in s.sessions && m.buf in s.mem && |s.mem[m.buf]| >= 2
  }

  /** putRead(m) on session c begins. */
  function Handed(s: State, m: Msg, c: nat): State
    requires CanHand(s, m, c)
  {
    var x := s.sessions[c];
    s.(dispatch := Putting(m, c, Header), sessions := s.sessions[c := x.(arrived := x.arrived + [m.payload])],
       handed := s.handed + [Handover(c, Datagram(m.addr, m.payload))])
  }

  // ----- putRead -----

  datatype PutAct = WriteLength | SeeClosed | Push | SeeFull | DropOldest

  predicate PutEnabled(s: State, a: PutAct) {
    s.dispatch.Putting? && CanHand(s, s.dispatch.msg, s.dispatch.to) && s.sessions[s.dispatch.to].arrived != [] &&
    var x := s.sessions[s.dispatch.to];
    match a
    case WriteLength => s.dispatch.stage.Header?
    case SeeClosed => !s.dispatch.stage.Header? && !x.closing.Open?
    case Push => !s.dispatch.stage.Header? && |x.queue| < s.frame
    case SeeFull => s.dispatch.stage.First? && x.closing.Open? && |x.queue| >= s.frame
    case DropOldest => s.dispatch.stage.Second? && x.queue != []
  }

  function PutNext(s: State, a: PutAct): State
    requires PutEnabled(s, a)
  {
    var m, c, x := s.dispatch.msg, s.dispatch.to, s.sessions[s.dispatch.to];
    match a
    case WriteLength => s.(dispatch := s.dispatch.(stage := First), mem := s.mem[m.buf := FrameOf(s.mem[m.buf][2..])])
    case SeeClosed => Released(s, m).(dispatch := AtSelect)
    case Push =>
      var y := x.(queue := x.queue + [Item(m, |x.arrived| - 1)]);
      s.(dispatch := AtSelect, sessions := s.sessions[c := y])
    case SeeFull => s.(dispatch := s.dispatch.(stage := Second))
    case DropOldest =>
      var y := x.(queue := x.queue[1..]);
      Released(s, x.queue[0].msg).(dispatch := s.dispatch.(stage := First), sessions := s.sessions[c := y])
  }

  // ----- Read and Close of session c -----

  datatype SessionAct = Take | Deliver(k: nat) | CloseBegin | CloseEnd

  predicate SessionEnabled(s: State, c: nat, a: SessionAct) {
    c in s.sessions &&
    var x := s.sessions[c];
    match a
    case Take => x.slot.Empty? && x.queue != []
    case Deliver(k) =>
      x.slot.Taken? && x.slot.item.msg.buf in s.mem && x.slot.offset + k <= |s.mem[x.slot.item.msg.buf]|
    case CloseBegin => x.closing.Open?
    case CloseEnd => x.closing.Telling? && s.closed
  }

  function SessionNext(s: State, c: nat, a: SessionAct): State
    requires SessionEnabled(s, c, a)
  {
    var x := s.sessions[c];
    match a
    case Take =>
      var y := x.(queue := x.queue[1..], slot := Taken(x.queue[0], 0), taken := x.taken + [x.queue[0].index]);
      s.(sessions := s.sessions[c := y])
    case Deliver(k) =>
      var m, from := x.slot.item.msg, x.slot.offset;
      var y := x.(out := x.out + s.mem[m.buf][from..from + k]);
      if from + k < |s.mem[m.buf]| then s.(sessions := s.sessions[c := y.(slot := x.slot.(offset := from + k))])
      else Released(s, m).(sessions := s.sessions[c := y.(slot := Empty)])
    case CloseBegin => s.(sessions := s.sessions[c := x.(closing := Telling)])
    case CloseEnd => s.(sessions := s.sessions[c := x.(closing := Returned)])
  }

  // ----- Everything else: the listener's Close, and other users of the pool -----

  datatype OtherAct = ListenerClose | PoolGet(buf: nat) | PoolPut(buf: nat) | Scribble(buf: nat, data: seq<Byte>)

  predicate OtherEnabled(s: State, a: OtherAct) {
    match a
    case ListenerClose => true
    case PoolGet(b) => b in s.free || b !in s.mem
    case PoolPut(b) => b in s.elsewhere
    case Scribble(b, _) => b in s.elsewhere
  }

  function OtherNext(s: State, a: OtherAct): State
    requires OtherEnabled(s, a)
  {
    match a
    case ListenerClose => s.(closed := true)
    case PoolGet(b) => s.(free := s.free - {b}, elsewhere := s.elsewhere + {b}, mem := Known(s.mem, b))
    case PoolPut(b) => s.(free := s.free + {b}, elsewhere := s.elsewhere - {b})
    case Scribble(b, data) => s.(mem := s.mem[b := data])
  }

  // ----- The machine -----

  datatype Step =
    | OfRun(run: RunAct)
    | OfDispatch(dispatch: DispatchAct)
    | OfPut(put: PutAct)
    | OfSession(c: nat, session: SessionAct)
    | OfOther(other: OtherAct)

  predicate Enabled(s: State, step: Step) {
    match step
    case OfRun(a) => RunEnabled(s, a)
    case OfDispatch(a) => DispatchEnabled(s, a)
    case OfPut(a) => PutEnabled(s, a)
    case OfSession(c, a) => SessionEnabled(s, c, a)
    case OfOther(a) => OtherEnabled(s, a)
  }

  function Apply(s: State, step: Step): State
    requires Enabled(s, step)
  {
    match step
    case OfRun(a) => RunNext(s, a)
    case OfDispatch(a) => DispatchNext(s, a)
    case OfPut(a) => PutNext(s, a)
    case OfSession(c, a) => SessionNext(s, c, a)
    case OfOther(a) => OtherNext(s, a)
  }

  predicate Initial(s: State) {
    s.frame >= 1 && !s.closed && s.run.Idle? && s.channel == [] && s.dispatch.AtSelect? &&
    s.keys == map[] && s.sessions == map[] && s.elsewhere == {} && s.mem.Keys == s.free &&
    s.received == [] && s.handed == []
  }
}

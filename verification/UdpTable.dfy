/** The listener's table of sessions, against sessions that close at any time. */
module UdpTable {
  import opened UdpFraming
  import opened UdpSessions

  /** The table names a session of that address; while the listener is open, one whose first Close has not returned. */
  ghost predicate EntriesOk(s: State) {
    forall a :: a in s.keys ==>
      s.keys[a] in s.sessions && s.sessions[s.keys[a]].addr == a &&
      (s.closed || !s.sessions[s.keys[a]].closing.Returned?)
  }

  /**
   * While the listener is open, every session whose first Close has not returned is in the table, or being
   * offered to Accept.
   */
  ghost predicate NoneLost(s: State) {
    forall c :: c in s.sessions && !s.closed && !s.sessions[c].closing.Returned? ==>
      (s.sessions[c].addr in s.keys && s.keys[s.sessions[c].addr] == c) || (s.dispatch.Offering? && s.dispatch.to == c)
  }

  /** The session at hand is one of the address of the datagram; while offered, the only one. */
  ghost predicate HandOk(s: State) {
    s.dispatch.Offering? || s.dispatch.Putting? ==>
      s.dispatch.to in s.sessions && s.sessions[s.dispatch.to].addr == s.dispatch.msg.addr &&
      (s.dispatch.Offering? ==>
        s.dispatch.msg.addr !in s.keys && (s.closed || !s.sessions[s.dispatch.to].closing.Returned?))
  }

  ghost predicate Tabled(s: State) {
    EntriesOk(s) && NoneLost(s) && HandOk(s)
  }

  /** putRead works on the same message. */
  predicate SameHand(s: State, t: State) {
    s.dispatch.Putting? && t.dispatch.Putting? && t.dispatch.msg == s.dispatch.msg && t.dispatch.to == s.dispatch.to
  }

  /** What a step that leaves the table and the dispatcher's position alone may do to sessions. */
  lemma SameTable(s: State, t: State)
    requires Tabled(s) && t.keys == s.keys && t.sessions.Keys == s.sessions.Keys && (s.closed ==> t.closed)
    requires t.dispatch == s.dispatch || (s.dispatch.Putting? && (t.dispatch.AtSelect? || SameHand(s, t)))
    requires forall c :: c in s.sessions ==>
      t.sessions[c].addr == s.sessions[c].addr &&
      (t.closed || (t.sessions[c].closing.Returned? <==> s.sessions[c].closing.Returned?))
    ensures Tabled(t)
  {
  }

  lemma DispatchKeepsTable(s: State, a: DispatchAct)
    requires Tabled(s) && DispatchEnabled(s, a)
    ensures Tabled(DispatchNext(s, a))
  {
    hide FrameOf;
  }

  lemma PutKeepsTable(s: State, a: PutAct)
    requires Tabled(s) && PutEnabled(s, a)
    ensures Tabled(PutNext(s, a))
  {
    hide FrameOf, Tabled;
    SameTable(s, PutNext(s, a));
  }

  lemma SessionKeepsTable(s: State, c: nat, a: SessionAct)
    requires Tabled(s) && SessionEnabled(s, c, a)
    ensures Tabled(SessionNext(s, c, a))
  {
    hide FrameOf, Tabled;
    SameTable(s, SessionNext(s, c, a));
  }

  lemma RunKeepsTable(s: State, a: RunAct)
    requires Tabled(s) && RunEnabled(s, a)
    ensures Tabled(RunNext(s, a))
  {
    hide Tabled;
    SameTable(s, RunNext(s, a));
  }

  lemma OtherKeepsTable(s: State, a: OtherAct)
    requires Tabled(s) && OtherEnabled(s, a)
    ensures Tabled(OtherNext(s, a))
  {
    hide Tabled;
    SameTable(s, OtherNext(s, a));
  }

  lemma StepKeepsTable(s: State, step: Step)
    requires Tabled(s) && Enabled(s, step)
    ensures Tabled(Apply(s, step))
  {
    hide Tabled, RunNext, DispatchNext, PutNext, SessionNext, OtherNext;
    hide RunEnabled, DispatchEnabled, PutEnabled, SessionEnabled, OtherEnabled;
    match step
    case OfRun(a) => RunKeepsTable(s, a);
    case OfDispatch(a) => DispatchKeepsTable(s, a);
    case OfPut(a) => PutKeepsTable(s, a);
    case OfSession(c, a) => SessionKeepsTable(s, c, a);
    case OfOther(a) => OtherKeepsTable(s, a);
  }
}

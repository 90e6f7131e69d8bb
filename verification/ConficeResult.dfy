/** How a party ends, and when both parties end alike. */
module ConficeResult {
  import opened Packet
  import opened C = Confice
  import opened N = ConficeNet
  import opened ConficeProgress

  /** The event ends a party that has not ended yet, and not with success: it is cancelled, its ICE check fails, its
    * last channel registers and the check cannot start, or the timer finds the time of its phase used up. */
  predicate Harms(c: Conf, e: Event)
    requires Enabled(c, e)
  {
    c.state != FINAL &&
    match e
    case CancelIt => true
    case IceComplete(status, _, _) => c.state == NEGOING && status != PJ_SUCCESS
    case Receive(i, p, status, _) =>
      p[0] == PKT_TYPE_REGISTER && CheckRegAck(c, p) && c.state == REGING && status != PJ_SUCCESS &&
      AllReg(c.channels[i := c.channels[i].(isReg := true)])
    case Timer(now) =>
      (c.state == REGING && now - c.regSendTime >= TIMEOUT_MS) ||
      (c.state == SELECTING && now - c.selRelaySendTime >= TIMEOUT_MS)
    case _ => false
  }

  /** The party ends with a failure in this step exactly when the event harms it. */
  predicate EndsAs(c: Conf, d: Conf, harmed: bool) {
    c.state != FINAL ==>
      (harmed ==> d.state == FINAL && d.finalResult != 0) && (!harmed && d.state == FINAL ==> d.finalResult == 0)
  }

  lemma StepEndsAs(c: Conf, e: Event)
    requires Inv(c) && Enabled(c, e)
    ensures EndsAs(c, Step(c, e), Harms(c, e))
  {
    hide Inv, OnDataRecvfrom, TimerCb;
    match e
    case Receive(i, p, status, created) => ReceiveEndsAs(c, i, p, status, created);
    case Timer(now) => TimerEndsAs(c, now);
    case _ => OthersEndAs(c, e);
  }

  lemma OthersEndAs(c: Conf, e: Event)
    requires Inv(c) && Enabled(c, e) && !e.Receive? && !e.Timer?
    ensures EndsAs(c, Step(c, e), Harms(c, e))
  {
    hide RegisterAll, SelectAll, Message, TraceOk, Numbered, AllReg, AllRelayDone, NoRelayDone;
  }

  lemma TimerEndsAs(c: Conf, now: int)
    requires Inv(c) && Enabled(c, Timer(now))
    ensures EndsAs(c, TimerCb(c, now), Harms(c, Timer(now)))
  {
    hide RegisterAll, TraceOk, Numbered, AllReg, AllRelayDone, NoRelayDone;
  }

  lemma ReceiveEndsAs(c: Conf, i: nat, p: Bytes, status: int, created: bool)
    requires Inv(c) && Enabled(c, Receive(i, p, status, created))
    ensures EndsAs(c, OnDataRecvfrom(c, i, p, status, created), Harms(c, Receive(i, p, status, created)))
  {
    hide Inv, OnRegAck, OnSelectRelay, OnSelectRelayAck, GetU32, CheckRegAck, AllReg;
    RegAckEndsAs(c, i, p, status, created);
    if p[0] == PKT_TYPE_MSG { MessageEndsAs(c, i, p); }
  }

  lemma RegAckEndsAs(c: Conf, i: nat, p: Bytes, status: int, created: bool)
    requires i < |c.channels|
    ensures EndsAs(c, OnRegAck(c, i, p, status, created),
                   CheckRegAck(c, p) && c.state == REGING && status != PJ_SUCCESS &&
                   AllReg(c.channels[i := c.channels[i].(isReg := true)]))
  {
    hide CheckRegAck, AllReg;
  }

  lemma MessageEndsAs(c: Conf, i: nat, p: Bytes)
    requires i < |c.channels| && |p| > HEADER_LENGTH
    ensures EndsAs(c, OnSelectRelay(c, i, p), false) && EndsAs(c, OnSelectRelayAck(c, i, p), false)
  {
    hide Verifies, GetU32, Ack, AllRelayDone;
  }

  /** The party has ended with a result other than 0. */
  predicate Failed(c: Conf) { c.state == FINAL && c.finalResult != 0 }

  lemma StepFails(c: Conf, e: Event)
    requires Inv(c) && Enabled(c, e)
    ensures Failed(Step(c, e)) <==> Failed(c) || Harms(c, e)
  {
    hide Inv, Harms, Step, Enabled;
    StepEndsAs(c, e);
    StepKeepsInv(c, e);
    HarmsBeforeTheEnd(c, e);
  }

  lemma HarmsBeforeTheEnd(c: Conf, e: Event)
    requires Enabled(c, e)
    ensures Harms(c, e) ==> c.state != FINAL
  {
  }

  // ------------------------------------------------------------------ over a run of both parties

  function PartyOf(n: Net, controlling: bool): Conf { if controlling then n.caller else n.callee }

  /** Some event of the run harms the party. */
  predicate Harmed(n: Net, es: seq<NetEvent>, controlling: bool)
    requires NetCanRun(n, es)
    decreases |es|
  {
    es != [] &&
    ((es[0].AtCaller? == controlling && Harms(PartyOf(n, controlling), es[0].e)) || Harmed(NetStep(n, es[0]), es[1..], controlling))
  }

  lemma {:induction false} FailsExactly(n: Net, es: seq<NetEvent>, controlling: bool)
    requires NetInv(n) && NetCanRun(n, es)
    ensures Failed(PartyOf(NetRun(n, es), controlling)) <==> Failed(PartyOf(n, controlling)) || Harmed(n, es, controlling)
    decreases |es|
  {
    hide Inv, Harms, Step, Enabled, NoAcks, Truthful, Failed;
    if es != [] {
      NetStepKeepsInv(n, es[0]);
      if es[0].AtCaller? == controlling { StepFails(PartyOf(n, controlling), es[0].e); }
      FailsExactly(NetStep(n, es[0]), es[1..], controlling);
    }
  }

  /** Either party that has ended has ended with success exactly when no event of the run harmed it before. */
  lemma {:induction false} EndsWellExactly(n: Net, es: seq<NetEvent>, controlling: bool)
    requires NetFresh(n) && NetCanRun(n, es)
    ensures var c := PartyOf(NetRun(n, es), controlling);
            c.state == FINAL ==> (HasResult(c) <==> !Harmed(n, es, controlling))
  {
    hide NetRun, Harmed, NetCanRun;
    FreshNetIsInv(n);
    FailsExactly(n, es, controlling);
  }

  /** Once the controlling party has a result, the controlled one has it as well exactly when nothing harmed it before
    * it ended. */
  lemma {:induction false} ResultsAgreeExactly(n: Net, es: seq<NetEvent>)
    requires NetFresh(n) && NetCanRun(n, es)
    ensures var m := NetRun(n, es);
            HasResult(m.caller) ==> (HasResult(m.callee) <==> !Harmed(n, es, false))
  {
    hide NetRun, Harmed, NetCanRun;
    Agreement(n, es);
    EndsWellExactly(n, es, false);
  }

  // ------------------------------------------------------------------ results that differ

  lemma {:induction false} EndIsKept(n: Net, es: seq<NetEvent>)
    requires NetInv(n) && NetCanRun(n, es) && n.callee.state == FINAL
    ensures NetRun(n, es).callee.state == FINAL && NetRun(n, es).callee.finalResult == n.callee.finalResult
    decreases |es|
  {
    hide Inv, Step, Enabled, NoAcks, Truthful;
    if es != [] {
      NetStepKeepsInv(n, es[0]);
      if es[0].AtCallee? { StepKeepsInv(n.callee, es[0].e); }
      EndIsKept(NetStep(n, es[0]), es[1..]);
    }
  }

  function OneChannel(role: Role): Conf {
    Conf(role, 7, [], [], [Channel(1, 1, false, 0, [], false)], NONE, 0, 0, false, false, 0, 0, false, true, [], [])
  }

  /** The relay server's acknowledgement of a registration. */
  function RegAck(sessionId: bv32): Bytes { Sealed([PKT_TYPE_REGISTER] + U32Bytes(sessionId) + [0, 0]) }

  lemma RegAckPasses(c: Conf)
    ensures var p := RegAck(c.sessionId); p != [] && p[0] == PKT_TYPE_REGISTER && CheckRegAck(c, p)
  {
    hide U32Bytes, Checksum, GetU32, Verifies;
    var body := [PKT_TYPE_REGISTER] + U32Bytes(c.sessionId) + [0, 0];
    SealedVerifies(body);
    assert RegAck(c.sessionId)[1..5] == U32Bytes(c.sessionId);
    FieldReads(RegAck(c.sessionId), 1, c.sessionId);
  }

  function Zero(i: nat): bv32 { 0 }

  /** Kicked, registered and checked, a controlling party with one channel selects. */
  lemma ReachesSelection(c: Conf)
    requires c == OneChannel(Controlling)
    ensures var a := KickoffSelectRelay(KickoffReg(c, 0), 0, Zero);
            |a.channels| == 1 &&
            var b := OnDataRecvfrom(a, 0, RegAck(7), 0, true);
            OnIceComplete(b, 0, 0, Zero).state == SELECTING && |RegAck(7)| > 0 && RegAck(7)[0] == PKT_TYPE_REGISTER
  {
    hide RegisterPacket, CheckRegAck, RegAck, Message, Verifies, GetU32;
    var a := KickoffSelectRelay(KickoffReg(c, 0), 0, Zero);
    RegAckPasses(a);
    assert a.channels == RegisterAll(c);
    assert AllReg(a.channels[0 := a.channels[0].(isReg := true)]);
  }

  lemma {:induction false} RunsFirst(n: Net, e: NetEvent, es: seq<NetEvent>)
    requires NetEnabled(n, e) && NetCanRun(NetStep(n, e), es)
    ensures NetCanRun(n, [e] + es) && NetRun(n, [e] + es) == NetRun(NetStep(n, e), es)
  {
    hide NetEnabled, NetStep;
    assert ([e] + es)[1..] == es;
  }

  /** The controlled party is cancelled before anything else; the controlling one goes on to selection. */
  function Opening(): seq<NetEvent> {
    [AtCallee(CancelIt)] + ([AtCaller(KickReg(0))] + ([AtCaller(KickSelectRelay(0, Zero))] +
    ([AtCaller(Receive(0, RegAck(7), 0, true))] + ([AtCaller(IceComplete(0, 0, Zero))] + []))))
  }

  lemma {:induction false} OpeningRuns(n: Net)
    requires n == Net(OneChannel(Controlling), OneChannel(Controlled))
    ensures NetFresh(n) && NetCanRun(n, Opening())
    ensures var m := NetRun(n, Opening()); m.caller.state == SELECTING && m.callee == Cancel(n.callee)
  {
    hide RegAck, NetCanRun, NetRun, OnDataRecvfrom, OnIceComplete, KickoffSelectRelay, KickoffReg, Cancel;
    ReachesSelection(n.caller);
    var n1 := n.(callee := Cancel(n.callee));
    var n2 := n1.(caller := KickoffReg(n1.caller, 0));
    var n3 := n2.(caller := KickoffSelectRelay(n2.caller, 0, Zero));
    var n4 := n3.(caller := OnDataRecvfrom(n3.caller, 0, RegAck(7), 0, true));
    var n5 := n4.(caller := OnIceComplete(n4.caller, 0, 0, Zero));
    Ends(n5);
    RunsFirst(n4, AtCaller(IceComplete(0, 0, Zero)), []);
    RunsFirst(n3, AtCaller(Receive(0, RegAck(7), 0, true)), [AtCaller(IceComplete(0, 0, Zero))] + []);
    var rest := [AtCaller(Receive(0, RegAck(7), 0, true))] + ([AtCaller(IceComplete(0, 0, Zero))] + []);
    RunsFirst(n2, AtCaller(KickSelectRelay(0, Zero)), rest);
    RunsFirst(n1, AtCaller(KickReg(0)), [AtCaller(KickSelectRelay(0, Zero))] + rest);
    RunsFirst(n, AtCallee(CancelIt), [AtCaller(KickReg(0))] + ([AtCaller(KickSelectRelay(0, Zero))] + rest));
  }

  lemma {:induction false} Ends(n: Net)
    ensures NetCanRun(n, []) && NetRun(n, []) == n
  {
  }

  /** A run after which the controlling party has a result and the controlled one has failed: it was cancelled at the
    * start and went on acknowledging. */
  lemma ResultsCanDiffer() returns (n: Net, es: seq<NetEvent>)
    ensures n == Net(OneChannel(Controlling), OneChannel(Controlled)) && NetFresh(n)
    ensures |es| >= 3 && NetCanRun(n, es)
    ensures es[0] == AtCallee(CancelIt) && es[1] == AtCaller(KickReg(0)) && es[2] == AtCaller(KickSelectRelay(0, Zero))
    ensures var m := NetRun(n, es);
            HasResult(m.caller) && m.callee.state == FINAL && m.callee.finalResult == -1 && AllRelayDone(m.callee.channels)
  {
    hide NetRun, NetCanRun;
    n := Net(OneChannel(Controlling), OneChannel(Controlled));
    OpeningRuns(n);
    var more := SelectionCanComplete(n, Opening());
    RunsInTurn(n, Opening(), more);
    es := Opening() + more;
    FreshNetIsInv(n);
    NetRunKeepsInv(n, Opening());
    EndIsKept(NetRun(n, Opening()), more);
  }
}

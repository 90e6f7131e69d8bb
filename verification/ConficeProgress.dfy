/** Selection can always be completed: what the two parties send each other is what the other one waits for. */
module ConficeProgress {
  import opened Packet
  import opened C = Confice
  import opened N = ConficeNet

  /** While the controlling party selects, each channel's buffer holds the request for that channel under the
    * channel's transaction number, and it has been sent. */
  predicate Asked(c: Conf) {
    c.role == Controlling && c.state == SELECTING ==>
      forall i :: 0 <= i < |c.channels| ==> AskedOn(c.channels[i], c.sessionId, c.sent)
  }

  predicate AskedOn(ch: Channel, sessionId: bv32, sent: seq<Bytes>) {
    ch.pktCommon == SelectRelayPacket(sessionId, ch.compId, ch.tsxId) && ch.pktCommon in sent
  }

  /** Component numbers are those the receiver accepts. */
  predicate Counted(chs: seq<Channel>) {
    forall i :: 0 <= i < |chs| ==> chs[i].compId != 0 && chs[i].compId as nat <= |chs|
  }

  /** Nothing a step does to a selecting party touches its requests. */
  predicate SameRequests(c: Conf, d: Conf) {
    d.role == c.role && d.sessionId == c.sessionId && |d.channels| == |c.channels| && c.sent <= d.sent &&
    (d.state == SELECTING ==> c.state == SELECTING) &&
    forall i :: 0 <= i < |c.channels| ==>
      c.role == Controlling && c.state == SELECTING ==>
        d.channels[i].pktCommon == c.channels[i].pktCommon && d.channels[i].tsxId == c.channels[i].tsxId &&
        d.channels[i].compId == c.channels[i].compId
  }

  lemma RequestsStay(c: Conf, d: Conf)
    requires Asked(c) && SameRequests(c, d)
    ensures Asked(d)
  {
  }

  lemma StepKeepsAsked(c: Conf, e: Event)
    requires Inv(c) && Enabled(c, e) && Asked(c)
    ensures Asked(Step(c, e))
  {
    hide Inv, Asked, SameRequests, KickoffReg, KickoffSelectRelay, Cancel, OnIceComplete, OnIceTxPkt, OnDataRecvfrom, TimerCb;
    match e
    case KickSelectRelay(now, tsx) => KickAsks(c, now, tsx);
    case IceComplete(status, now, tsx) => IceCompleteAsks(c, status, now, tsx);
    case Receive(i, p, status, created) =>
      ReceiveKeepsRequests(c, i, p, status, created);
      RequestsStay(c, Step(c, e));
    case _ =>
      OthersKeepRequests(c, e);
      RequestsStay(c, Step(c, e));
  }

  lemma SelectAsks(c: Conf, now: int, tsx: nat -> bv32)
    requires Asked(c)
    ensures Asked(CheckForSelectRelay(c, now, tsx))
  {
    hide SelectRelayPacket;
    var d := CheckForSelectRelay(c, now, tsx);
    if c.state == NEGO_DONE && c.selRelayKicked && c.role == Controlling {
      forall i | 0 <= i < |d.channels| ensures AskedOn(d.channels[i], d.sessionId, d.sent) {
        assert Buffered(d.channels)[i] == d.channels[i].pktCommon;
        assert d.sent[|c.sent| + i] == d.channels[i].pktCommon;
      }
    }
  }

  lemma KickAsks(c: Conf, now: int, tsx: nat -> bv32)
    requires Asked(c)
    ensures Asked(KickoffSelectRelay(c, now, tsx))
  {
    hide CheckForSelectRelay, AskedOn;
    SelectAsks(c.(selRelayKicked := true), now, tsx);
  }

  lemma IceCompleteAsks(c: Conf, status: int, now: int, tsx: nat -> bv32)
    requires Asked(c)
    ensures Asked(OnIceComplete(c, status, now, tsx))
  {
    hide CheckForSelectRelay, AskedOn;
    SelectAsks(SetState(c, NEGO_DONE, status), now, tsx);
  }

  lemma OthersKeepRequests(c: Conf, e: Event)
    requires Inv(c) && Enabled(c, e) && (e.KickReg? || e.CancelIt? || e.IceSends? || e.Timer?)
    ensures SameRequests(c, Step(c, e))
  {
    hide TimerCb, RegisterAll, Message, TraceOk, Numbered, AllReg, AllRelayDone, NoRelayDone;
    if e.Timer? { TimerKeepsRequests(c, e.now); }
  }

  lemma TimerKeepsRequests(c: Conf, now: int)
    requires c.state == REGING ==> c.regSendCount > 0
    ensures SameRequests(c, TimerCb(c, now))
  {
    hide SendReg;
    if c.state == REGING { SendRegAgain(c, now); }
  }

  lemma SendRegAgain(c: Conf, now: int)
    requires c.state == REGING && c.regSendCount > 0
    ensures var d := SendReg(c, now);
            d.state == REGING && d.role == c.role && d.sessionId == c.sessionId && |d.channels| == |c.channels| && c.sent <= d.sent
  {
    hide RegisterAll;
  }

  lemma ReceiveKeepsRequests(c: Conf, i: nat, p: Bytes, status: int, created: bool)
    requires Enabled(c, Receive(i, p, status, created))
    ensures SameRequests(c, OnDataRecvfrom(c, i, p, status, created))
  {
    hide CheckRegAck, AllReg, AllRelayDone, Verifies, GetU32, Ack, OnRegAck, OnSelectRelay, OnSelectRelayAck;
    RegAckKeepsRequests(c, i, p, status, created);
    if p[0] == PKT_TYPE_MSG { MessagesKeepRequests(c, i, p); }
  }

  lemma RegAckKeepsRequests(c: Conf, i: nat, p: Bytes, status: int, created: bool)
    requires i < |c.channels|
    ensures SameRequests(c, OnRegAck(c, i, p, status, created))
  {
    hide CheckRegAck, AllReg, StartNego;
    StartNegoIsSilent(SetState(Registered(c, i), REG_DONE, 0), status, created);
    StartNegoGoesOn(SetState(Registered(c, i), REG_DONE, 0), status, created);
  }

  lemma StartNegoGoesOn(c: Conf, status: int, created: bool)
    ensures var d := StartNego(c, status, created); d.state != SELECTING && d.role == c.role && d.sessionId == c.sessionId
  {
  }

  lemma MessagesKeepRequests(c: Conf, i: nat, p: Bytes)
    requires i < |c.channels| && |p| > HEADER_LENGTH
    ensures SameRequests(c, OnSelectRelay(c, i, p)) && SameRequests(c, OnSelectRelayAck(c, i, p))
  {
    hide Verifies, GetU32, Ack, AllRelayDone;
  }

  // ------------------------------------------------------------------ one exchange

  /** The controlled party marks the channel of a request and acknowledges it. */
  lemma RequestIsHeard(c: Conf, i: nat, tsx: bv32)
    requires c.role == Controlled && Rank(c.state) >= Rank(NEGO_DONE) && i < |c.channels| && Counted(c.channels)
    ensures var p := SelectRelayPacket(c.sessionId, c.channels[i].compId, tsx);
            Enabled(c, Receive(i, p, 0, false)) && |p| > HEADER_LENGTH &&
            var d := OnDataRecvfrom(c, i, p, 0, false);
            |d.channels| == |c.channels| && d.channels[i].isRelayDone && d.sent == c.sent + [Ack(p)] &&
            Rank(d.state) >= Rank(NEGO_DONE) && d.sessionId == c.sessionId
  {
    hide Message, Ack, Verifies, GetU32, AllRelayDone;
    MessageRoundTrip(MSG_TYPE_SELECT_RELAY, c.sessionId, c.channels[i].compId, tsx, [], 0);
  }

  /** The controlling party accepts that acknowledgement: it echoes what the request carried. */
  lemma AckIsHeard(c: Conf, i: nat)
    requires c.role == Controlling && c.state == SELECTING && i < |c.channels| && Counted(c.channels)
    ensures var p := SelectRelayPacket(c.sessionId, c.channels[i].compId, c.channels[i].tsxId);
            |p| > HEADER_LENGTH && Enabled(c, Receive(i, Ack(p), 0, false)) &&
            OnDataRecvfrom(c, i, Ack(p), 0, false) ==
            CheckForSelectRelayDone(c.(channels := c.channels[i := c.channels[i].(isRelayDone := true)]))
  {
    hide Message, Ack, Verifies, GetU32, AllRelayDone, CheckForSelectRelayDone;
    var p := SelectRelayPacket(c.sessionId, c.channels[i].compId, c.channels[i].tsxId);
    MessageRoundTrip(MSG_TYPE_SELECT_RELAY, c.sessionId, c.channels[i].compId, c.channels[i].tsxId, [], 0);
    AckEchoes(p);
  }

  // ------------------------------------------------------------------ the whole selection

  /** Both parties work on the same session with acceptable component numbers. */
  predicate Talking(n: Net) {
    NetInv(n) && Asked(n.caller) && n.caller.sessionId == n.callee.sessionId && Counted(n.caller.channels)
  }

  lemma NetStepKeepsTalking(n: Net, e: NetEvent)
    requires Talking(n) && NetEnabled(n, e)
    ensures Talking(NetStep(n, e))
  {
    hide Inv, Step, Asked, NoAcks, Truthful;
    NetStepKeepsInv(n, e);
    if e.AtCaller? {
      StepKeepsAsked(n.caller, e.e);
      StepKeepsInv(n.caller, e.e);
    } else {
      StepKeepsInv(n.callee, e.e);
    }
  }

  lemma {:induction false} NetRunKeepsTalking(n: Net, es: seq<NetEvent>)
    requires Talking(n) && NetCanRun(n, es)
    ensures Talking(NetRun(n, es))
    decreases |es|
  {
    hide Talking, NetEnabled, NetStep;
    if es != [] {
      NetStepKeepsTalking(n, es[0]);
      NetRunKeepsTalking(NetStep(n, es[0]), es[1..]);
    }
  }

  /** A net in the middle of selection. */
  predicate Selecting(n: Net) {
    Talking(n) && n.caller.state == SELECTING && Rank(n.callee.state) >= Rank(NEGO_DONE)
  }

  function Exchange(n: Net, i: nat): seq<NetEvent>
    requires i < |n.caller.channels| && |n.caller.channels[i].pktCommon| > HEADER_LENGTH
  {
    var p := n.caller.channels[i].pktCommon;
    [AtCallee(Receive(i, p, 0, false)), AtCaller(Receive(i, Ack(p), 0, false))]
  }

  /** Channel `i` is set up on both sides and no other one was lost. */
  predicate SetUp(n: Net, m: Net, i: nat) {
    i < |n.caller.channels| == |m.caller.channels| == |m.callee.channels| &&
    m.caller.channels[i].isRelayDone && m.callee.channels[i].isRelayDone &&
    forall j :: 0 <= j < |n.caller.channels| ==> n.caller.channels[j].isRelayDone ==> m.caller.channels[j].isRelayDone
  }

  lemma MarkingDone(c: Conf, i: nat)
    requires Inv(c) && c.state == SELECTING && i < |c.channels|
    ensures var d := CheckForSelectRelayDone(c.(channels := c.channels[i := c.channels[i].(isRelayDone := true)]));
            |d.channels| == |c.channels| && d.channels[i].isRelayDone && d.sessionId == c.sessionId &&
            (forall j :: 0 <= j < |c.channels| ==> c.channels[j].isRelayDone ==> d.channels[j].isRelayDone) &&
            (forall j :: 0 <= j < |c.channels| ==> d.channels[j].compId == c.channels[j].compId) &&
            if AllRelayDone(d.channels) then HasResult(d) else d.state == SELECTING
  {
    hide AllRelayDone, AllReg, NoRelayDone, Numbered, TraceOk;
  }

  /** The request of channel `i` reaches the controlled party. */
  lemma Asks(n: Net, i: nat)
    requires Selecting(n) && i < |n.caller.channels|
    ensures |n.caller.channels[i].pktCommon| > HEADER_LENGTH
    ensures var e := Exchange(n, i)[0];
            NetEnabled(n, e) && var m := NetStep(n, e);
            Selecting(m) && m.caller == n.caller && m.callee.channels[i].isRelayDone && Ack(n.caller.channels[i].pktCommon) in m.callee.sent
  {
    hide Inv, Message, Ack, OnDataRecvfrom, NoAcks, Truthful;
    var ch := n.caller.channels[i];
    assert AskedOn(ch, n.caller.sessionId, n.caller.sent);
    assert Counted(n.callee.channels);
    RequestIsHeard(n.callee, i, ch.tsxId);
    NetStepKeepsInv(n, Exchange(n, i)[0]);
  }

  /** Delivering one request and its acknowledgement sets up that channel on both sides; if it was the last one the
    * controlling party ends with success. */
  lemma ExchangeWorks(n: Net, i: nat) returns (m: Net)
    requires Selecting(n) && i < |n.caller.channels|
    ensures |n.caller.channels[i].pktCommon| > HEADER_LENGTH && NetCanRun(n, Exchange(n, i)) && m == NetRun(n, Exchange(n, i))
    ensures NetInv(m) && SetUp(n, m, i) && if AllRelayDone(m.caller.channels) then HasResult(m.caller) else Selecting(m)
  {
    hide Inv, Message, Ack, OnDataRecvfrom, NoAcks, Truthful, CheckForSelectRelayDone;
    Asks(n, i);
    var es := Exchange(n, i);
    var mid := NetStep(n, es[0]);
    AckIsHeard(mid.caller, i);
    MarkingDone(mid.caller, i);
    NetStepKeepsInv(mid, es[1]);
    StepKeepsAsked(mid.caller, es[1].e);
    m := NetStep(mid, es[1]);
    RunsTwo(n, es);
  }

  lemma {:induction false} RunsTwo(n: Net, es: seq<NetEvent>)
    requires |es| == 2 && NetEnabled(n, es[0]) && NetEnabled(NetStep(n, es[0]), es[1])
    ensures NetCanRun(n, es) && NetRun(n, es) == NetStep(NetStep(n, es[0]), es[1])
  {
    hide NetEnabled, NetStep;
    var rest := es[1..];
    assert rest[0] == es[1] && rest[1..] == [];
    var mid := NetStep(n, es[0]);
    var m := NetStep(mid, es[1]);
    assert NetCanRun(m, []) && NetRun(m, []) == m;
    assert NetCanRun(mid, rest) && NetRun(mid, rest) == NetRun(m, []);
  }

  lemma {:induction false} RunsInTurn(n: Net, first: seq<NetEvent>, second: seq<NetEvent>)
    requires NetCanRun(n, first) && NetCanRun(NetRun(n, first), second)
    ensures NetCanRun(n, first + second) && NetRun(n, first + second) == NetRun(NetRun(n, first), second)
    decreases |first|
  {
    hide NetEnabled, NetStep;
    if first == [] {
      assert first + second == second;
    } else {
      assert (first + second)[0] == first[0] && (first + second)[1..] == first[1..] + second;
      RunsInTurn(NetStep(n, first[0]), first[1..], second);
    }
  }

  /** From any moment of selection, whatever was lost so far, delivering each request and each acknowledgement once
    * more ends it with success on both sides. */
  lemma {:induction false} SelectionSucceeds(n: Net, k: nat) returns (es: seq<NetEvent>)
    requires Selecting(n) && k <= |n.caller.channels|
    requires forall j :: 0 <= j < k ==> n.caller.channels[j].isRelayDone
    ensures |es| <= 2 * (|n.caller.channels| - k)
    ensures NetCanRun(n, es) && HasResult(NetRun(n, es).caller)
    ensures AllRelayDone(NetRun(n, es).callee.channels) && NetRun(n, es).callee.state == FINAL
    decreases |n.caller.channels| - k
  {
    hide NetInv, NetEnabled, NetStep, NetCanRun, NetRun, Asked, Inv;
    NotAllDone(n);
    var m := ExchangeWorks(n, k);
    var first := Exchange(n, k);
    if AllRelayDone(m.caller.channels) {
      es := first;
      BothEnd(m);
    } else {
      var more := SelectionSucceeds(m, k + 1);
      RunsInTurn(n, first, more);
      es := first + more;
    }
  }

  lemma NotAllDone(n: Net)
    requires Selecting(n)
    ensures !AllRelayDone(n.caller.channels)
  {
  }

  lemma BothEnd(n: Net)
    requires NetInv(n) && HasResult(n.caller)
    ensures AllRelayDone(n.callee.channels) && n.callee.state == FINAL
  {
  }

  /** No run, whatever it lost, duplicated or reordered, leaves selection stuck: while the controlling party selects
    * and the controlled one is past its negotiation, even ended by a failure of its own, at most two deliveries per
    * channel end it with success on the controlling side and with every channel relayed on the other. */
  lemma SelectionCanComplete(n: Net, es: seq<NetEvent>) returns (more: seq<NetEvent>)
    requires NetFresh(n) && n.caller.sessionId == n.callee.sessionId && Counted(n.caller.channels) && NetCanRun(n, es)
    requires NetRun(n, es).caller.state == SELECTING && Rank(NetRun(n, es).callee.state) >= Rank(NEGO_DONE)
    ensures var m := NetRun(n, es);
            |more| <= 2 * |m.caller.channels| && NetCanRun(m, more) &&
            var end := NetRun(m, more);
            HasResult(end.caller) && AllRelayDone(end.callee.channels) && end.callee.state == FINAL
  {
    hide NetCanRun, NetRun, Inv, Exchange;
    FreshNetIsInv(n);
    NetRunKeepsTalking(n, es);
    more := SelectionSucceeds(NetRun(n, es), 0);
  }
}

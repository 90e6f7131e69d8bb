/** Two parties over a network that loses, duplicates, reorders and misroutes datagrams.
  *
  * Message datagrams that arrive were sent by one of the two parties (no forging); they may
  * arrive any number of times, in any order, on any channel of either party. Everything else
  * that arrives, the relay server's acknowledgements included, is arbitrary.
  */
module ConficeNet {
  import opened Packet
  import opened C = Confice

  datatype Net = Net(caller: Conf, callee: Conf)

  datatype NetEvent = AtCaller(e: Event) | AtCallee(e: Event)

  predicate Sent(n: Net, p: Bytes) { p in n.caller.sent || p in n.callee.sent }

  predicate NoForging(n: Net, e: Event) {
    e.Receive? && e.packet != [] && e.packet[0] == PKT_TYPE_MSG ==> Sent(n, e.packet)
  }

  predicate NetEnabled(n: Net, e: NetEvent) {
    NoForging(n, e.e) && Enabled(if e.AtCaller? then n.caller else n.callee, e.e)
  }

  function NetStep(n: Net, e: NetEvent): Net
    requires NetEnabled(n, e)
  {
    if e.AtCaller? then n.(caller := Step(n.caller, e.e)) else n.(callee := Step(n.callee, e.e))
  }

  predicate NetCanRun(n: Net, es: seq<NetEvent>)
    decreases |es|
  {
    es == [] || (NetEnabled(n, es[0]) && NetCanRun(NetStep(n, es[0]), es[1..]))
  }

  function NetRun(n: Net, es: seq<NetEvent>): Net
    requires NetCanRun(n, es)
    decreases |es|
  {
    if es == [] then n else NetRun(NetStep(n, es[0]), es[1..])
  }

  predicate NetFresh(n: Net) {
    Fresh(n.caller) && Fresh(n.callee) && n.caller.role == Controlling && n.callee.role == Controlled &&
    SameNumbers(n.caller.channels, n.callee.channels)
  }

  predicate SameNumbers(chs: seq<Channel>, chs': seq<Channel>) {
    |chs| == |chs'| && forall i :: 0 <= i < |chs| ==> chs[i].compId == chs'[i].compId
  }

  // ------------------------------------------------------------------ what is on the wire

  /** The packet is a message acknowledging the selection of some component. */
  predicate IsAck(p: Bytes) {
    |p| > HEADER_LENGTH && p[0] == PKT_TYPE_MSG && MsgType(p) == MSG_TYPE_SELECT_RELAY_ACK
  }

  predicate NoAcks(ps: seq<Bytes>) { forall k :: 0 <= k < |ps| ==> !IsAck(ps[k]) }

  /** The channel with the given component number is set up for the relay. */
  predicate Relayed(c: Conf, comp: bv32) {
    forall i :: 0 <= i < |c.channels| && c.channels[i].compId == comp ==> c.channels[i].isRelayDone
  }

  lemma NumbersDiffer(chs: seq<Channel>, i: nat, j: nat)
    requires Numbered(chs) && i < |chs| && j < |chs| && chs[i].compId == chs[j].compId
    ensures i == j
  {
  }

  /** Every acknowledgement is for a component the party has marked. */
  predicate Truthful(c: Conf, ps: seq<Bytes>) {
    forall k :: 0 <= k < |ps| ==> IsAck(ps[k]) ==> Relayed(c, CompId(ps[k]))
  }

  /** The caller neither sends acknowledgements nor holds one for retransmission; the callee's
    * are truthful; and the caller knows of no relay the callee has not set up. */
  predicate NetInv(n: Net) {
    Inv(n.caller) && Inv(n.callee) && n.caller.role == Controlling && n.callee.role == Controlled &&
    SameNumbers(n.caller.channels, n.callee.channels) &&
    NoAcks(n.caller.sent) && NoAcks(Buffered(n.caller.channels)) && Truthful(n.callee, n.callee.sent) &&
    forall i :: 0 <= i < |n.caller.channels| ==> n.caller.channels[i].isRelayDone ==> n.callee.channels[i].isRelayDone
  }

  lemma FreshNetIsInv(n: Net)
    requires NetFresh(n)
    ensures NetInv(n)
  {
    FreshIsInv(n.caller);
    FreshIsInv(n.callee);
  }

  lemma RegisterIsNoAck(c: Conf)
    ensures NoAcks(Buffered(RegisterAll(c)))
  {
  }

  lemma MessageIsNoAck(msgType: bv8, sessionId: bv32, compId: bv32, tsxId: bv32, payload: Bytes, dataLen: bv32)
    requires msgType != MSG_TYPE_SELECT_RELAY_ACK
    ensures !IsAck(Message(msgType, sessionId, compId, tsxId, payload, dataLen))
  {
    MessageRoundTrip(msgType, sessionId, compId, tsxId, payload, dataLen);
  }

  lemma SelectIsNoAck(chs: seq<Channel>, sessionId: bv32, tsx: nat -> bv32)
    ensures NoAcks(Buffered(SelectAll(chs, sessionId, tsx)))
  {
    hide Message;
    forall i | 0 <= i < |chs|
      ensures !IsAck(SelectRelayPacket(sessionId, chs[i].compId, tsx(i)))
    {
      MessageIsNoAck(MSG_TYPE_SELECT_RELAY, sessionId, chs[i].compId, tsx(i), [], 0);
    }
  }

  lemma NoAcksConcat(ps: seq<Bytes>, qs: seq<Bytes>)
    requires NoAcks(ps) && NoAcks(qs)
    ensures NoAcks(ps + qs)
  {
  }

  // ------------------------------------------------------------------ one party's steps

  /** What the caller has after a step: still no acknowledgements, and a relay flag is new only
    * when an acknowledgement for that very component has just arrived. */
  predicate Quiet(c: Conf, d: Conf, p: Bytes) {
    |d.channels| == |c.channels| && NoAcks(d.sent) && NoAcks(Buffered(d.channels)) &&
    forall i :: 0 <= i < |c.channels| && !c.channels[i].isRelayDone && d.channels[i].isRelayDone ==>
      IsAck(p) && CompId(p) == c.channels[i].compId
  }

  lemma CallerStep(c: Conf, e: Event)
    requires Inv(c) && Enabled(c, e) && c.role == Controlling && NoAcks(c.sent) && NoAcks(Buffered(c.channels))
    ensures Quiet(c, Step(c, e), if e.Receive? then e.packet else [])
  {
    hide NoAcks, OnDataRecvfrom, TimerCb, OnIceComplete, KickoffSelectRelay, KickoffReg, OnIceTxPkt, Cancel, Quiet, IsAck;
    match e
    case KickReg(now) => QuietRegister(c, now);
    case KickSelectRelay(now, tsx) => QuietKick(c, now, tsx);
    case CancelIt => QuietCancel(c);
    case IceComplete(status, now, tsx) => QuietIceComplete(c, status, now, tsx);
    case IceSends(i, payload) => QuietIceSends(c, i, payload);
    case Receive(i, p, status, created) => CallerReceives(c, i, p, status, created);
    case Timer(now) => QuietTimer(c, now);
  }

  lemma QuietKick(c: Conf, now: int, tsx: nat -> bv32)
    requires NoAcks(c.sent) && NoAcks(Buffered(c.channels))
    ensures Quiet(c, KickoffSelectRelay(c, now, tsx), [])
  {
    hide IsAck, CheckForSelectRelay;
    QuietSelect(c, c.(selRelayKicked := true), now, tsx);
  }

  lemma QuietCancel(c: Conf)
    requires NoAcks(c.sent) && NoAcks(Buffered(c.channels))
    ensures Quiet(c, Cancel(c), [])
  {
    hide IsAck;
  }

  lemma QuietIceSends(c: Conf, i: nat, payload: Bytes)
    requires NoAcks(c.sent) && NoAcks(Buffered(c.channels)) && i < |c.channels|
    ensures Quiet(c, OnIceTxPkt(c, i, payload), [])
  {
    hide IsAck, Message;
    MessageIsNoAck(MSG_TYPE_ICE_WRAP, c.sessionId, c.channels[i].compId, 0, payload, (|payload| % 0x1_0000_0000) as bv32);
  }

  lemma QuietRegister(c: Conf, now: int)
    requires NoAcks(c.sent) && NoAcks(Buffered(c.channels))
    ensures Quiet(c, SendReg(c, now), []) && Quiet(c, KickoffReg(c, now), [])
  {
    hide IsAck, RegisterPacket;
    RegisterIsNoAck(c);
    NoAcksConcat(c.sent, Buffered(RegisterAll(c)));
  }

  lemma QuietSelect(c: Conf, k: Conf, now: int, tsx: nat -> bv32)
    requires NoAcks(c.sent) && NoAcks(Buffered(c.channels)) && k.sent == c.sent && k.channels == c.channels
    ensures Quiet(c, CheckForSelectRelay(k, now, tsx), [])
  {
    hide IsAck, SelectRelayPacket;
    SelectIsNoAck(k.channels, k.sessionId, tsx);
    NoAcksConcat(k.sent, Buffered(SelectAll(k.channels, k.sessionId, tsx)));
  }

  lemma QuietIceComplete(c: Conf, status: int, now: int, tsx: nat -> bv32)
    requires NoAcks(c.sent) && NoAcks(Buffered(c.channels))
    ensures Quiet(c, OnIceComplete(c, status, now, tsx), [])
  {
    hide IsAck, CheckForSelectRelay;
    QuietSelect(c, SetState(c, NEGO_DONE, status), now, tsx);
  }

  lemma SendRegStays(c: Conf, now: int)
    requires c.state == REGING && c.regSendCount > 0
    ensures SendReg(c, now).state == REGING
  {
  }

  lemma QuietTimer(c: Conf, now: int)
    requires NoAcks(c.sent) && NoAcks(Buffered(c.channels)) && (c.state == REGING ==> c.regSendCount > 0)
    ensures Quiet(c, TimerCb(c, now), [])
  {
    hide IsAck, NoAcks, SendReg;
    QuietRegister(c, now);
    if c.state == REGING { SendRegStays(c, now); }
    NoAcksConcat(c.sent, Buffered(c.channels));
  }

  lemma CallerReceives(c: Conf, i: nat, p: Bytes, status: int, created: bool)
    requires Inv(c) && Enabled(c, Receive(i, p, status, created))
    requires c.role == Controlling && NoAcks(c.sent) && NoAcks(Buffered(c.channels))
    ensures Quiet(c, OnDataRecvfrom(c, i, p, status, created), p)
  {
    hide OnRegAck, OnSelectRelayAck, GetU32, Inv, Quiet;
    QuietRegAck(c, i, p, status, created);
    if p[0] == PKT_TYPE_MSG { QuietAck(c, i, p); }
    assert Quiet(c, c, p) by { QuietStutter(c, p); }
  }

  lemma QuietStutter(c: Conf, p: Bytes)
    requires NoAcks(c.sent) && NoAcks(Buffered(c.channels))
    ensures Quiet(c, c, p)
  {
  }

  lemma StartNegoIsSilent(c: Conf, status: int, created: bool)
    ensures StartNego(c, status, created).channels == c.channels && StartNego(c, status, created).sent == c.sent
  {
  }

  lemma QuietRegAck(c: Conf, i: nat, p: Bytes, status: int, created: bool)
    requires i < |c.channels| && NoAcks(c.sent) && NoAcks(Buffered(c.channels))
    ensures Quiet(c, OnRegAck(c, i, p, status, created), p)
  {
    hide IsAck, CheckRegAck, AllReg, NoAcks, Rank, StartNego;
    StartNegoIsSilent(SetState(Registered(c, i), REG_DONE, 0), status, created);
    assert Buffered(c.channels[i := c.channels[i].(isReg := true)]) == Buffered(c.channels);
  }

  lemma QuietAck(c: Conf, i: nat, p: Bytes)
    requires i < |c.channels| && NoAcks(c.sent) && NoAcks(Buffered(c.channels)) && |p| > HEADER_LENGTH
    ensures p[0] == PKT_TYPE_MSG && MsgType(p) == MSG_TYPE_SELECT_RELAY_ACK && CompId(p) == c.channels[i].compId ==>
              Quiet(c, OnSelectRelayAck(c, i, p), p)
  {
    hide Verifies, GetU32;
    assert Buffered(c.channels[i := c.channels[i].(isRelayDone := true)]) == Buffered(c.channels);
  }

  /** The callee's acknowledgements stay truthful: each is sent after its flag is set. */
  lemma CalleeStep(c: Conf, e: Event)
    requires Inv(c) && Enabled(c, e) && c.role == Controlled && Truthful(c, c.sent)
    ensures Truthful(Step(c, e), Step(c, e).sent)
  {
    hide Inv, IsAck, GetU32, Step, Enabled;
    StepKeepsInv(c, e);
    var d := Step(c, e);
    StaysTruthful(c, d, c.sent);
    NewPacketsTruthful(c, e);
    assert d.sent == c.sent + d.sent[|c.sent|..];
  }

  lemma StaysTruthful(c: Conf, d: Conf, ps: seq<Bytes>)
    requires Inv(c) && Inv(d) && Forward(c, d) && Truthful(c, ps)
    ensures Truthful(d, ps)
  {
  }

  lemma NewPacketsTruthful(c: Conf, e: Event)
    requires Inv(c) && Enabled(c, e) && c.role == Controlled
    ensures var d := Step(c, e); c.sent <= d.sent && Truthful(d, d.sent[|c.sent|..])
  {
    hide Inv, Truthful, NoAcks, RegisterAll, OnDataRecvfrom, OnIceTxPkt, TimerCb, OnIceComplete,
         KickoffSelectRelay, KickoffReg, Cancel;
    match e
    case Receive(i, p, status, created) => CalleeReceives(c, i, p, status, created);
    case IceSends(i, payload) => CalleeWraps(c, i, payload);
    case _ =>
      RegisterIsNoAck(c);
      CalleeSends(c, e);
      var news := Step(c, e).sent[|c.sent|..];
      assert news == [] || news == Buffered(RegisterAll(c));
      NoAcksTruthful(Step(c, e), news);
  }

  lemma NoAcksTruthful(c: Conf, ps: seq<Bytes>)
    ensures ps == [] || NoAcks(ps) ==> Truthful(c, ps)
  {
    hide IsAck;
  }

  lemma CalleeWraps(c: Conf, i: nat, payload: Bytes)
    requires Inv(c) && i < |c.channels|
    ensures var d := OnIceTxPkt(c, i, payload); c.sent <= d.sent && Truthful(d, d.sent[|c.sent|..])
  {
    hide Inv, Message, IsAck, Relayed;
    MessageIsNoAck(MSG_TYPE_ICE_WRAP, c.sessionId, c.channels[i].compId, 0, payload, (|payload| % 0x1_0000_0000) as bv32);
  }

  /** On its own account the callee sends nothing but register requests. */
  lemma CalleeSends(c: Conf, e: Event)
    requires Inv(c) && Enabled(c, e) && c.role == Controlled && !e.Receive? && !e.IceSends?
    ensures Step(c, e).sent == c.sent || Step(c, e).sent == c.sent + Buffered(RegisterAll(c))
  {
    hide RegisterAll, TraceOk, Numbered, AllReg, AllRelayDone, NoRelayDone, SelectAll, OnDataRecvfrom, OnIceTxPkt;
    match e
    case Timer(now) => assert c.state != SELECTING;
    case _ =>
  }

  lemma CalleeReceives(c: Conf, i: nat, p: Bytes, status: int, created: bool)
    requires Inv(c) && Enabled(c, Receive(i, p, status, created)) && c.role == Controlled
    ensures var d := OnDataRecvfrom(c, i, p, status, created); c.sent <= d.sent && Truthful(d, d.sent[|c.sent|..])
  {
    hide Inv, GetU32, OnRegAck, OnSelectRelay, Truthful;
    CalleeRegisters(c, i, p, status, created);
    if p[0] == PKT_TYPE_MSG && CompId(p) == c.channels[i].compId { CalleeAcks(c, i, p); }
    NoAcksTruthful(c, []);
    assert c.sent[|c.sent|..] == [];
  }

  lemma CalleeRegisters(c: Conf, i: nat, p: Bytes, status: int, created: bool)
    requires i < |c.channels|
    ensures var d := OnRegAck(c, i, p, status, created); c.sent <= d.sent && Truthful(d, d.sent[|c.sent|..])
  {
    hide CheckRegAck, AllReg, StartNego, IsAck;
    StartNegoIsSilent(SetState(Registered(c, i), REG_DONE, 0), status, created);
    assert OnRegAck(c, i, p, status, created).sent == c.sent;
    assert c.sent[|c.sent|..] == [];
  }

  lemma CalleeAcks(c: Conf, i: nat, p: Bytes)
    requires Inv(c) && i < |c.channels| && |p| > HEADER_LENGTH && CompId(p) == c.channels[i].compId
    ensures var d := OnSelectRelay(c, i, p); c.sent <= d.sent && Truthful(d, d.sent[|c.sent|..])
  {
    hide Verifies, GetU32, TraceOk, Ack, IsAck, AllRelayDone, AllReg, NoRelayDone;
    var d := OnSelectRelay(c, i, p);
    if d.sent != c.sent {
      AckEchoes(p);
      assert d.sent[|c.sent|..] == [Ack(p)];
      forall j | 0 <= j < |d.channels| && d.channels[j].compId == CompId(Ack(p))
        ensures d.channels[j].isRelayDone
      {
        NumbersDiffer(c.channels, i, j);
      }
    }
  }

  // ------------------------------------------------------------------ the network

  lemma NetStepKeepsInv(n: Net, e: NetEvent)
    requires NetInv(n) && NetEnabled(n, e)
    ensures NetInv(NetStep(n, e))
  {
    hide Inv, Step, GetU32;
    assert !IsAck([]);
    if e.AtCaller? {
      StepKeepsInv(n.caller, e.e);
      CallerStep(n.caller, e.e);
      var d := Step(n.caller, e.e);
      forall i | 0 <= i < |d.channels| && d.channels[i].isRelayDone
        ensures n.callee.channels[i].isRelayDone
      {
        if !n.caller.channels[i].isRelayDone { AckMeansRelayed(n, e, i); }
      }
    } else {
      StepKeepsInv(n.callee, e.e);
      CalleeStep(n.callee, e.e);
    }
  }

  /** An acknowledgement that was really sent tells the truth about the callee. */
  lemma AckMeansRelayed(n: Net, e: NetEvent, i: nat)
    requires NetInv(n) && NetEnabled(n, e) && e.e.Receive? && i < |n.callee.channels|
    requires IsAck(e.e.packet) && CompId(e.e.packet) == n.caller.channels[i].compId
    ensures n.callee.channels[i].isRelayDone
  {
  }

  lemma {:induction false} NetRunKeepsInv(n: Net, es: seq<NetEvent>)
    requires NetInv(n) && NetCanRun(n, es)
    ensures NetInv(NetRun(n, es))
    decreases |es|
  {
    if es != [] {
      NetStepKeepsInv(n, es[0]);
      NetRunKeepsInv(NetStep(n, es[0]), es[1..]);
    }
  }

  /** Two-party agreement: in every run with loss, duplication, reordering and misrouting, once
    * the controlling side has ended with success, every channel of the controlled side is set
    * up for the relay and the controlled side has ended too. */
  lemma {:induction false} Agreement(n: Net, es: seq<NetEvent>)
    requires NetFresh(n) && NetCanRun(n, es)
    ensures var m := NetRun(n, es);
            HasResult(m.caller) ==> AllRelayDone(m.callee.channels) && m.callee.state == FINAL
  {
    FreshNetIsInv(n);
    NetRunKeepsInv(n, es);
  }
}

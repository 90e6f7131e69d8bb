/** The room the channels' packet buffers need. */
module ConficeBuffers {
  import opened Packet
  import opened C = Confice
  import opened N = ConficeNet

  const PKT_COMMON_SIZE: nat := 1024

  predicate IsMessageOf(p: Bytes, msgType: bv8) {
    |p| > HEADER_LENGTH && p[0] == PKT_TYPE_MSG && MsgType(p) == msgType
  }

  /** Only packets wrapped for the ICE library, which have a buffer of their own, may be longer. */
  predicate Short(ps: seq<Bytes>) {
    forall k :: 0 <= k < |ps| ==> |ps[k]| <= PKT_COMMON_SIZE || IsMessageOf(ps[k], MSG_TYPE_ICE_WRAP)
  }

  predicate InBuffer(chs: seq<Channel>) {
    forall i :: 0 <= i < |chs| ==> |chs[i].pktCommon| <= PKT_COMMON_SIZE
  }

  predicate Fits(c: Conf) { InBuffer(c.channels) && Short(c.sent) }

  predicate ShortRequest(e: Event) {
    e.Receive? && IsMessageOf(e.packet, MSG_TYPE_SELECT_RELAY) ==> |e.packet| <= PKT_COMMON_SIZE
  }

  lemma BufferedIsShort(sent: seq<Bytes>, chs: seq<Channel>)
    requires Short(sent) && InBuffer(chs)
    ensures Short(sent + Buffered(chs))
  {
  }

  lemma RegisterFits(c: Conf)
    ensures InBuffer(RegisterAll(c))
  {
    hide U32Bytes, Checksum;
  }

  lemma SendRegFits(c: Conf, now: int)
    requires Fits(c)
    ensures Fits(SendReg(c, now))
  {
    hide RegisterAll;
    RegisterFits(c);
    BufferedIsShort(c.sent, RegisterAll(c));
  }

  lemma SelectAllFits(chs: seq<Channel>, sessionId: bv32, tsx: nat -> bv32)
    ensures InBuffer(SelectAll(chs, sessionId, tsx))
  {
    hide Message;
    forall i | 0 <= i < |chs| ensures |SelectAll(chs, sessionId, tsx)[i].pktCommon| <= PKT_COMMON_SIZE {
      assert SelectAll(chs, sessionId, tsx)[i].pktCommon == SelectRelayPacket(sessionId, chs[i].compId, tsx(i));
    }
  }

  lemma SelectFits(c: Conf, now: int, tsx: nat -> bv32)
    requires Fits(c)
    ensures Fits(CheckForSelectRelay(c, now, tsx))
  {
    hide SelectAll;
    SelectAllFits(c.channels, c.sessionId, tsx);
    BufferedIsShort(c.sent, SelectAll(c.channels, c.sessionId, tsx));
  }

  lemma TimerFits(c: Conf, now: int)
    requires Fits(c)
    ensures Fits(TimerCb(c, now))
  {
    hide SendReg, InBuffer, Short;
    if c.state == REGING { SendRegFits(c, now); }
    var d := if c.state == REGING && now - c.regSendTime < TIMEOUT_MS then SendReg(c, now) else c;
    BufferedIsShort(d.sent, d.channels);
  }

  lemma WrapFits(c: Conf, i: nat, payload: Bytes)
    requires Fits(c) && i < |c.channels|
    ensures Fits(OnIceTxPkt(c, i, payload))
  {
    hide Message;
    MessageRoundTrip(MSG_TYPE_ICE_WRAP, c.sessionId, c.channels[i].compId, 0, payload, (|payload| % 0x1_0000_0000) as bv32);
  }

  lemma ReceiveFits(c: Conf, i: nat, p: Bytes, status: int, created: bool)
    requires Fits(c) && Enabled(c, Receive(i, p, status, created)) && ShortRequest(Receive(i, p, status, created))
    ensures Fits(OnDataRecvfrom(c, i, p, status, created))
  {
    hide OnRegAck, OnSelectRelay, OnSelectRelayAck, GetU32, Fits;
    RegAckFits(c, i, p, status, created);
    if p[0] == PKT_TYPE_MSG { MessagesFit(c, i, p); }
  }

  lemma RegAckFits(c: Conf, i: nat, p: Bytes, status: int, created: bool)
    requires Fits(c) && i < |c.channels|
    ensures Fits(OnRegAck(c, i, p, status, created))
  {
    hide CheckRegAck, AllReg, StartNego, Short;
    StartNegoIsSilent(SetState(Registered(c, i), REG_DONE, 0), status, created);
  }

  lemma MessagesFit(c: Conf, i: nat, p: Bytes)
    requires Fits(c) && i < |c.channels| && |p| > HEADER_LENGTH
    ensures |p| <= PKT_COMMON_SIZE ==> Fits(OnSelectRelay(c, i, p))
    ensures Fits(OnSelectRelayAck(c, i, p))
  {
    hide Verifies, GetU32, Ack, AllRelayDone, SetFinal;
    FinalIsSilent(c.(channels := c.channels[i := c.channels[i].(isRelayDone := true)]));
    FinalIsSilent(c.(channels := c.channels[i := c.channels[i].(isRelayDone := true, pktCommon := Ack(p))], sent := c.sent + [Ack(p)]));
  }

  lemma FinalIsSilent(c: Conf)
    ensures CheckForSelectRelayDone(c).channels == c.channels && CheckForSelectRelayDone(c).sent == c.sent
  {
    hide AllRelayDone;
  }

  /** What a step stores and sends fits as long as the requests that arrive do. */
  lemma StepFits(c: Conf, e: Event)
    requires Fits(c) && Enabled(c, e) && ShortRequest(e)
    ensures Fits(Step(c, e))
  {
    hide InBuffer, Short, OnDataRecvfrom, TimerCb, CheckForSelectRelay, SendReg, OnIceTxPkt;
    match e
    case KickReg(now) => SendRegFits(c, now);
    case KickSelectRelay(now, tsx) => SelectFits(c.(selRelayKicked := true), now, tsx);
    case CancelIt =>
    case IceComplete(status, now, tsx) => SelectFits(SetState(c, NEGO_DONE, status), now, tsx);
    case IceSends(i, payload) => WrapFits(c, i, payload);
    case Receive(i, p, status, created) => ReceiveFits(c, i, p, status, created);
    case Timer(now) => TimerFits(c, now);
  }

  predicate NetFits(n: Net) { Fits(n.caller) && Fits(n.callee) }

  /** Without forging, a request that arrives was sent, so it is short. */
  lemma NetStepFits(n: Net, e: NetEvent)
    requires NetFits(n) && NetEnabled(n, e)
    ensures NetFits(NetStep(n, e))
  {
    hide InBuffer, Step;
    assert ShortRequest(e.e);
    if e.AtCaller? { StepFits(n.caller, e.e); } else { StepFits(n.callee, e.e); }
  }

  lemma {:induction false} NetRunFits(n: Net, es: seq<NetEvent>)
    requires NetFits(n) && NetCanRun(n, es)
    ensures NetFits(NetRun(n, es))
    decreases |es|
  {
    hide NetFits, NetEnabled, NetStep;
    if es != [] {
      NetStepFits(n, es[0]);
      NetRunFits(NetStep(n, es[0]), es[1..]);
    }
  }

  /** In every run without forging every packet buffer and every acknowledgement stays within its 1024 bytes. */
  lemma {:induction false} BuffersSuffice(n: Net, es: seq<NetEvent>)
    requires NetFresh(n) && NetCanRun(n, es)
    ensures NetFits(NetRun(n, es))
  {
    hide NetCanRun, NetRun;
    NetRunFits(n, es);
  }

  /** An acknowledgement takes as many bytes as the request: any request that is accepted fits exactly if its own length
    * does, and the receiver has no check of that length. */
  lemma RoomNeeded(c: Conf, i: nat, tsx: bv32, payload: Bytes, dataLen: bv32)
    requires c.role == Controlled && Rank(c.state) >= Rank(NEGO_DONE) && i < |c.channels|
    requires c.channels[i].compId != 0 && c.channels[i].compId as nat <= |c.channels|
    ensures var p := Message(MSG_TYPE_SELECT_RELAY, c.sessionId, c.channels[i].compId, tsx, payload, dataLen);
            |p| > HEADER_LENGTH && Enabled(c, Receive(i, p, 0, false)) &&
            var d := OnDataRecvfrom(c, i, p, 0, false);
            i < |d.channels| && d.channels[i].pktCommon == Ack(p) && |Ack(p)| == HEADER_LENGTH + |payload| + 1 &&
            (|d.channels[i].pktCommon| <= PKT_COMMON_SIZE <==> HEADER_LENGTH + |payload| + 1 <= PKT_COMMON_SIZE)
  {
    hide Message, Ack, Verifies, GetU32, AllRelayDone;
    MessageRoundTrip(MSG_TYPE_SELECT_RELAY, c.sessionId, c.channels[i].compId, tsx, payload, dataLen);
  }
}

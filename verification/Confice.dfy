/** One party of the relay negotiation ("confice") as a function of its entry points.
  *
  * Every entry point runs under the group lock, so it is one step. The ICE library is an
  * oracle: it reports completion with any status, it accepts or rejects the start of a check,
  * and it hands out any packet to wrap. Clock readings and transaction numbers are inputs.
  */
module Confice {
  import opened Packet

  datatype Op =
    | NONE | REGING | REG_DONE | NEGOING | NEGO_DONE | SELECTING | SELECT_DONE | FINAL

  /** The numbers the source compares states by. */
  function Rank(op: Op): nat {
    match op
    case NONE => 0
    case REGING => 1
    case REG_DONE => 2
    case NEGOING => 3
    case NEGO_DONE => 4
    case SELECTING => 5
    case SELECT_DONE => 6
    case FINAL => 99
  }

  datatype Role = Controlling | Controlled

  datatype Channel = Channel(
    compId: bv32,
    channelId: bv32,
    isReg: bool,
    tsxId: bv32,
    pktCommon: Bytes,
    isRelayDone: bool)

  /** One call of `cb.on_complete`. */
  datatype Callback = Callback(op: Op, status: int)

  const PJ_SUCCESS: int := 0
  const TIMEOUT_MS: int := 4000   // CICE_DEFAULT_TIMEOUT_MS
  const TIMER_MS: int := 200

  /** `tag_confice`; `calls` and `sent` record the callbacks made and the datagrams handed to
    * the sockets. */
  datatype Conf = Conf(
    role: Role,
    sessionId: bv32,
    confId: Bytes,
    rcode: Bytes,
    channels: seq<Channel>,
    state: Op,
    regSendCount: nat,
    regSendTime: int,
    selRelayKicked: bool,
    selRelayDone: bool,
    selRelaySendTime: int,
    finalResult: int,
    iceSess: bool,
    timerArmed: bool,
    calls: seq<Callback>,
    sent: seq<Bytes>)

  // ------------------------------------------------------------------ helpers of the source

  /** `_set_state`: assigns unconditionally, reports only forward moves. */
  function SetState(c: Conf, op: Op, result: int): Conf {
    c.(state := op, calls := if Rank(c.state) < Rank(op) then c.calls + [Callback(op, result)] else c.calls)
  }

  /** `_set_final`. */
  function SetFinal(c: Conf, result: int): Conf {
    SetState(if Rank(c.state) < Rank(FINAL) then c.(finalResult := result) else c, FINAL, result)
  }

  predicate AllReg(chs: seq<Channel>) { forall i :: 0 <= i < |chs| ==> chs[i].isReg }

  predicate AllRelayDone(chs: seq<Channel>) { forall i :: 0 <= i < |chs| ==> chs[i].isRelayDone }

  function RegisterAll(c: Conf): (chs: seq<Channel>)
    ensures |chs| == |c.channels|
  {
    seq(|c.channels|, i requires 0 <= i < |c.channels| =>
      var ch := c.channels[i];
      ch.(pktCommon := RegisterPacket(c.sessionId, c.confId, ch.channelId, c.rcode)))
  }

  /** The packets waiting in the channels' buffers, in channel order. */
  function Buffered(chs: seq<Channel>): (ps: seq<Bytes>)
    ensures |ps| == |chs|
  {
    seq(|chs|, i requires 0 <= i < |chs| => chs[i].pktCommon)
  }

  lemma RegisterAllAt(c: Conf, i: nat)
    requires i < |c.channels|
    ensures RegisterAll(c)[i] ==
            c.channels[i].(pktCommon := RegisterPacket(c.sessionId, c.confId, c.channels[i].channelId, c.rcode))
  {
  }

  lemma BufferedStep(chs: seq<Channel>, i: nat)
    requires i < |chs|
    ensures Buffered(chs)[..i + 1] == Buffered(chs)[..i] + [chs[i].pktCommon]
    ensures Buffered(chs)[..|chs|] == Buffered(chs)
  {
  }

  /** `_send_reg`. */
  function SendReg(c: Conf, now: int): Conf {
    var chs := RegisterAll(c);
    var first := c.regSendCount == 0;
    c.(channels := chs, sent := c.sent + Buffered(chs), regSendCount := c.regSendCount + 1,
       regSendTime := if first then now else c.regSendTime, state := if first then REGING else c.state)
  }

  /** The select-relay packet of a channel under a transaction number. */
  function SelectRelayPacket(sessionId: bv32, compId: bv32, tsx: bv32): Bytes {
    Message(MSG_TYPE_SELECT_RELAY, sessionId, compId, tsx, [], 0)
  }

  function SelectAll(chs: seq<Channel>, sessionId: bv32, tsx: nat -> bv32): (selected: seq<Channel>)
    ensures |selected| == |chs|
  {
    seq(|chs|, i requires 0 <= i < |chs| =>
      chs[i].(tsxId := tsx(i), pktCommon := SelectRelayPacket(sessionId, chs[i].compId, tsx(i))))
  }

  /** `_check_for_select_relay`; `tsx` gives the numbers `_generate_u32` draws per channel. */
  function CheckForSelectRelay(c: Conf, now: int, tsx: nat -> bv32): Conf {
    if c.state != NEGO_DONE || !c.selRelayKicked || c.role != Controlling then c
    else
      var chs := SelectAll(c.channels, c.sessionId, tsx);
      c.(channels := chs, sent := c.sent + Buffered(chs), selRelaySendTime := now, state := SELECTING)
  }

  /** `_check_for_select_relay_done`. */
  function CheckForSelectRelayDone(c: Conf): Conf {
    if c.selRelayDone || !AllRelayDone(c.channels) then c else SetFinal(c.(selRelayDone := true), 0)
  }

  /** `_start_nego`: `status` is the outcome of creating the ICE session and its check list,
    * `created` whether the session object came into being. */
  function StartNego(c: Conf, status: int, created: bool): Conf {
    var d := c.(iceSess := created);
    if status == PJ_SUCCESS then SetState(d, NEGOING, 0) else SetFinal(d, status)
  }

  // ------------------------------------------------------------------ entry points

  /** `on_ccc_ice_complete`. */
  function OnIceComplete(c: Conf, status: int, now: int, tsx: nat -> bv32): Conf {
    if c.state != NEGOING then c
    else
      var d := SetState(c, NEGO_DONE, status);
      if status != PJ_SUCCESS then SetFinal(d, status) else CheckForSelectRelay(d, now, tsx)
  }

  /** `on_ccc_ice_tx_pkt`: the ICE library sends a packet of its own through a channel. */
  function OnIceTxPkt(c: Conf, i: nat, payload: Bytes): Conf
    requires i < |c.channels|
  {
    c.(sent := c.sent + [Message(MSG_TYPE_ICE_WRAP, c.sessionId, c.channels[i].compId, 0, payload, (|payload| % 0x1_0000_0000) as bv32)])
  }

  /** `_check_reg_ack`. */
  predicate CheckRegAck(c: Conf, p: Bytes) {
    |p| >= 8 && Verifies(p) && GetU32(p, 1) == c.sessionId && p[5] == 0
  }

  /** The register-acknowledgement branch of `on_data_recvfrom`. */
  function OnRegAck(c: Conf, i: nat, p: Bytes, iceStatus: int, iceCreated: bool): Conf
    requires i < |c.channels|
  {
    if !CheckRegAck(c, p) || c.state != REGING then c
    else
      var d := c.(channels := c.channels[i := c.channels[i].(isReg := true)]);
      if AllReg(d.channels) then StartNego(SetState(d, REG_DONE, 0), iceStatus, iceCreated) else d
  }

  /** The select-relay branch: mark the channel, acknowledge, see whether all are done. */
  function OnSelectRelay(c: Conf, i: nat, p: Bytes): Conf
    requires i < |c.channels| && |p| > HEADER_LENGTH
  {
    if c.role != Controlled || Rank(c.state) < Rank(NEGO_DONE) || !Verifies(p) ||
       CompId(p) == 0 || CompId(p) as nat > |c.channels| then c
    else
      var ack := Ack(p);
      CheckForSelectRelayDone(c.(channels := c.channels[i := c.channels[i].(isRelayDone := true, pktCommon := ack)],
                                 sent := c.sent + [ack]))
  }

  /** The branch for acknowledgements of select-relay. */
  function OnSelectRelayAck(c: Conf, i: nat, p: Bytes): Conf
    requires i < |c.channels| && |p| > HEADER_LENGTH
  {
    if c.role != Controlling || c.state != SELECTING || !Verifies(p) ||
       CompId(p) == 0 || CompId(p) as nat > |c.channels| || TsxId(p) != c.channels[i].tsxId then c
    else CheckForSelectRelayDone(c.(channels := c.channels[i := c.channels[i].(isRelayDone := true)]))
  }

  /** `on_data_recvfrom` on channel `i`. The source reads a message's header without looking at
    * the length, so a message datagram has to have one. */
  function OnDataRecvfrom(c: Conf, i: nat, p: Bytes, iceStatus: int, iceCreated: bool): Conf
    requires i < |c.channels| && p != [] && (p[0] == PKT_TYPE_MSG ==> |p| > HEADER_LENGTH)
  {
    if p[0] == PKT_TYPE_REGISTER then OnRegAck(c, i, p, iceStatus, iceCreated)
    else if p[0] != PKT_TYPE_MSG || SessionId(p) != c.sessionId || CompId(p) != c.channels[i].compId then c
    else if MsgType(p) == MSG_TYPE_SELECT_RELAY then OnSelectRelay(c, i, p)
    else if MsgType(p) == MSG_TYPE_SELECT_RELAY_ACK then OnSelectRelayAck(c, i, p)
    else c
  }

  /** `timer_cb`: retransmit or give up, then re-arm unless final. */
  function TimerCb(c: Conf, now: int): Conf {
    var d :=
      if c.state == REGING then
        if now - c.regSendTime < TIMEOUT_MS then SendReg(c, now) else SetFinal(c, -1)
      else c;
    var e :=
      if d.state == SELECTING then
        if now - d.selRelaySendTime < TIMEOUT_MS then d.(sent := d.sent + Buffered(d.channels)) else SetFinal(d, -1)
      else d;
    e.(timerArmed := e.state != FINAL)
  }

  /** `confice_kickoff_reg`; refused once registration has begun. */
  function KickoffReg(c: Conf, now: int): Conf {
    if Rank(c.state) >= Rank(REGING) then c else SendReg(c, now)
  }

  /** `confice_kickoff_select_relay`; refused once selection has begun. */
  function KickoffSelectRelay(c: Conf, now: int, tsx: nat -> bv32): Conf {
    if Rank(c.state) >= Rank(SELECTING) then c else CheckForSelectRelay(c.(selRelayKicked := true), now, tsx)
  }

  /** `confice_cancel`. */
  function Cancel(c: Conf): Conf {
    if c.state == FINAL then c else SetFinal(c, -1)
  }

  /** Whether `confice_get_result` yields relay pairs. */
  predicate HasResult(c: Conf) { c.state == FINAL && c.finalResult == 0 }

  // ------------------------------------------------------------------ steps and runs

  datatype Event =
    | KickReg(now: int)
    | KickSelectRelay(now: int, tsx: nat -> bv32)
    | CancelIt
    | IceComplete(status: int, now: int, tsx: nat -> bv32)
    | IceSends(channel: nat, payload: Bytes)
    | Receive(channel: nat, packet: Bytes, iceStatus: int, iceCreated: bool)
    | Timer(now: int)

  /** Events the environment can produce in a state. */
  predicate Enabled(c: Conf, e: Event) {
    match e
    case IceSends(i, _) => i < |c.channels|
    case Receive(i, p, _, _) => i < |c.channels| && p != [] && (p[0] == PKT_TYPE_MSG ==> |p| > HEADER_LENGTH)
    case Timer(_) => c.timerArmed
    case _ => true
  }

  function Step(c: Conf, e: Event): Conf
    requires Enabled(c, e)
  {
    match e
    case KickReg(now) => KickoffReg(c, now)
    case KickSelectRelay(now, tsx) => KickoffSelectRelay(c, now, tsx)
    case CancelIt => Cancel(c)
    case IceComplete(status, now, tsx) => OnIceComplete(c, status, now, tsx)
    case IceSends(i, payload) => OnIceTxPkt(c, i, payload)
    case Receive(i, p, status, created) => OnDataRecvfrom(c, i, p, status, created)
    case Timer(now) => TimerCb(c, now)
  }

  /** What `confice_new` leaves behind. */
  predicate Fresh(c: Conf) {
    c.state == NONE && c.regSendCount == 0 && !c.selRelayKicked && !c.selRelayDone && c.finalResult == 0 &&
    !c.iceSess && c.timerArmed && c.calls == [] && c.sent == [] && Numbered(c.channels) &&
    (forall i :: 0 <= i < |c.channels| ==>
       !c.channels[i].isReg && !c.channels[i].isRelayDone && c.channels[i].pktCommon == [])
  }

  // ------------------------------------------------------------------ invariant

  /** There is a channel, and no two have the same component number. */
  predicate Numbered(chs: seq<Channel>) {
    0 < |chs| && forall i, j :: 0 <= i < j < |chs| ==> chs[i].compId != chs[j].compId
  }

  predicate NoRelayDone(chs: seq<Channel>) { forall i :: 0 <= i < |chs| ==> !chs[i].isRelayDone }

  /** The callback trace: strictly forward, up to the current state, and ended by the one final
    * callback, which carries the final result, exactly when the state is final. */
  predicate TraceOk(c: Conf) {
    (forall i, j :: 0 <= i < j < |c.calls| ==> Rank(c.calls[i].op) < Rank(c.calls[j].op)) &&
    (forall i :: 0 <= i < |c.calls| ==> Rank(c.calls[i].op) <= Rank(c.state)) &&
    (c.state == FINAL ==> |c.calls| > 0 && c.calls[|c.calls| - 1] == Callback(FINAL, c.finalResult)) &&
    (c.state != FINAL ==> forall i :: 0 <= i < |c.calls| ==> c.calls[i].op != FINAL)
  }

  predicate Inv(c: Conf) {
    Numbered(c.channels) && TraceOk(c) &&
    c.state != REG_DONE && c.state != SELECT_DONE &&
    (c.state == NONE ==> c.regSendCount == 0) &&
    (c.state != NONE && c.state != FINAL ==> c.regSendCount > 0) &&
    (Rank(NEGOING) <= Rank(c.state) <= Rank(SELECTING) ==> AllReg(c.channels)) &&
    (Rank(c.state) < Rank(NEGO_DONE) ==> NoRelayDone(c.channels)) &&
    (c.role == Controlling && Rank(c.state) < Rank(SELECTING) ==> NoRelayDone(c.channels)) &&
    (c.state == SELECTING ==> c.role == Controlling && c.selRelayKicked) &&
    (c.role == Controlling && c.selRelayKicked ==> c.state != NEGO_DONE) &&
    (c.state == FINAL && c.finalResult == 0 ==> AllReg(c.channels) && AllRelayDone(c.channels)) &&
    (AllRelayDone(c.channels) ==> c.selRelayDone) &&
    (c.selRelayDone ==> c.state == FINAL && AllRelayDone(c.channels)) &&
    (c.state != FINAL ==> c.timerArmed)
  }

  lemma FreshIsInv(c: Conf)
    requires Fresh(c)
    ensures Inv(c)
  {
    assert !c.channels[0].isRelayDone;
  }

  /** What a step may do to the past: states only move forward, the callback trace and the
    * datagrams sent only grow, relay flags and the kick are never taken back, and a final
    * state keeps its result. */
  predicate Forward(c: Conf, d: Conf) {
    d.role == c.role && d.sessionId == c.sessionId && |d.channels| == |c.channels| &&
    Rank(c.state) <= Rank(d.state) && c.calls <= d.calls && c.sent <= d.sent &&
    (forall i :: 0 <= i < |c.channels| ==> c.channels[i].isRelayDone ==> d.channels[i].isRelayDone) &&
    (forall i :: 0 <= i < |c.channels| ==> c.channels[i].isReg ==> d.channels[i].isReg) &&
    (forall i :: 0 <= i < |c.channels| ==> d.channels[i].compId == c.channels[i].compId) &&
    (c.selRelayKicked ==> d.selRelayKicked) &&
    (c.state == FINAL ==> d.state == FINAL && d.finalResult == c.finalResult && d.calls == c.calls)
  }

  lemma ForwardReflexive(c: Conf)
    ensures Forward(c, c)
  {
  }

  lemma ForwardTransitive(a: Conf, b: Conf, c: Conf)
    requires Forward(a, b) && Forward(b, c)
    ensures Forward(a, c)
  {
  }

  /** Every entry point keeps the invariant and only moves forward. */
  lemma StepKeepsInv(c: Conf, e: Event)
    requires Inv(c) && Enabled(c, e)
    ensures Inv(Step(c, e)) && Forward(c, Step(c, e))
  {
    hide Inv, OnDataRecvfrom, TimerCb, OnIceComplete, KickoffSelectRelay, SendReg, Message;
    match e
    case KickReg(now) => KickRegKeepsInv(c, now);
    case KickSelectRelay(now, tsx) => KickKeepsInv(c, now, tsx);
    case CancelIt => if c.state != FINAL { FinalKeepsInv(c, -1); }
    case IceComplete(status, now, tsx) => IceCompleteKeepsInv(c, status, now, tsx);
    case IceSends(i, payload) => IceSendsKeepsInv(c, i, payload);
    case Receive(i, p, status, created) => ReceiveKeepsInv(c, i, p, status, created);
    case Timer(now) => TimerKeepsInv(c, now);
  }

  lemma KickRegKeepsInv(c: Conf, now: int)
    requires Inv(c)
    ensures Inv(KickoffReg(c, now)) && Forward(c, KickoffReg(c, now))
  {
    hide SendReg;
    if c.state == NONE { SendRegKeepsInv(c, now); }
  }

  lemma IceSendsKeepsInv(c: Conf, i: nat, payload: Bytes)
    requires Inv(c) && i < |c.channels|
    ensures Inv(OnIceTxPkt(c, i, payload)) && Forward(c, OnIceTxPkt(c, i, payload))
  {
    hide Message;
  }

  /** Channels that differ only in their buffers and transaction numbers. */
  predicate SameFlags(chs: seq<Channel>, chs': seq<Channel>) {
    |chs| == |chs'| &&
    forall i :: 0 <= i < |chs| ==>
      chs[i].compId == chs'[i].compId && chs[i].isReg == chs'[i].isReg && chs[i].isRelayDone == chs'[i].isRelayDone
  }

  lemma SameFlagsAgree(chs: seq<Channel>, chs': seq<Channel>)
    requires SameFlags(chs, chs')
    ensures AllReg(chs) == AllReg(chs') && AllRelayDone(chs) == AllRelayDone(chs')
    ensures NoRelayDone(chs) == NoRelayDone(chs') && Numbered(chs) == Numbered(chs')
  {
  }

  lemma SendRegKeepsInv(c: Conf, now: int)
    requires Inv(c) && (c.state == NONE || c.state == REGING)
    ensures Inv(SendReg(c, now)) && Forward(c, SendReg(c, now)) && SendReg(c, now).state == REGING
  {
    hide RegisterPacket, Numbered, AllReg, AllRelayDone;
    SameFlagsAgree(c.channels, RegisterAll(c));
  }

  lemma FinalKeepsInv(c: Conf, result: int)
    requires Inv(c) && result != 0
    ensures Inv(SetFinal(c, result)) && Forward(c, SetFinal(c, result))
  {
    hide Numbered, AllReg, AllRelayDone;
  }

  lemma KickKeepsInv(c: Conf, now: int, tsx: nat -> bv32)
    requires Inv(c)
    ensures Inv(KickoffSelectRelay(c, now, tsx)) && Forward(c, KickoffSelectRelay(c, now, tsx))
  {
    hide SelectAll, Numbered, AllReg, AllRelayDone, NoRelayDone;
    SelectKeepsFlags(c.channels, c.sessionId, tsx);
    SameFlagsAgree(c.channels, SelectAll(c.channels, c.sessionId, tsx));
  }

  lemma IceCompleteKeepsInv(c: Conf, status: int, now: int, tsx: nat -> bv32)
    requires Inv(c)
    ensures Inv(OnIceComplete(c, status, now, tsx)) && Forward(c, OnIceComplete(c, status, now, tsx))
  {
    hide Inv, CheckForSelectRelay, SetFinal, SetState;
    if c.state != NEGOING {
      ForwardReflexive(c);
    } else if status != PJ_SUCCESS {
      IceFailureKeepsInv(c, status);
    } else {
      IceSuccessKeepsInv(c, now, tsx);
    }
  }

  /** A move forward that is not the last one extends the callback trace. */
  lemma Advances(c: Conf, op: Op, result: int)
    requires TraceOk(c) && Rank(c.state) < Rank(op) && op != FINAL
    ensures TraceOk(SetState(c, op, result)) && c.calls <= SetState(c, op, result).calls
  {
  }

  lemma IceFailureKeepsInv(c: Conf, status: int)
    requires Inv(c) && c.state == NEGOING && status != PJ_SUCCESS
    ensures var d := SetFinal(SetState(c, NEGO_DONE, status), status); Inv(d) && Forward(c, d)
  {
    hide TraceOk, Numbered, AllReg, AllRelayDone, NoRelayDone;
    Advances(c, NEGO_DONE, status);
    FinalCallback(SetState(c, NEGO_DONE, status), status);
  }

  lemma IceSuccessKeepsInv(c: Conf, now: int, tsx: nat -> bv32)
    requires Inv(c) && c.state == NEGOING
    ensures var d := CheckForSelectRelay(SetState(c, NEGO_DONE, PJ_SUCCESS), now, tsx); Inv(d) && Forward(c, d)
  {
    hide SelectAll, Numbered, AllReg, AllRelayDone, NoRelayDone;
    SelectKeepsFlags(c.channels, c.sessionId, tsx);
    SameFlagsAgree(c.channels, SelectAll(c.channels, c.sessionId, tsx));
    Advances(c, NEGO_DONE, PJ_SUCCESS);
  }

  lemma SelectKeepsFlags(chs: seq<Channel>, sessionId: bv32, tsx: nat -> bv32)
    ensures SameFlags(chs, SelectAll(chs, sessionId, tsx))
  {
    hide SelectRelayPacket;
  }

  lemma ReceiveKeepsInv(c: Conf, i: nat, p: Bytes, status: int, created: bool)
    requires Inv(c) && Enabled(c, Receive(i, p, status, created))
    ensures var d := OnDataRecvfrom(c, i, p, status, created); Inv(d) && Forward(c, d)
  {
    hide Inv, OnRegAck, OnSelectRelay, OnSelectRelayAck, GetU32;
    if p[0] == PKT_TYPE_REGISTER {
      RegAckKeepsInv(c, i, p, status, created);
    } else if p[0] == PKT_TYPE_MSG {
      SelectRelayKeepsInv(c, i, p);
      AckKeepsInv(c, i, p);
    }
  }

  /** Setting flags of one channel keeps the numbering and whatever held of all channels. */
  lemma OneMarked(chs: seq<Channel>, i: nat, ch: Channel)
    requires i < |chs| && ch.compId == chs[i].compId
    ensures Numbered(chs) ==> Numbered(chs[i := ch])
    ensures AllReg(chs) && ch.isReg ==> AllReg(chs[i := ch])
    ensures AllRelayDone(chs) && ch.isRelayDone ==> AllRelayDone(chs[i := ch])
    ensures NoRelayDone(chs) && !ch.isRelayDone ==> NoRelayDone(chs[i := ch])
  {
  }

  lemma NoneIsNotAll(chs: seq<Channel>)
    requires Numbered(chs) && NoRelayDone(chs)
    ensures !AllRelayDone(chs)
  {
    assert !chs[0].isRelayDone;
  }

  lemma RegisteredAt(chs: seq<Channel>, i: nat)
    requires AllReg(chs) && i < |chs|
    ensures chs[i].isReg
  {
  }

  /** Going final from any earlier state closes the callback trace. */
  lemma FinalCallback(c: Conf, result: int)
    requires TraceOk(c) && c.state != FINAL
    ensures TraceOk(SetFinal(c, result)) && SetFinal(c, result).finalResult == result
    ensures c.calls <= SetFinal(c, result).calls
  {
  }

  lemma RegAckKeepsInv(c: Conf, i: nat, p: Bytes, status: int, created: bool)
    requires Inv(c) && i < |c.channels|
    ensures var d := OnRegAck(c, i, p, status, created); Inv(d) && Forward(c, d)
  {
    hide CheckRegAck, StartNego, Inv, Forward, AllReg;
    ForwardReflexive(c);
    if CheckRegAck(c, p) && c.state == REGING {
      var d := Registered(c, i);
      RegisteredKeeps(c, i);
      if AllReg(d.channels) {
        var e := SetState(d, REG_DONE, 0);
        StartNegoSettles(e, status, created);
        ForwardTransitive(c, e, StartNego(e, status, created));
      }
    }
  }

  function Registered(c: Conf, i: nat): Conf
    requires i < |c.channels|
  {
    c.(channels := c.channels[i := c.channels[i].(isReg := true)])
  }

  lemma RegisteredKeeps(c: Conf, i: nat)
    requires Inv(c) && i < |c.channels| && c.state == REGING
    ensures var d := Registered(c, i);
            Inv(d) && Forward(c, d) && Forward(c, SetState(d, REG_DONE, 0)) && TraceOk(SetState(d, REG_DONE, 0)) &&
            Numbered(d.channels) && NoRelayDone(d.channels) && !d.selRelayDone && d.timerArmed && d.regSendCount > 0
  {
    hide Numbered, AllReg, AllRelayDone, TraceOk, Forward, SetState;
    OneMarked(c.channels, i, c.channels[i].(isReg := true));
    NoneIsNotAll(Registered(c, i).channels);
    RegDone(c, i);
  }

  lemma RegDone(c: Conf, i: nat)
    requires TraceOk(c) && i < |c.channels| && c.state == REGING
    ensures var d := Registered(c, i);
            TraceOk(d) && Forward(c, d) && Forward(c, SetState(d, REG_DONE, 0)) && TraceOk(SetState(d, REG_DONE, 0))
  {
    var d := Registered(c, i);
    assert TraceOk(d);
    hide TraceOk;
    Advances(d, REG_DONE, 0);
  }

  /** From the passing state REG_DONE the start of the check leads to NEGOING or to the end. */
  lemma StartNegoSettles(e: Conf, status: int, created: bool)
    requires e.state == REG_DONE && TraceOk(e) && Numbered(e.channels) && AllReg(e.channels) && NoRelayDone(e.channels)
    requires e.regSendCount > 0 && !e.selRelayDone && e.timerArmed
    ensures Inv(StartNego(e, status, created)) && Forward(e, StartNego(e, status, created))
  {
    hide Numbered, AllReg, AllRelayDone, NoRelayDone;
    NoneIsNotAll(e.channels);
  }

  lemma SelectRelayKeepsInv(c: Conf, i: nat, p: Bytes)
    requires Inv(c) && i < |c.channels| && |p| > HEADER_LENGTH
    ensures var d := OnSelectRelay(c, i, p); Inv(d) && Forward(c, d)
  {
    hide Verifies, GetU32, Ack, Inv, CheckForSelectRelayDone;
    if c.role == Controlled && Rank(c.state) >= Rank(NEGO_DONE) { RelayMarked(c, i, Ack(p), c.sent + [Ack(p)]); }
  }

  lemma AckKeepsInv(c: Conf, i: nat, p: Bytes)
    requires Inv(c) && i < |c.channels| && |p| > HEADER_LENGTH
    ensures var d := OnSelectRelayAck(c, i, p); Inv(d) && Forward(c, d)
  {
    hide Verifies, GetU32, Inv, CheckForSelectRelayDone;
    if c.role == Controlling && c.state == SELECTING {
      RelayMarked(c, i, c.channels[i].pktCommon, c.sent);
      assert c.channels[i].(isRelayDone := true) == c.channels[i].(isRelayDone := true, pktCommon := c.channels[i].pktCommon);
      assert c.(channels := c.channels[i := c.channels[i].(isRelayDone := true)]) ==
             c.(channels := c.channels[i := c.channels[i].(isRelayDone := true)], sent := c.sent);
    }
  }

  /** Marking a channel's relay as done and looking whether all are. */
  lemma RelayMarked(c: Conf, i: nat, packet: Bytes, sent: seq<Bytes>)
    requires Inv(c) && i < |c.channels| && c.sent <= sent
    requires Rank(c.state) >= Rank(if c.role == Controlling then SELECTING else NEGO_DONE)
    ensures var marked := c.(channels := c.channels[i := c.channels[i].(isRelayDone := true, pktCommon := packet)], sent := sent);
            Inv(CheckForSelectRelayDone(marked)) && Forward(c, CheckForSelectRelayDone(marked))
  {
    hide Numbered, AllReg, AllRelayDone, NoRelayDone, TraceOk, SetFinal, Forward;
    var ch := c.channels[i].(isRelayDone := true, pktCommon := packet);
    OneMarked(c.channels, i, ch);
    var marked := c.(channels := c.channels[i := ch], sent := sent);
    MarkedIsForward(c, i, ch, sent);
    if AllReg(c.channels) { RegisteredAt(c.channels, i); }
    if AllRelayDone(marked.channels) && !c.selRelayDone {
      var done := marked.(selRelayDone := true);
      FinalForward(c, done);
    }
  }

  lemma MarkedIsForward(c: Conf, i: nat, ch: Channel, sent: seq<Bytes>)
    requires i < |c.channels| && c.sent <= sent && ch.isRelayDone && ch.compId == c.channels[i].compId
    requires c.channels[i].isReg ==> ch.isReg
    ensures var marked := c.(channels := c.channels[i := ch], sent := sent);
            Forward(c, marked) && (TraceOk(c) ==> TraceOk(marked) && TraceOk(marked.(selRelayDone := true))) &&
            Forward(c, marked.(selRelayDone := true))
  {
  }

  /** Going final with success, or staying final with the old result. */
  lemma FinalForward(c: Conf, done: Conf)
    requires Forward(c, done) && TraceOk(done) && done.state == c.state
    ensures var f := SetFinal(done, 0);
            Forward(c, f) && TraceOk(f) && f.state == FINAL && f.channels == done.channels &&
            f.selRelayDone == done.selRelayDone && f.role == done.role &&
            f.finalResult == if c.state == FINAL then done.finalResult else 0
  {
    if done.state != FINAL { FinalCallback(done, 0); }
  }

  /** Sending what is buffered and re-arming the timer touch neither flags nor trace. */
  lemma Rearmed(c: Conf, sent: seq<Bytes>)
    requires Inv(c) && c.sent <= sent
    ensures var d := c.(sent := sent, timerArmed := c.state != FINAL); Inv(d) && Forward(c, d)
  {
    hide Numbered, AllReg, AllRelayDone, NoRelayDone;
  }

  lemma TimerKeepsInv(c: Conf, now: int)
    requires Inv(c)
    ensures Inv(TimerCb(c, now)) && Forward(c, TimerCb(c, now))
  {
    hide Inv, RegisterAll, Forward;
    if c.state == REGING {
      if now - c.regSendTime < TIMEOUT_MS {
        SendRegKeepsInv(c, now);
        RearmAfter(c, SendReg(c, now), SendReg(c, now).sent);
      } else {
        FinalKeepsInv(c, -1);
        RearmAfter(c, SetFinal(c, -1), SetFinal(c, -1).sent);
      }
    } else if c.state == SELECTING && now - c.selRelaySendTime >= TIMEOUT_MS {
      FinalKeepsInv(c, -1);
      RearmAfter(c, SetFinal(c, -1), SetFinal(c, -1).sent);
    } else {
      Rearmed(c, c.sent + if c.state == SELECTING then Buffered(c.channels) else []);
      assert c.sent + [] == c.sent;
    }
  }

  lemma RearmAfter(c: Conf, d: Conf, sent: seq<Bytes>)
    requires Inv(d) && Forward(c, d) && d.sent <= sent
    ensures var e := d.(sent := sent, timerArmed := d.state != FINAL); Inv(e) && Forward(c, e)
  {
  }

  /** A run: the events in order, each enabled where it happens. */
  predicate CanRun(c: Conf, es: seq<Event>)
    decreases |es|
  {
    es == [] || (Enabled(c, es[0]) && CanRun(Step(c, es[0]), es[1..]))
  }

  function Run(c: Conf, es: seq<Event>): Conf
    requires CanRun(c, es)
    decreases |es|
  {
    if es == [] then c else Run(Step(c, es[0]), es[1..])
  }

  lemma {:induction false} RunKeepsInv(c: Conf, es: seq<Event>)
    requires Inv(c) && CanRun(c, es)
    ensures Inv(Run(c, es)) && Forward(c, Run(c, es))
    decreases |es|
  {
    if es != [] {
      StepKeepsInv(c, es[0]);
      RunKeepsInv(Step(c, es[0]), es[1..]);
      ForwardTransitive(c, Step(c, es[0]), Run(c, es));
    }
  }

  /** Over every run from creation: the state never goes backwards between any two moments, a
    * final state is absorbing with its result fixed, the callbacks come in strictly increasing
    * order with at most one final one, as the last; a successful end means every channel is
    * registered and relayed; and the timer runs until the end. */
  lemma {:induction false} NeverBackwards(c: Conf, before: seq<Event>, after: seq<Event>)
    requires Fresh(c) && CanRun(c, before) && CanRun(Run(c, before), after)
    ensures var x := Run(c, before); var y := Run(x, after);
            Forward(x, y) && TraceOk(y) && (HasResult(y) ==> AllReg(y.channels) && AllRelayDone(y.channels)) &&
            (y.state != FINAL ==> y.timerArmed)
  {
    FreshIsInv(c);
    RunKeepsInv(c, before);
    RunKeepsInv(Run(c, before), after);
  }

  /** A kick is never lost: after every step of every run a kicked controlling party is past
    * NEGO_DONE or still before it, selection happens only there, and never on the other side. */
  lemma {:induction false} NoLostKick(c: Conf, es: seq<Event>)
    requires Fresh(c) && CanRun(c, es)
    ensures var d := Run(c, es);
            (d.role == Controlling && d.selRelayKicked ==> d.state != NEGO_DONE) &&
            (d.state == SELECTING ==> d.role == Controlling && d.selRelayKicked)
  {
    FreshIsInv(c);
    RunKeepsInv(c, es);
  }

  /** "Kick, then negotiation succeeds" and "negotiation succeeds, then kick" end in the same
    * state, provided the clock and the transaction numbers read the same. */
  lemma KickCommutesWithSuccess(c: Conf, now: int, tsx: nat -> bv32)
    requires Inv(c) && c.state == NEGOING && c.role == Controlling
    ensures OnIceComplete(KickoffSelectRelay(c, now, tsx), PJ_SUCCESS, now, tsx) ==
            KickoffSelectRelay(OnIceComplete(c, PJ_SUCCESS, now, tsx), now, tsx)
    ensures KickoffSelectRelay(OnIceComplete(c, PJ_SUCCESS, now, tsx), now, tsx).state == SELECTING
  {
  }
}

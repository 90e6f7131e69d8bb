/** `tag_confice` as the object the source updates in place. Each method's contract is the
  * step function of the same entry point.
  */
module ConficeMachine {
  import opened Packet
  import opened C = Confice

  class ConficeObject {
    const role: Role
    const sessionId: bv32
    const confId: Bytes
    const rcode: Bytes
    var channels: seq<Channel>
    var state: Op
    var regSendCount: nat
    var regSendTime: int
    var selRelayKicked: bool
    var selRelayDone: bool
    var selRelaySendTime: int
    var finalResult: int
    var iceSess: bool
    var timerArmed: bool
    var calls: seq<Callback>
    var sent: seq<Bytes>

    ghost function State(): Conf
      reads this
    {
      Conf(role, sessionId, confId, rcode, channels, state, regSendCount, regSendTime, selRelayKicked, selRelayDone,
           selRelaySendTime, finalResult, iceSess, timerArmed, calls, sent)
    }

    /** The part of `confice_new` that sets up the state: one or two channels, numbered from 1. */
    constructor (role: Role, sessionId: bv32, confId: Bytes, rcode: Bytes, channelId: bv32, hasVideo: bool, vchannelId: bv32)
      ensures Fresh(State()) && |channels| == if hasVideo then 2 else 1
      ensures this.role == role && this.sessionId == sessionId
    {
      this.role, this.sessionId, this.confId, this.rcode := role, sessionId, confId, rcode;
      channels := [Channel(1, channelId, false, 0, [], false)] +
                  if hasVideo then [Channel(2, vchannelId, false, 0, [], false)] else [];
      state, regSendCount, regSendTime := NONE, 0, 0;
      selRelayKicked, selRelayDone, selRelaySendTime := false, false, 0;
      finalResult, iceSess, timerArmed := 0, false, true;
      calls, sent := [], [];
    }

    method SetState(newState: Op, result: int)
      modifies `state, `calls
      ensures State() == C.SetState(old(State()), newState, result)
    {
      var oldState := state;
      state := newState;
      if Rank(oldState) < Rank(newState) {
        calls := calls + [Callback(newState, result)];
      }
    }

    method SetFinal(result: int)
      modifies `state, `calls, `finalResult
      ensures State() == C.SetFinal(old(State()), result)
    {
      if Rank(state) < Rank(FINAL) {
        finalResult := result;
      }
      SetState(FINAL, result);
    }

    /** The source asserts that the first request leaves an earlier state. */
    method SendReg(now: int)
      requires regSendCount == 0 ==> Rank(state) < Rank(REGING)
      modifies `channels, `sent, `regSendCount, `regSendTime, `state
      ensures State() == C.SendReg(old(State()), now)
    {
      hide RegisterPacket, RegisterAll, Buffered;
      ghost var before := State();
      ghost var all := RegisterAll(before);
      for i := 0 to |channels|
        modifies `channels, `sent
        invariant |channels| == |all|
        invariant forall k :: 0 <= k < i ==> channels[k] == all[k]
        invariant forall k :: i <= k < |channels| ==> channels[k] == before.channels[k]
        invariant sent == before.sent + Buffered(all)[..i]
      {
        var packet := RegisterPacket(sessionId, confId, channels[i].channelId, rcode);
        RegisterAllAt(before, i);
        BufferedStep(all, i);
        channels := channels[i := channels[i].(pktCommon := packet)];
        sent := sent + [packet];
      }
      assert channels == all;
      assert sent == before.sent + Buffered(all) by { assert Buffered(all)[..|all|] == Buffered(all); }
      if regSendCount == 0 {
        assert Rank(state) < Rank(REGING);
        regSendTime := now;
        state := REGING;
      }
      regSendCount := regSendCount + 1;
    }

    method CheckForSelectRelay(now: int, tsx: nat -> bv32) returns (kicked: bool)
      modifies `channels, `sent, `selRelaySendTime, `state
      ensures State() == C.CheckForSelectRelay(old(State()), now, tsx)
      ensures kicked <==> old(state) != SELECTING && state == SELECTING
    {
      if state != NEGO_DONE { return false; }
      if !selRelayKicked { return false; }
      if role != Controlling { return false; }
      ghost var before := State();
      ghost var all := SelectAll(before.channels, sessionId, tsx);
      for ui := 0 to |channels|
        invariant |channels| == |all|
        invariant forall k :: 0 <= k < ui ==> channels[k] == all[k]
        invariant forall k :: ui <= k < |channels| ==> channels[k] == before.channels[k]
        invariant sent == before.sent + Buffered(all)[..ui]
      {
        var packet := BuildMessage(sessionId, channels[ui].compId, MSG_TYPE_SELECT_RELAY, tsx(ui), [], 0);
        channels := channels[ui := channels[ui].(tsxId := tsx(ui), pktCommon := packet)];
        assert channels[ui] == all[ui];
        sent := sent + [packet];
        assert Buffered(all)[..ui + 1] == Buffered(all)[..ui] + [packet];
      }
      assert channels == all && Buffered(all)[..|all|] == Buffered(all);
      selRelaySendTime := now;
      state := SELECTING;
      kicked := true;
    }

    method CheckForSelectRelayDone() returns (final: bool)
      modifies `selRelayDone, `state, `calls, `finalResult
      ensures State() == C.CheckForSelectRelayDone(old(State()))
      ensures final <==> !old(selRelayDone) && AllRelayDone(channels)
    {
      if !selRelayDone {
        var done := true;
        var i := 0;
        while i < |channels|
          invariant i <= |channels| && done
          invariant forall k :: 0 <= k < i ==> channels[k].isRelayDone
        {
          if !channels[i].isRelayDone {
            done := false;
            break;
          }
          i := i + 1;
        }
        assert done <==> AllRelayDone(channels);
        selRelayDone := done;
        if selRelayDone {
          SetFinal(0);
          return true;
        }
      }
      return false;
    }

    method StartNego(status: int, created: bool)
      modifies `iceSess, `state, `calls, `finalResult
      ensures State() == C.StartNego(old(State()), status, created)
    {
      iceSess := created;
      if status == PJ_SUCCESS {
        SetState(NEGOING, 0);
      } else {
        SetFinal(status);
      }
    }

    method OnIceComplete(status: int, now: int, tsx: nat -> bv32)
      modifies this
      ensures State() == C.OnIceComplete(old(State()), status, now, tsx)
    {
      if state == NEGOING {
        SetState(NEGO_DONE, status);
        if status != PJ_SUCCESS {
          SetFinal(status);
        } else {
          var b := CheckForSelectRelay(now, tsx);
        }
      }
    }

    method OnIceTxPkt(i: nat, payload: Bytes)
      requires i < |channels|
      modifies `sent
      ensures State() == C.OnIceTxPkt(old(State()), i, payload)
    {
      var packet := BuildMessage(sessionId, channels[i].compId, MSG_TYPE_ICE_WRAP, 0, payload, (|payload| % 0x1_0000_0000) as bv32);
      sent := sent + [packet];
    }

    method OnRegAck(i: nat, p: Bytes, iceStatus: int, iceCreated: bool)
      requires i < |channels|
      modifies this
      ensures State() == C.OnRegAck(old(State()), i, p, iceStatus, iceCreated)
    {
      if !CheckRegAck(CurrentState(), p) { return; }
      if state == REGING {
        channels := channels[i := channels[i].(isReg := true)];
        var allChReg := true;
        var k := 0;
        while k < |channels|
          invariant k <= |channels| && allChReg
          invariant forall j :: 0 <= j < k ==> channels[j].isReg
        {
          if !channels[k].isReg {
            allChReg := false;
            break;
          }
          k := k + 1;
        }
        assert allChReg <==> AllReg(channels);
        if allChReg {
          SetState(REG_DONE, 0);
          StartNego(iceStatus, iceCreated);
        }
      }
    }

    function CurrentState(): Conf
      reads this
      ensures CurrentState() == State()
    {
      Conf(role, sessionId, confId, rcode, channels, state, regSendCount, regSendTime, selRelayKicked, selRelayDone,
           selRelaySendTime, finalResult, iceSess, timerArmed, calls, sent)
    }

    method OnDataRecvfrom(i: nat, p: Bytes, iceStatus: int, iceCreated: bool)
      requires i < |channels| && p != [] && (p[0] == PKT_TYPE_MSG ==> |p| > HEADER_LENGTH)
      modifies this
      ensures State() == C.OnDataRecvfrom(old(State()), i, p, iceStatus, iceCreated)
    {
      if p[0] == PKT_TYPE_REGISTER {
        OnRegAck(i, p, iceStatus, iceCreated);
      } else if p[0] == PKT_TYPE_MSG {
        var msgType, compId := MsgType(p), CompId(p);
        if SessionId(p) != sessionId { return; }
        if compId != channels[i].compId { return; }
        if msgType == MSG_TYPE_SELECT_RELAY {
          if role != Controlled { return; }
          if Rank(state) < Rank(NEGO_DONE) { return; }
          if !Verifies(p) { return; }
          if compId == 0 || compId as nat > |channels| { return; }
          channels := channels[i := channels[i].(isRelayDone := true)];
          var ack := Ack(p);
          channels := channels[i := channels[i].(pktCommon := ack)];
          assert channels == old(channels)[i := old(channels)[i].(isRelayDone := true, pktCommon := ack)];
          sent := sent + [ack];
          var final := CheckForSelectRelayDone();
        } else if msgType == MSG_TYPE_SELECT_RELAY_ACK {
          if role != Controlling { return; }
          if state != SELECTING { return; }
          if !Verifies(p) { return; }
          if compId == 0 || compId as nat > |channels| { return; }
          if TsxId(p) != channels[i].tsxId { return; }
          channels := channels[i := channels[i].(isRelayDone := true)];
          var final := CheckForSelectRelayDone();
        }
      }
    }

    /** Sends what the channels' buffers hold once more. */
    method Retransmit()
      modifies `sent
      ensures sent == old(sent) + Buffered(channels)
    {
      for ui := 0 to |channels|
        invariant sent == old(sent) + Buffered(channels)[..ui]
      {
        sent := sent + [channels[ui].pktCommon];
        assert Buffered(channels)[..ui + 1] == Buffered(channels)[..ui] + [channels[ui].pktCommon];
      }
      assert Buffered(channels)[..|channels|] == Buffered(channels);
    }

    method TimerCb(now: int)
      requires timerArmed && (state == REGING ==> regSendCount > 0)
      modifies this
      ensures State() == C.TimerCb(old(State()), now)
    {
      timerArmed := false;
      if state == REGING {
        if now - regSendTime < TIMEOUT_MS {
          SendReg(now);
        } else {
          SetFinal(-1);
        }
      }
      if state == SELECTING {
        if now - selRelaySendTime < TIMEOUT_MS {
          Retransmit();
        } else {
          SetFinal(-1);
        }
      }
      if state != FINAL {
        timerArmed := true;
      }
    }

    method KickoffReg(now: int) returns (ret: int)
      requires Inv(State())
      modifies this
      ensures State() == C.KickoffReg(old(State()), now)
      ensures ret == 0 <==> old(state) == NONE
    {
      if Rank(state) >= Rank(REGING) { return -1; }
      SendReg(now);
      ret := 0;
    }

    method KickoffSelectRelay(now: int, tsx: nat -> bv32) returns (ret: int)
      modifies this
      ensures State() == C.KickoffSelectRelay(old(State()), now, tsx)
      ensures ret == 0 <==> Rank(old(state)) < Rank(SELECTING)
    {
      if Rank(state) >= Rank(SELECTING) { return -1; }
      selRelayKicked := true;
      var b := CheckForSelectRelay(now, tsx);
      ret := 0;
    }

    method Cancel() returns (ret: int)
      modifies this
      ensures State() == C.Cancel(old(State()))
      ensures ret == 0 <==> old(state) != FINAL
    {
      if Rank(state) >= Rank(FINAL) { return -1; }
      SetFinal(-1);
      ret := 0;
    }

    method GetResult() returns (ret: int)
      ensures ret == 0 <==> HasResult(State())
    {
      if state != FINAL { return -1; }
      if finalResult != 0 { return -1; }
      ret := 0;
    }
  }
}

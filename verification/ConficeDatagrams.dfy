/** Which datagrams a party acts on, which it ignores, and that registration ends once each channel was acknowledged. */
module ConficeDatagrams {
  import opened Packet
  import opened C = Confice
  import opened V = ConficeResult

  /** What a register acknowledgement has to be: complete, uncorrupted, for this session, and without a status. */
  predicate GoodRegAck(c: Conf, p: Bytes) {
    |p| >= 8 && p[0] == 0xFE && Verifies(p) && GetU32(p, 1) == c.sessionId && p[5] == 0
  }

  /** Only a good one counts, and only while registering; then it registers the channel it came on and no other, and when
    * that was the last the ICE check starts or the negotiation ends with the library's status. */
  lemma RegAckMeans(c: Conf, i: nat, p: Bytes, status: int, created: bool)
    requires i < |c.channels| && p != [] && p[0] == 0xFE && Enabled(c, Receive(i, p, status, created))
    ensures var d := OnDataRecvfrom(c, i, p, status, created);
            if !GoodRegAck(c, p) || c.state != REGING then d == c
            else
              |d.channels| == |c.channels| && d.channels[i] == c.channels[i].(isReg := true) && d.sent == c.sent &&
              d.sessionId == c.sessionId &&
              (forall k :: 0 <= k < |c.channels| && k != i ==> d.channels[k] == c.channels[k]) &&
              if AllReg(d.channels) then
                d.iceSess == created && if status == 0 then d.state == NEGOING else d.state == FINAL && d.finalResult == status
              else d.state == REGING
  {
    hide Verifies, GetU32, AllReg, SetState, SetFinal;
    if c.state == REGING { StartMeans(c.(channels := c.channels[i := c.channels[i].(isReg := true)]), status, created); }
  }

  lemma StartMeans(c: Conf, status: int, created: bool)
    requires c.state == REGING
    ensures var d := StartNego(SetState(c, REG_DONE, 0), status, created);
            d.channels == c.channels && d.sent == c.sent && d.sessionId == c.sessionId && d.iceSess == created &&
            if status == 0 then d.state == NEGOING else d.state == FINAL && d.finalResult == status
  {
  }

  /** What makes a message none of the party's business. */
  predicate Foreign(c: Conf, i: nat, p: Bytes)
    requires i < |c.channels| && |p| > HEADER_LENGTH
  {
    !Verifies(p) || GetU32(p, 2) != c.sessionId || GetU32(p, 6) != c.channels[i].compId ||
    (p[1] != 1 && p[1] != 2) ||
    (p[1] == 1 && (c.role == Controlling || c.state in {NONE, REGING, REG_DONE, NEGOING})) ||
    (p[1] == 2 && (c.role == Controlled || c.state != SELECTING || GetU32(p, 10) != c.channels[i].tsxId))
  }

  /** Messages that are corrupted, for another session or component, of another type, or come at the wrong time or on the
    * wrong side are ignored, as is everything that is neither a message nor a register acknowledgement. */
  lemma ForeignIsIgnored(c: Conf, i: nat, p: Bytes, status: int, created: bool)
    requires Enabled(c, Receive(i, p, status, created))
    ensures p[0] == 0xF7 && Foreign(c, i, p) ==> OnDataRecvfrom(c, i, p, status, created) == c
    ensures p[0] != 0xF7 && p[0] != 0xFE ==> OnDataRecvfrom(c, i, p, status, created) == c
  {
    hide Verifies, GetU32, Ack, CheckForSelectRelayDone;
  }

  /** A request that is not foreign marks its channel, is acknowledged, and changes no other channel. */
  lemma RequestMeans(c: Conf, i: nat, p: Bytes, status: int, created: bool)
    requires Enabled(c, Receive(i, p, status, created)) && p[0] == 0xF7 && p[1] == 1 && !Foreign(c, i, p)
    requires 0 < c.channels[i].compId as nat <= |c.channels|
    ensures var d := OnDataRecvfrom(c, i, p, status, created);
            |d.channels| == |c.channels| && d.channels[i] == c.channels[i].(isRelayDone := true, pktCommon := Ack(p)) &&
            (forall k :: 0 <= k < |c.channels| && k != i ==> d.channels[k] == c.channels[k]) && d.sent == c.sent + [Ack(p)] &&
            (!c.selRelayDone && AllRelayDone(d.channels) ==> d.state == FINAL && (c.state != FINAL ==> d.finalResult == 0)) &&
            (c.selRelayDone || !AllRelayDone(d.channels) ==> d.state == c.state && d.calls == c.calls)
  {
    hide Verifies, GetU32, Ack, AllRelayDone;
  }

  /** The same of an acknowledgement, which is not answered. */
  lemma AckMeans(c: Conf, i: nat, p: Bytes, status: int, created: bool)
    requires Enabled(c, Receive(i, p, status, created)) && p[0] == 0xF7 && p[1] == 2 && !Foreign(c, i, p)
    requires 0 < c.channels[i].compId as nat <= |c.channels|
    ensures var d := OnDataRecvfrom(c, i, p, status, created);
            |d.channels| == |c.channels| && d.channels[i] == c.channels[i].(isRelayDone := true) &&
            (forall k :: 0 <= k < |c.channels| && k != i ==> d.channels[k] == c.channels[k]) && d.sent == c.sent &&
            (!c.selRelayDone && AllRelayDone(d.channels) ==> d.state == FINAL && d.finalResult == 0) &&
            (c.selRelayDone || !AllRelayDone(d.channels) ==> d.state == c.state && d.calls == c.calls)
  {
    hide Verifies, GetU32, AllRelayDone;
  }

  /** A packet of the ICE library is sent in one message of type 0 for the channel's component, and nothing else changes. */
  lemma IcePacketIsWrapped(c: Conf, i: nat, payload: Bytes)
    requires i < |c.channels|
    ensures var d := Step(c, IceSends(i, payload));
            |d.sent| == |c.sent| + 1 && d == c.(sent := d.sent) && d.sent[..|c.sent|] == c.sent &&
            var p := d.sent[|c.sent|];
            |p| == 19 + |payload| && p[0] == 0xF7 && p[1] == 0 && p[2..6] == U32Bytes(c.sessionId) &&
            p[6..10] == U32Bytes(c.channels[i].compId) && p[18..18 + |payload|] == payload && Verifies(p)
  {
    hide Message, U32Bytes, Checksum, Verifies, GetU32;
    var n := (|payload| % 0x1_0000_0000) as bv32;
    MessageLayout(MSG_TYPE_ICE_WRAP, c.sessionId, c.channels[i].compId, 0, payload, n);
    MessageRoundTrip(MSG_TYPE_ICE_WRAP, c.sessionId, c.channels[i].compId, 0, payload, n);
  }

  // ------------------------------------------------------------------ registration

  /** The acknowledgements of the channels from `k` on. */
  function Acks(c: Conf, k: nat, status: int, created: bool): seq<Event>
    decreases |c.channels| - k
  {
    if k >= |c.channels| then [] else [Receive(k, RegAck(c.sessionId), status, created)] + Acks(c, k + 1, status, created)
  }

  lemma {:induction false} AcksOnly(c: Conf, d: Conf, k: nat, status: int, created: bool)
    requires |d.channels| == |c.channels| && d.sessionId == c.sessionId
    ensures Acks(d, k, status, created) == Acks(c, k, status, created)
    decreases |c.channels| - k
  {
    if k < |c.channels| { AcksOnly(c, d, k + 1, status, created); }
  }

  lemma AckRegisters(c: Conf, k: nat, status: int, created: bool)
    requires c.state == REGING && k < |c.channels|
    ensures var e := Receive(k, RegAck(c.sessionId), status, created);
            Enabled(c, e) && var d := Step(c, e);
            d.sessionId == c.sessionId && |d.channels| == |c.channels| && d.channels[k].isReg &&
            (forall j :: 0 <= j < |c.channels| ==> c.channels[j].isReg ==> d.channels[j].isReg) &&
            if AllReg(d.channels) then d.state == (if status == 0 then NEGOING else FINAL) else d.state == REGING
  {
    hide RegAck, Verifies, GetU32, OnDataRecvfrom, AllReg;
    RegAckPasses(c);
    RegAckMeans(c, k, RegAck(c.sessionId), status, created);
  }

  /** While registering, one acknowledgement for each channel that still lacks one ends the phase. */
  lemma {:induction false} RegistrationCompletes(c: Conf, k: nat, status: int, created: bool) returns (n: nat)
    requires c.state == REGING && k <= |c.channels| && (forall j :: 0 <= j < k ==> c.channels[j].isReg) && !AllReg(c.channels)
    ensures var es := Acks(c, k, status, created);
            n <= |es| && CanRun(c, es[..n]) && var d := Run(c, es[..n]);
            AllReg(d.channels) && d.state == if status == 0 then NEGOING else FINAL
    decreases |c.channels| - k
  {
    hide AllReg, Enabled, Step;
    assert k < |c.channels| by { Lacking(c, k); }
    var es := Acks(c, k, status, created);
    AckRegisters(c, k, status, created);
    var d := Step(c, es[0]);
    if AllReg(d.channels) {
      n := 1;
      assert es[..1] == [es[0]];
      OneStep(c, es[0]);
    } else {
      var m := RegistrationCompletes(d, k + 1, status, created);
      AcksOnly(c, d, k + 1, status, created);
      n := m + 1;
      var rest := Acks(d, k + 1, status, created);
      assert es[..n] == [es[0]] + rest[..m];
      FirstStep(c, es[0], rest[..m]);
    }
  }

  lemma Lacking(c: Conf, k: nat)
    requires k <= |c.channels| && (forall j :: 0 <= j < k ==> c.channels[j].isReg) && !AllReg(c.channels)
    ensures k < |c.channels|
  {
  }

  lemma {:induction false} FirstStep(c: Conf, e: Event, es: seq<Event>)
    requires Enabled(c, e) && CanRun(Step(c, e), es)
    ensures CanRun(c, [e] + es) && Run(c, [e] + es) == Run(Step(c, e), es)
  {
    hide Enabled, Step;
    assert ([e] + es)[1..] == es;
  }

  lemma {:induction false} OneStep(c: Conf, e: Event)
    requires Enabled(c, e)
    ensures CanRun(c, [e]) && Run(c, [e]) == Step(c, e)
  {
    hide Enabled, Step;
    assert CanRun(Step(c, e), []) && Run(Step(c, e), []) == Step(c, e);
    FirstStep(c, e, []);
    assert [e] + [] == [e];
  }
}

/** The callbacks of a party tell its story: which ones were made follows from the state it is in. */
module ConficeTrace {
  import opened Packet
  import opened C = Confice

  const REGISTERED: seq<Callback> := [Callback(REG_DONE, 0)]
  const CHECKING: seq<Callback> := [Callback(REG_DONE, 0), Callback(NEGOING, 0)]
  const CHECKED: seq<Callback> := [Callback(REG_DONE, 0), Callback(NEGOING, 0), Callback(NEGO_DONE, 0)]

  /** Nothing is reported while registering; then the end of registration and the start of the check, together; then the
    * check's success. Selection is not reported. The end is reported last, with its result, from whatever had been
    * reached, and a failed check is reported with its status just before it. */
  predicate Story(c: Conf) {
    match c.state
    case NONE => c.calls == []
    case REGING => c.calls == []
    case NEGOING => c.calls == CHECKING
    case NEGO_DONE => c.calls == CHECKED
    case SELECTING => c.calls == CHECKED
    case FINAL =>
      var end := [Callback(FINAL, c.finalResult)];
      c.calls == end || c.calls == REGISTERED + end || c.calls == CHECKING + end || c.calls == CHECKED + end ||
      (c.finalResult != 0 && c.calls == CHECKING + [Callback(NEGO_DONE, c.finalResult)] + end)
    case _ => false
  }

  lemma Ends(c: Conf, result: int)
    requires Story(c) && c.state != FINAL
    ensures Story(SetFinal(c, result)) && SetFinal(c, result).calls == c.calls + [Callback(FINAL, result)]
  {
    assert [] + [Callback(FINAL, result)] == [Callback(FINAL, result)];
  }

  lemma StepKeepsStory(c: Conf, e: Event)
    requires Inv(c) && Enabled(c, e) && Story(c)
    ensures Story(Step(c, e))
  {
    hide Inv, Story, OnDataRecvfrom, TimerCb, KickoffSelectRelay, OnIceComplete, SetFinal, KickoffReg;
    match e
    case KickReg(now) => KickRegTells(c, now);
    case KickSelectRelay(now, tsx) => KickTells(c, now, tsx);
    case CancelIt => if c.state != FINAL { Ends(c, -1); }
    case IceComplete(status, now, tsx) => IceTells(c, status, now, tsx);
    case IceSends(i, payload) => SameStory(c, OnIceTxPkt(c, i, payload));
    case Receive(i, p, status, created) => ReceiveTells(c, i, p, status, created);
    case Timer(now) => TimerTells(c, now);
  }

  lemma SameStory(c: Conf, d: Conf)
    requires Story(c) && d.state == c.state && d.calls == c.calls && d.finalResult == c.finalResult
    ensures Story(d)
  {
  }

  lemma KickRegTells(c: Conf, now: int)
    requires Inv(c) && Story(c)
    ensures Story(KickoffReg(c, now))
  {
    hide RegisterAll, TraceOk, Numbered, AllReg, AllRelayDone, NoRelayDone;
  }

  lemma KickTells(c: Conf, now: int, tsx: nat -> bv32)
    requires Story(c)
    ensures Story(KickoffSelectRelay(c, now, tsx))
  {
    hide SelectAll;
  }

  lemma IceTells(c: Conf, status: int, now: int, tsx: nat -> bv32)
    requires Story(c)
    ensures Story(OnIceComplete(c, status, now, tsx))
  {
    hide SelectAll;
    assert CHECKING + [Callback(NEGO_DONE, 0)] == CHECKED;
  }

  lemma TimerTells(c: Conf, now: int)
    requires Inv(c) && Story(c)
    ensures Story(TimerCb(c, now))
  {
    hide SetFinal, Story, RegisterAll, TraceOk, Numbered, AllReg, AllRelayDone, NoRelayDone;
    if c.state == REGING || c.state == SELECTING { Ends(c, -1); }
    if (c.state == REGING && now - c.regSendTime >= TIMEOUT_MS) || (c.state == SELECTING && now - c.selRelaySendTime >= TIMEOUT_MS) {
      FinalState(c, -1);
      SameStory(SetFinal(c, -1), TimerCb(c, now));
    } else {
      SameStory(c, TimerCb(c, now));
    }
  }

  lemma FinalState(c: Conf, result: int)
    ensures SetFinal(c, result).state == FINAL
  {
  }

  lemma ReceiveTells(c: Conf, i: nat, p: Bytes, status: int, created: bool)
    requires Inv(c) && Story(c) && Enabled(c, Receive(i, p, status, created))
    ensures Story(OnDataRecvfrom(c, i, p, status, created))
  {
    hide Story, OnRegAck, OnSelectRelay, OnSelectRelayAck, GetU32, Inv;
    RegAckTells(c, i, p, status, created);
    if p[0] == PKT_TYPE_MSG { MessagesTell(c, i, p); }
  }

  lemma RegAckTells(c: Conf, i: nat, p: Bytes, status: int, created: bool)
    requires Story(c) && i < |c.channels|
    ensures Story(OnRegAck(c, i, p, status, created))
  {
    hide CheckRegAck, AllReg, StartNego, SetState, Story;
    var d := Registered(c, i);
    SameStory(c, d);
    if c.state == REGING { StartTells(d, status, created); }
  }

  lemma StartTells(c: Conf, status: int, created: bool)
    requires Story(c) && c.state == REGING
    ensures Story(StartNego(SetState(c, REG_DONE, 0), status, created))
  {
    assert [] + [Callback(REG_DONE, 0)] == REGISTERED && REGISTERED + [Callback(NEGOING, 0)] == CHECKING;
  }

  lemma MessagesTell(c: Conf, i: nat, p: Bytes)
    requires Inv(c) && Story(c) && i < |c.channels| && |p| > HEADER_LENGTH
    ensures Story(OnSelectRelay(c, i, p)) && Story(OnSelectRelayAck(c, i, p))
  {
    hide Verifies, GetU32, Ack, CheckForSelectRelayDone, Story, Inv;
    var marked := c.(channels := c.channels[i := c.channels[i].(isRelayDone := true)]);
    var answered := c.(channels := c.channels[i := c.channels[i].(isRelayDone := true, pktCommon := Ack(p))], sent := c.sent + [Ack(p)]);
    SameStory(c, marked);
    SameStory(c, answered);
    DoneTells(marked);
    DoneTells(answered);
  }

  lemma DoneTells(c: Conf)
    requires Story(c)
    ensures Story(CheckForSelectRelayDone(c))
  {
    hide AllRelayDone, SetFinal;
    SameStory(c, c.(selRelayDone := true));
    if c.state == FINAL { AlreadyFinal(c.(selRelayDone := true)); } else { Ends(c.(selRelayDone := true), 0); }
  }

  lemma AlreadyFinal(c: Conf)
    requires c.state == FINAL
    ensures SetFinal(c, 0) == c
  {
  }

  /** Over every run the callbacks made are exactly those of the state reached. */
  lemma {:induction false} RunTellsStory(c: Conf, es: seq<Event>)
    requires Fresh(c) && CanRun(c, es)
    ensures Story(Run(c, es))
  {
    FreshIsInv(c);
    StoryGoesOn(c, es);
  }

  lemma {:induction false} StoryGoesOn(c: Conf, es: seq<Event>)
    requires Inv(c) && Story(c) && CanRun(c, es)
    ensures Story(Run(c, es))
    decreases |es|
  {
    hide Inv, Story, Step, Enabled;
    if es != [] {
      StepKeepsInv(c, es[0]);
      StepKeepsStory(c, es[0]);
      StoryGoesOn(Step(c, es[0]), es[1..]);
    }
  }
}

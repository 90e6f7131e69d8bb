/** How often a party retransmits: runs with clock readings, the timer at least 200 ms apart. */
module ConficeTimer {
  import opened Packet
  import opened C = Confice

  /** A party, the last clock reading, the time of the last timer firing if there was one, and
    * how many firings found the party registering, and selecting, so far. */
  datatype Timed = Timed(conf: Conf, now: int, lastFiring: int, regFirings: nat, selFirings: nat)

  function EventTime(e: Event, now: int): int {
    match e
    case KickReg(t) => t
    case KickSelectRelay(t, _) => t
    case IceComplete(_, t, _) => t
    case Timer(t) => t
    case _ => now
  }

  /** The clock does not run backwards and firings are at least `TIMER_MS` apart. */
  predicate TimedEnabled(s: Timed, e: Event) {
    Enabled(s.conf, e) && s.now <= EventTime(e, s.now) && (e.Timer? ==> s.lastFiring + TIMER_MS <= e.now)
  }

  function TimedStep(s: Timed, e: Event): Timed
    requires TimedEnabled(s, e)
  {
    Timed(Step(s.conf, e), EventTime(e, s.now), if e.Timer? then e.now else s.lastFiring,
          s.regFirings + if e.Timer? && s.conf.state == REGING then 1 else 0,
          s.selFirings + if e.Timer? && s.conf.state == SELECTING then 1 else 0)
  }

  predicate TimedCanRun(s: Timed, es: seq<Event>)
    decreases |es|
  {
    es == [] || (TimedEnabled(s, es[0]) && TimedCanRun(TimedStep(s, es[0]), es[1..]))
  }

  function TimedRun(s: Timed, es: seq<Event>): Timed
    requires TimedCanRun(s, es)
    decreases |es|
  {
    if es == [] then s else TimedRun(TimedStep(s, es[0]), es[1..])
  }

  /** While a phase lasts, the firings seen in it fit between its start and the last firing,
    * which came before the phase's time was up. */
  predicate PhaseOk(firings: nat, started: int, lastFiring: int) {
    firings > 0 ==> started + TIMER_MS * (firings - 1) <= lastFiring < started + TIMEOUT_MS
  }

  predicate TimedInv(s: Timed) {
    var c := s.conf;
    Inv(c) && s.regFirings <= 21 && s.selFirings <= 21 && c.regSendCount <= 21 &&
    (c.state == NONE ==> s.regFirings == 0) &&
    (Rank(c.state) < Rank(SELECTING) ==> s.selFirings == 0) &&
    (c.state == REGING ==>
       c.regSendTime <= s.now && PhaseOk(s.regFirings, c.regSendTime, s.lastFiring) && c.regSendCount == 1 + s.regFirings) &&
    (c.state == SELECTING ==> c.selRelaySendTime <= s.now && PhaseOk(s.selFirings, c.selRelaySendTime, s.lastFiring)) &&
    (c.state == REGING ==> s.regFirings <= 20) && (c.state == SELECTING ==> s.selFirings <= 20)
  }

  lemma PhaseBound(firings: nat, started: int, lastFiring: int)
    requires PhaseOk(firings, started, lastFiring)
    ensures firings <= 20
  {
  }

  lemma TimedStepKeepsInv(s: Timed, e: Event)
    requires TimedInv(s) && TimedEnabled(s, e)
    ensures TimedInv(TimedStep(s, e))
  {
    hide OnDataRecvfrom, RegisterAll, SelectAll, Message, TraceOk, Numbered, AllReg, AllRelayDone, NoRelayDone, Forward;
    StepKeepsInv(s.conf, e);
    var t := TimedStep(s, e);
    match e
    case Receive(i, p, status, created) => ReceiveLeavesTimers(s.conf, i, p, status, created);
    case Timer(now) =>
      if t.conf.state == REGING { PhaseBound(t.regFirings, t.conf.regSendTime, now); }
      if t.conf.state == SELECTING { PhaseBound(t.selFirings, t.conf.selRelaySendTime, now); }
    case _ =>
  }

  /** The bookkeeping of both phases is untouched and no phase has begun. */
  predicate SamePhases(c: Conf, d: Conf) {
    d.regSendCount == c.regSendCount && d.regSendTime == c.regSendTime && d.selRelaySendTime == c.selRelaySendTime &&
    (d.state == c.state || (Rank(d.state) > Rank(c.state) && d.state !in {REGING, SELECTING, NONE}))
  }

  /** Arriving datagrams neither start a phase nor touch its bookkeeping. */
  lemma ReceiveLeavesTimers(c: Conf, i: nat, p: Bytes, status: int, created: bool)
    requires Enabled(c, Receive(i, p, status, created))
    ensures SamePhases(c, OnDataRecvfrom(c, i, p, status, created))
  {
    hide OnRegAck, OnSelectRelay, OnSelectRelayAck, GetU32;
    RegAckLeavesTimers(c, i, p, status, created);
    if p[0] == PKT_TYPE_MSG { RelayLeavesTimers(c, i, p); }
  }

  lemma RegAckLeavesTimers(c: Conf, i: nat, p: Bytes, status: int, created: bool)
    requires i < |c.channels|
    ensures SamePhases(c, OnRegAck(c, i, p, status, created))
  {
    hide CheckRegAck, AllReg, StartNego;
    if CheckRegAck(c, p) && c.state == REGING { StartNegoLeavesTimers(SetState(Registered(c, i), REG_DONE, 0), status, created); }
  }

  lemma StartNegoLeavesTimers(c: Conf, status: int, created: bool)
    requires c.state == REG_DONE
    ensures SamePhases(c, StartNego(c, status, created)) && Rank(StartNego(c, status, created).state) > Rank(REG_DONE)
  {
  }

  lemma RelayLeavesTimers(c: Conf, i: nat, p: Bytes)
    requires i < |c.channels| && |p| > HEADER_LENGTH
    ensures SamePhases(c, OnSelectRelay(c, i, p)) && SamePhases(c, OnSelectRelayAck(c, i, p))
  {
    hide Verifies, GetU32, Ack, AllRelayDone;
  }

  lemma {:induction false} TimedRunKeepsInv(s: Timed, es: seq<Event>)
    requires TimedInv(s) && TimedCanRun(s, es)
    ensures TimedInv(TimedRun(s, es))
    decreases |es|
  {
    if es != [] {
      TimedStepKeepsInv(s, es[0]);
      TimedRunKeepsInv(TimedStep(s, es[0]), es[1..]);
    }
  }

  /** In every run each of the two phases makes at most twenty retransmissions, so at most 21
    * register requests go out per channel, and the phase does not outlive its 21st firing. */
  lemma {:induction false} RetransmissionBound(c: Conf, start: int, es: seq<Event>)
    requires Fresh(c) && TimedCanRun(Timed(c, start, start, 0, 0), es)
    ensures var s := TimedRun(Timed(c, start, start, 0, 0), es);
            s.conf.regSendCount <= 21 && s.regFirings <= 21 && s.selFirings <= 21 &&
            (s.regFirings == 21 ==> s.conf.state != REGING) && (s.selFirings == 21 ==> s.conf.state != SELECTING)
  {
    FreshIsInv(c);
    TimedRunKeepsInv(Timed(c, start, start, 0, 0), es);
  }
}

/** Two sessions over one relay network: what their answers have to do with each other. */
module EicePair {
  import opened Wrappers
  import C = Confice
  import N = ConficeNet
  import R = ConficeResult
  import E = EiceSession

  /** The controlling and the controlled session, both with their relay negotiation set up. */
  datatype Pair = Pair(caller: E.Session, callee: E.Session)

  datatype PairEvent = AtCaller(e: E.Event) | AtCallee(e: E.Event)

  predicate HasRelays(p: Pair) { p.caller.confice.Some? && p.callee.confice.Some? }

  function NetOf(p: Pair): N.Net
    requires HasRelays(p)
  {
    N.Net(p.caller.confice.value, p.callee.confice.value)
  }

  /** What a step of a session has its relay negotiation do. */
  function RelayEvent(s: E.Session, e: E.Event): Option<C.Event> {
    if s.confice.None? then None
    else
      match e
      case KickReg(now) => Some(C.KickReg(now))
      case KickRelayDirectly(now, tsx) =>
        if s.role == C.Controlling && (!s.hasIce || s.remoteForceRelay || s.forceRelay) then Some(C.KickSelectRelay(now, tsx))
        else None
      case IceAct(now, tsx) =>
        if s.pending.None? then None
        else if s.pending.value == C.PJ_SUCCESS then Some(C.CancelIt)
        else if s.role == C.Controlling then Some(C.KickSelectRelay(now, tsx))
        else None
      case IceTimeout(now, tsx) =>
        if !s.iceNegoDone && s.role == C.Controlling then Some(C.KickSelectRelay(now, tsx)) else None
      case Relay(r) => Some(r)
      case _ => None
  }

  predicate PairEnabled(p: Pair, e: PairEvent) {
    HasRelays(p) && !e.e.CreateRelay? && (e.e.Relay? ==> N.NoForging(NetOf(p), e.e.e)) &&
    E.Enabled(if e.AtCaller? then p.caller else p.callee, e.e)
  }

  function PairStep(p: Pair, e: PairEvent): Pair
    requires PairEnabled(p, e)
  {
    if e.AtCaller? then p.(caller := E.Step(p.caller, e.e)) else p.(callee := E.Step(p.callee, e.e))
  }

  predicate PairCanRun(p: Pair, es: seq<PairEvent>)
    decreases |es|
  {
    es == [] || (PairEnabled(p, es[0]) && PairCanRun(PairStep(p, es[0]), es[1..]))
  }

  function PairRun(p: Pair, es: seq<PairEvent>): Pair
    requires PairCanRun(p, es)
    decreases |es|
  {
    if es == [] then p else PairRun(PairStep(p, es[0]), es[1..])
  }

  /** Each session has just set up its relay negotiation. */
  predicate PairFresh(p: Pair) {
    HasRelays(p) && Ready(p.caller) && Ready(p.callee) && N.NetFresh(NetOf(p))
  }

  predicate Ready(s: E.Session) {
    s.phase == E.StartingIce && !s.iceNegoDone && s.pending.None? && !s.conficeDone &&
    s.confice.Some? && C.Fresh(s.confice.value) && s.confice.value.role == s.role
  }

  lemma ReadyIsInv(s: E.Session)
    requires Ready(s)
    ensures E.Inv(s)
  {
    E.FreshRelay(s.confice.value);
  }

  // ------------------------------------------------------------------ the network under the sessions

  lemma {:induction false} NotifiedKeepsRelay(s: E.Session, calls: seq<C.Callback>)
    ensures E.Notified(s, calls).confice == s.confice
    decreases |calls|
  {
    if calls != [] {
      NotifiedKeepsRelay(if calls[0].op == C.FINAL then s.(conficeDone := true, conficeStatus := calls[0].status) else s, calls[1..]);
    }
  }

  lemma RelayStepIsStep(s: E.Session, e: C.Event)
    requires s.confice.Some? && C.Enabled(s.confice.value, e)
    ensures E.RelayStep(s, e).confice == Some(C.Step(s.confice.value, e))
  {
    hide C.Step, C.Enabled;
    var c, d := s.confice.value, C.Step(s.confice.value, e);
    NotifiedKeepsRelay(s.(confice := Some(d)), if c.calls <= d.calls then d.calls[|c.calls|..] else []);
  }

  /** A step of a session moves its relay negotiation by the event it stands for, or not at all. */
  lemma StepProjects(s: E.Session, e: E.Event)
    requires s.confice.Some? && E.Enabled(s, e) && !e.CreateRelay?
    ensures var r := RelayEvent(s, e);
            if r.Some? then C.Enabled(s.confice.value, r.value) && E.Step(s, e).confice == Some(C.Step(s.confice.value, r.value))
            else E.Step(s, e).confice == s.confice
  {
    hide C.Step, E.RelayStep;
    match e
    case KickReg(now) => RelayStepIsStep(s.(phase := E.KickingRelay), C.KickReg(now));
    case KickRelayDirectly(now, tsx) => RelayStepIsStep(s.(phase := E.Started), C.KickSelectRelay(now, tsx));
    case IceAct(now, tsx) =>
      RelayStepIsStep(s.(pending := None), C.CancelIt);
      RelayStepIsStep(s.(pending := None), C.KickSelectRelay(now, tsx));
    case IceTimeout(now, tsx) =>
      RelayStepIsStep(s.(iceNegoDone := true, iceNegoStatus := -1), C.KickSelectRelay(now, tsx));
    case Relay(r) => RelayStepIsStep(s, r);
    case _ =>
  }

  function NetEventOf(p: Pair, e: PairEvent): Option<N.NetEvent> {
    if e.AtCaller? then
      match RelayEvent(p.caller, e.e)
      case Some(r) => Some(N.AtCaller(r))
      case None => None
    else
      match RelayEvent(p.callee, e.e)
      case Some(r) => Some(N.AtCallee(r))
      case None => None
  }

  lemma PairStepProjects(p: Pair, e: PairEvent)
    requires PairEnabled(p, e)
    ensures HasRelays(PairStep(p, e))
    ensures match NetEventOf(p, e)
            case Some(x) => N.NetEnabled(NetOf(p), x) && NetOf(PairStep(p, e)) == N.NetStep(NetOf(p), x)
            case None => NetOf(PairStep(p, e)) == NetOf(p)
  {
    hide C.Step, C.Enabled, E.Step, E.Enabled;
    StepProjects(if e.AtCaller? then p.caller else p.callee, e.e);
  }

  /** The run of the relay network inside a run of the sessions. */
  function RelayRun(p: Pair, es: seq<PairEvent>): seq<N.NetEvent>
    requires PairCanRun(p, es)
    decreases |es|
  {
    if es == [] then []
    else
      var rest := RelayRun(PairStep(p, es[0]), es[1..]);
      match NetEventOf(p, es[0])
      case Some(x) => [x] + rest
      case None => rest
  }

  lemma {:induction false} RunProjects(p: Pair, es: seq<PairEvent>)
    requires HasRelays(p) && PairCanRun(p, es)
    ensures HasRelays(PairRun(p, es)) && N.NetCanRun(NetOf(p), RelayRun(p, es))
    ensures N.NetRun(NetOf(p), RelayRun(p, es)) == NetOf(PairRun(p, es))
    decreases |es|
  {
    hide N.NetEnabled, N.NetStep, PairStep, NetEventOf, PairEnabled;
    if es != [] {
      PairStepProjects(p, es[0]);
      var q, rest := PairStep(p, es[0]), RelayRun(PairStep(p, es[0]), es[1..]);
      RunProjects(q, es[1..]);
      match NetEventOf(p, es[0])
      case Some(x) => R.RunsFirst(NetOf(p), x, rest);
      case None =>
    }
  }

  predicate PairInv(p: Pair) { E.Inv(p.caller) && E.Inv(p.callee) }

  lemma {:induction false} RunKeepsInv(p: Pair, es: seq<PairEvent>)
    requires PairInv(p) && PairCanRun(p, es)
    ensures PairInv(PairRun(p, es))
    decreases |es|
  {
    hide E.Inv, E.Step, E.Enabled;
    if es != [] {
      if es[0].AtCaller? { E.StepKeepsInv(p.caller, es[0].e); } else { E.StepKeepsInv(p.callee, es[0].e); }
      RunKeepsInv(PairStep(p, es[0]), es[1..]);
    }
  }

  // ------------------------------------------------------------------ the two answers

  /** Direct ICE has succeeded. */
  predicate IceOk(s: E.Session) { E.UsesIce(s) && s.iceNegoDone && s.iceNegoStatus == C.PJ_SUCCESS }

  lemma AnswerIs(s: E.Session)
    requires E.Inv(s) && s.confice.Some? && E.GetNegoResult(s).Some?
    ensures var c := s.confice.value;
            c.state == C.FINAL &&
            E.GetNegoResult(s).value == if IceOk(s) then E.Direct else if C.HasResult(c) then E.ViaRelay else E.NoPath
  {
  }

  /** In every run of two sessions over a network that loses, duplicates and reorders: once both have answered, the
    * answers are equal exactly when direct ICE succeeded on both sides, or on neither and an event harmed both relay
    * negotiations before they ended or none. */
  lemma {:induction false} AnswersAgreeExactly(p: Pair, es: seq<PairEvent>)
    requires PairFresh(p) && PairCanRun(p, es)
    requires E.GetNegoResult(PairRun(p, es).caller).Some? && E.GetNegoResult(PairRun(p, es).callee).Some?
    ensures N.NetCanRun(NetOf(p), RelayRun(p, es))
    ensures var m, relay := PairRun(p, es), RelayRun(p, es);
            E.GetNegoResult(m.caller) == E.GetNegoResult(m.callee) <==>
            if IceOk(m.caller) || IceOk(m.callee) then IceOk(m.caller) && IceOk(m.callee)
            else R.Harmed(NetOf(p), relay, true) == R.Harmed(NetOf(p), relay, false)
  {
    hide E.Inv, E.GetNegoResult, R.Harmed, RelayRun, PairRun, PairCanRun, N.NetRun, N.NetCanRun, N.NetFresh, C.HasResult, Ready;
    ReadyIsInv(p.caller);
    ReadyIsInv(p.callee);
    RunKeepsInv(p, es);
    RunProjects(p, es);
    var m := PairRun(p, es);
    AnswerIs(m.caller);
    AnswerIs(m.callee);
    R.EndsWellExactly(NetOf(p), RelayRun(p, es), true);
    R.EndsWellExactly(NetOf(p), RelayRun(p, es), false);
  }

  /** When the controlling session answers "by relay", the controlled side's relay has ended with every channel set up,
    * and its session answers the same exactly when its own ICE did not succeed and nothing harmed its relay before. */
  lemma {:induction false} RelayAnswerIsShared(p: Pair, es: seq<PairEvent>)
    requires PairFresh(p) && PairCanRun(p, es) && E.GetNegoResult(PairRun(p, es).caller) == Some(E.ViaRelay)
    ensures N.NetCanRun(NetOf(p), RelayRun(p, es))
    ensures var m, relay := PairRun(p, es), RelayRun(p, es);
            m.callee.confice.Some? && m.callee.confice.value.state == C.FINAL &&
            C.AllRelayDone(m.callee.confice.value.channels) &&
            (E.GetNegoResult(m.callee).Some? ==>
               (E.GetNegoResult(m.callee) == Some(E.ViaRelay) <==> !IceOk(m.callee) && !R.Harmed(NetOf(p), relay, false)))
  {
    hide E.Inv, E.GetNegoResult, R.Harmed, RelayRun, PairRun, PairCanRun, N.NetRun, N.NetCanRun, N.NetFresh, C.HasResult,
         C.AllRelayDone, Ready;
    ReadyIsInv(p.caller);
    ReadyIsInv(p.callee);
    RunKeepsInv(p, es);
    RunProjects(p, es);
    var m := PairRun(p, es);
    AnswerIs(m.caller);
    N.Agreement(NetOf(p), RelayRun(p, es));
    R.EndsWellExactly(NetOf(p), RelayRun(p, es), false);
    if E.GetNegoResult(m.callee).Some? { AnswerIs(m.callee); }
  }

  // ------------------------------------------------------------------ answers that differ

  function Relayed(es: seq<N.NetEvent>): (ps: seq<PairEvent>)
    ensures |ps| == |es|
  {
    seq(|es|, k requires 0 <= k < |es| => if es[k].AtCaller? then AtCaller(E.Relay(es[k].e)) else AtCallee(E.Relay(es[k].e)))
  }

  /** Everything but the sessions' relays and what they hear of them. */
  predicate SameSession(s: E.Session, t: E.Session) {
    t == s.(confice := t.confice, conficeDone := t.conficeDone, conficeStatus := t.conficeStatus)
  }

  lemma RelayOnly(s: E.Session, e: C.Event)
    requires E.Inv(s) && s.confice.Some? && C.Enabled(s.confice.value, e)
    ensures var t := E.RelayStep(s, e); SameSession(s, t) && t.confice == Some(C.Step(s.confice.value, e)) && E.Inv(t)
  {
    hide C.Step, C.Enabled, C.Inv, E.RelayStep;
    E.RelayStepHeard(s, e);
    E.StepKeepsInv(s, E.Relay(e));
  }

  /** A run of the relay network alone is a run of the sessions. */
  lemma {:induction false} RelayRunsLift(p: Pair, es: seq<N.NetEvent>)
    requires HasRelays(p) && PairInv(p) && N.NetCanRun(NetOf(p), es)
    ensures PairCanRun(p, Relayed(es))
    ensures var m := PairRun(p, Relayed(es));
            HasRelays(m) && NetOf(m) == N.NetRun(NetOf(p), es) && SameSession(p.caller, m.caller) && SameSession(p.callee, m.callee)
    decreases |es|
  {
    hide E.Inv, C.Step, C.Enabled, E.RelayStep;
    if es != [] {
      var x := Relayed(es)[0];
      RelayOnly(if x.AtCaller? then p.caller else p.callee, es[0].e);
      assert Relayed(es)[1..] == Relayed(es[1..]);
      RelayRunsLift(PairStep(p, x), es[1..]);
    }
  }

  lemma {:induction false} PairRunsFirst(p: Pair, e: PairEvent, es: seq<PairEvent>)
    requires PairEnabled(p, e) && PairCanRun(PairStep(p, e), es)
    ensures PairCanRun(p, [e] + es) && PairRun(p, [e] + es) == PairRun(PairStep(p, e), es)
  {
    hide PairEnabled, PairStep;
    assert ([e] + es)[1..] == es;
  }

  lemma {:induction false} PairEnds(p: Pair)
    ensures PairCanRun(p, []) && PairRun(p, []) == p
  {
  }

  /** The controlled session's ICE succeeds and cancels its relay. */
  function DirectOpening(): seq<PairEvent> {
    [AtCallee(E.StartIce(true))] + ([AtCallee(E.IceLatch(0))] + ([AtCallee(E.IceAct(0, R.Zero))] + []))
  }

  lemma DirectFirst(p: Pair) returns (m: Pair)
    requires PairFresh(p) && E.UsesIce(p.callee)
    ensures PairCanRun(p, DirectOpening()) && m == PairRun(p, DirectOpening())
    ensures HasRelays(m) && m.caller == p.caller && IceOk(m.callee)
    ensures NetOf(m) == N.NetStep(NetOf(p), N.AtCallee(C.CancelIt))
  {
    hide C.Step, E.RelayStep, C.Fresh, PairRun, PairCanRun;
    var start, latch, act := AtCallee(E.StartIce(true)), AtCallee(E.IceLatch(0)), AtCallee(E.IceAct(0, R.Zero));
    var started := PairStep(p, start);
    var latched := PairStep(started, latch);
    m := PairStep(latched, act);
    E.FreshRelay(p.callee.confice.value);
    E.RelayStepHeard(latched.callee.(pending := None), C.CancelIt);
    PairEnds(m);
    PairRunsFirst(latched, act, []);
    PairRunsFirst(started, latch, [act] + []);
    PairRunsFirst(p, start, [latch] + ([act] + []));
  }

  /** The controlling session starts its relay, and its ICE fails and kicks it. */
  function FailedOpening(): seq<PairEvent> {
    [AtCaller(E.StartIce(true))] + ([AtCaller(E.KickReg(0))] + ([AtCaller(E.KickRelayDirectly(0, R.Zero))] +
    ([AtCaller(E.IceLatch(-1))] + ([AtCaller(E.IceAct(0, R.Zero))] + []))))
  }

  predicate WithIce(s: E.Session) { s.hasIce && !s.forceRelay && !s.remoteForceRelay }

  lemma FailedFirst(p: Pair) returns (m: Pair)
    requires HasRelays(p) && Ready(p.caller) && p.caller.role == C.Controlling && WithIce(p.caller)
    ensures PairCanRun(p, FailedOpening()) && m == PairRun(p, FailedOpening())
    ensures HasRelays(m) && m.callee == p.callee && m.caller.iceNegoDone && !IceOk(m.caller)
    ensures NetOf(m) == N.NetStep(N.NetStep(NetOf(p), N.AtCaller(C.KickReg(0))), N.AtCaller(C.KickSelectRelay(0, R.Zero)))
  {
    hide C.Step, C.Inv, E.RelayStep, C.Fresh, PairRun, PairCanRun;
    var start, kick, direct := AtCaller(E.StartIce(true)), AtCaller(E.KickReg(0)), AtCaller(E.KickRelayDirectly(0, R.Zero));
    var latch, act := AtCaller(E.IceLatch(-1)), AtCaller(E.IceAct(0, R.Zero));
    E.FreshRelay(p.caller.confice.value);
    var started := PairStep(p, start);
    E.RelayStepHeard(started.caller.(phase := E.KickingRelay), C.KickReg(0));
    var kicked := PairStep(started, kick);
    var begun := PairStep(kicked, direct);
    var latched := PairStep(begun, latch);
    E.RelayStepHeard(latched.caller.(pending := None), C.KickSelectRelay(0, R.Zero));
    m := PairStep(latched, act);
    PairEnds(m);
    PairRunsFirst(latched, act, []);
    PairRunsFirst(begun, latch, [act] + []);
    PairRunsFirst(kicked, direct, [latch] + ([act] + []));
    PairRunsFirst(started, kick, [direct] + ([latch] + ([act] + [])));
    PairRunsFirst(p, start, [kick] + ([direct] + ([latch] + ([act] + []))));
  }

  lemma {:induction false} PairRunsInTurn(p: Pair, first: seq<PairEvent>, second: seq<PairEvent>)
    requires PairCanRun(p, first) && PairCanRun(PairRun(p, first), second)
    ensures PairCanRun(p, first + second) && PairRun(p, first + second) == PairRun(PairRun(p, first), second)
    decreases |first|
  {
    hide PairEnabled, PairStep;
    if first == [] {
      assert first + second == second;
    } else {
      assert (first + second)[0] == first[0] && (first + second)[1..] == first[1..] + second;
      PairRunsInTurn(PairStep(p, first[0]), first[1..], second);
    }
  }

  /** A run after which one session answers "by relay" and the other "direct": the controlled side's own success came
    * first and cancelled its relay, which went on acknowledging. */
  lemma AnswersCanDiffer() returns (p: Pair, es: seq<PairEvent>)
    ensures PairFresh(p) && PairCanRun(p, es)
    ensures E.GetNegoResult(PairRun(p, es).caller) == Some(E.ViaRelay) && E.GetNegoResult(PairRun(p, es).callee) == Some(E.Direct)
  {
    var n, relay := R.ResultsCanDiffer();
    p := Pair(E.Session(C.Controlling, true, false, false, E.StartingIce, Some(n.caller), false, 0, None, false, 0),
              E.Session(C.Controlled, true, false, false, E.StartingIce, Some(n.callee), false, 0, None, false, 0));
    hide N.NetEnabled, N.NetStep, R.OneChannel, E.Inv, PairRun, PairCanRun, C.HasResult, DirectOpening, FailedOpening;
    ReadyIsInv(p.caller);
    ReadyIsInv(p.callee);
    var m := DirectFirst(p);
    m := FailedFirst(m);
    PairRunsInTurn(p, DirectOpening(), FailedOpening());
    var first, second := DirectOpening() + FailedOpening(), Relayed(relay[3..]);
    AfterThree(n, relay);
    RunKeepsInv(p, first);
    RelayRunsLift(m, relay[3..]);
    PairRunsInTurn(p, first, second);
    es := first + second;
    RunKeepsInv(p, es);
    Answered(PairRun(p, es));
  }

  lemma {:induction false} AfterOne(n: N.Net, es: seq<N.NetEvent>)
    requires es != [] && N.NetCanRun(n, es)
    ensures N.NetEnabled(n, es[0]) && N.NetCanRun(N.NetStep(n, es[0]), es[1..])
    ensures N.NetRun(n, es) == N.NetRun(N.NetStep(n, es[0]), es[1..])
  {
    hide N.NetEnabled, N.NetStep;
  }

  lemma {:induction false} AfterThree(n: N.Net, es: seq<N.NetEvent>)
    requires |es| >= 3 && N.NetCanRun(n, es)
    ensures N.NetEnabled(n, es[0]) && N.NetEnabled(N.NetStep(n, es[0]), es[1])
    ensures var n2 := N.NetStep(N.NetStep(n, es[0]), es[1]);
            N.NetEnabled(n2, es[2]) && N.NetCanRun(N.NetStep(n2, es[2]), es[3..]) &&
            N.NetRun(n, es) == N.NetRun(N.NetStep(n2, es[2]), es[3..])
  {
    hide N.NetEnabled, N.NetStep, N.NetCanRun, N.NetRun;
    AfterOne(n, es);
    var n1 := N.NetStep(n, es[0]);
    AfterOne(n1, es[1..]);
    AfterOne(N.NetStep(n1, es[1]), es[1..][1..]);
    assert es[1..][1..][1..] == es[3..];
  }

  /** The answers once the caller's ICE has failed, its relay has a result and the callee's ICE has succeeded. */
  lemma Answered(p: Pair)
    requires PairInv(p) && HasRelays(p) && C.HasResult(p.caller.confice.value) && p.callee.confice.value.state == C.FINAL
    requires p.caller.iceNegoDone && !IceOk(p.caller) && IceOk(p.callee)
    ensures E.GetNegoResult(p.caller) == Some(E.ViaRelay) && E.GetNegoResult(p.callee) == Some(E.Direct)
  {
  }
}

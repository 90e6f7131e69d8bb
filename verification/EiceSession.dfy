/** The outer session: direct ICE raced against the relay negotiation, and the answer it gives.
  *
  * `cb_on_ice_complete` latches its result under the lock and acts on it after releasing the
  * lock, so other entry points can come in between; the two halves are separate steps here.
  * `eice_start_nego` takes no lock at all and is split into its four effects.
  */
module EiceSession {
  import opened Wrappers
  import C = Confice

  /** How far `eice_start_nego` has come. */
  datatype Phase = CreatingRelay | StartingIce | KickingReg | KickingRelay | Started | Aborted

  datatype Session = Session(
    role: C.Role,
    hasIce: bool,              // icest is there
    forceRelay: bool,
    remoteForceRelay: bool,
    phase: Phase,
    confice: Option<C.Conf>,
    iceNegoDone: bool,
    iceNegoStatus: int,
    pending: Option<int>,      // a latched status the callback has still to act on
    conficeDone: bool,
    conficeStatus: int)

  /** `on_confice_complete` for the callbacks the relay negotiation made in one step. */
  function Notified(s: Session, calls: seq<C.Callback>): Session
    decreases |calls|
  {
    if calls == [] then s
    else
      Notified(if calls[0].op == C.FINAL then s.(conficeDone := true, conficeStatus := calls[0].status) else s, calls[1..])
  }

  /** The relay negotiation takes a step, and the session hears of it at once. */
  function RelayStep(s: Session, e: C.Event): Session
    requires s.confice.Some? && C.Enabled(s.confice.value, e)
  {
    var c := s.confice.value;
    var d := C.Step(c, e);
    Notified(s.(confice := Some(d)), if c.calls <= d.calls then d.calls[|c.calls|..] else [])
  }

  /** Whether direct ICE takes part. */
  predicate UsesIce(s: Session) { s.hasIce && !s.forceRelay }

  datatype Event =
    | CreateRelay(relay: Option<C.Conf>)               // `confice_new`, if a relay is configured
    | StartIce(ok: bool)
    | KickReg(now: int)
    | KickRelayDirectly(now: int, tsx: nat -> bv32)
    | IceLatch(status: int)                            // first half of `cb_on_ice_complete`
    | IceAct(now: int, tsx: nat -> bv32)               // its second half
    | IceTimeout(now: int, tsx: nat -> bv32)           // `timer_ice_cb`
    | Relay(e: C.Event)                                // any entry point of the relay negotiation

  predicate Enabled(s: Session, e: Event) {
    match e
    case CreateRelay(relay) =>
      s.phase == CreatingRelay && (relay.Some? ==> C.Fresh(relay.value) && relay.value.role == s.role)
    case StartIce(_) => s.phase == StartingIce
    case KickReg(_) => s.phase == KickingReg
    case KickRelayDirectly(_, _) => s.phase == KickingRelay
    case IceLatch(_) => s.phase != CreatingRelay && s.pending.None?
    case IceAct(_, _) => s.pending.Some?
    case IceTimeout(_, _) => s.phase != CreatingRelay
    case Relay(r) => s.confice.Some? && C.Enabled(s.confice.value, r)
  }

  function Step(s: Session, e: Event): Session
    requires Enabled(s, e)
  {
    match e
    case CreateRelay(relay) => s.(confice := relay, phase := StartingIce)
    case StartIce(ok) =>
      if !UsesIce(s) then s.(phase := KickingReg) else s.(phase := if ok then KickingReg else Aborted)
    case KickReg(now) =>
      var t := s.(phase := KickingRelay);
      if s.confice.Some? then RelayStep(t, C.KickReg(now)) else t
    case KickRelayDirectly(now, tsx) =>
      var t := s.(phase := Started);
      if s.confice.Some? && s.role == C.Controlling && (!s.hasIce || s.remoteForceRelay || s.forceRelay) then
        RelayStep(t, C.KickSelectRelay(now, tsx))
      else t
    case IceLatch(status) =>
      if s.iceNegoDone then s else s.(iceNegoDone := true, iceNegoStatus := status, pending := Some(status))
    case IceAct(now, tsx) =>
      var t := s.(pending := None);
      if s.confice.None? then t
      else if s.pending.value == C.PJ_SUCCESS then RelayStep(t, C.CancelIt)
      else if s.role == C.Controlling then RelayStep(t, C.KickSelectRelay(now, tsx))
      else t
    case IceTimeout(now, tsx) =>
      if s.iceNegoDone then s
      else
        var t := s.(iceNegoDone := true, iceNegoStatus := -1);
        if s.confice.Some? && s.role == C.Controlling then RelayStep(t, C.KickSelectRelay(now, tsx)) else t
    case Relay(r) => RelayStep(s, r)
  }

  // ------------------------------------------------------------------ the answer

  datatype Answer = Direct | ViaRelay | NoPath

  /** `eice_get_nego_result`: None while it returns -1. */
  function GetNegoResult(s: Session): Option<Answer> {
    var negoDone := if UsesIce(s) then s.iceNegoDone else true;
    var negoStatus := if UsesIce(s) then s.iceNegoStatus else -1;
    var conficeDone := if s.confice.Some? then s.conficeDone else true;
    if !negoDone || !conficeDone then None
    else if negoStatus == C.PJ_SUCCESS then Some(Direct)
    else if s.confice.Some? && C.HasResult(s.confice.value) then Some(ViaRelay)
    else Some(NoPath)
  }

  // ------------------------------------------------------------------ invariant

  predicate Inv(s: Session) {
    (s.phase == CreatingRelay ==>
       s.confice.None? && !s.iceNegoDone && s.pending.None? && !s.conficeDone) &&
    (s.confice.Some? ==> C.Inv(s.confice.value) && s.confice.value.role == s.role) &&
    (s.confice.None? ==> !s.conficeDone) &&
    (s.confice.Some? ==> (s.conficeDone <==> s.confice.value.state == C.FINAL)) &&
    (s.conficeDone ==> s.conficeStatus == s.confice.value.finalResult) &&
    (s.pending.Some? ==> s.iceNegoDone && s.pending.value == s.iceNegoStatus) &&
    (s.iceNegoDone && s.pending.None? && s.confice.Some? ==>
       if s.iceNegoStatus == C.PJ_SUCCESS then s.confice.value.state == C.FINAL
       else s.role == C.Controlling ==> s.confice.value.selRelayKicked || s.confice.value.state == C.FINAL)
  }

  /** A session before `eice_start_nego`. */
  predicate Fresh(s: Session) {
    s.phase == CreatingRelay && s.confice.None? && !s.iceNegoDone && s.pending.None? && !s.conficeDone
  }

  /** What stays once latched: the ICE status, the relay's end and its status. */
  predicate Latched(s: Session, t: Session) {
    t.role == s.role && t.hasIce == s.hasIce && t.forceRelay == s.forceRelay &&
    (s.iceNegoDone ==> t.iceNegoDone && t.iceNegoStatus == s.iceNegoStatus) &&
    (s.conficeDone ==> t.conficeDone && t.conficeStatus == s.conficeStatus) &&
    (s.phase != CreatingRelay ==> t.phase != CreatingRelay && (t.confice.Some? <==> s.confice.Some?))
  }

  /** Hearing of a step: the flag and the status are set by the final callback, if it is among
    * those made, and by nothing else. */
  lemma {:induction false} NotifiedFinal(s: Session, calls: seq<C.Callback>, result: int)
    requires forall i :: 0 <= i < |calls| ==> calls[i].op == C.FINAL ==> calls[i].status == result
    ensures var t := Notified(s, calls);
            t == s.(conficeDone := t.conficeDone, conficeStatus := t.conficeStatus) &&
            (t.conficeDone <==> s.conficeDone || exists i :: 0 <= i < |calls| && calls[i].op == C.FINAL) &&
            (if exists i :: 0 <= i < |calls| && calls[i].op == C.FINAL then t.conficeStatus == result
             else t.conficeStatus == s.conficeStatus)
    decreases |calls|
  {
    if calls != [] {
      var next := if calls[0].op == C.FINAL then s.(conficeDone := true, conficeStatus := calls[0].status) else s;
      forall i | 0 <= i < |calls[1..]|
        ensures calls[1..][i].op == C.FINAL ==> calls[1..][i].status == result
      {
        assert calls[1..][i] == calls[i + 1];
      }
      NotifiedFinal(next, calls[1..], result);
      if i :| 0 <= i < |calls| && calls[i].op == C.FINAL {
        if i > 0 { assert calls[1..][i - 1].op == C.FINAL; }
      }
      if j :| 0 <= j < |calls[1..]| && calls[1..][j].op == C.FINAL {
        assert calls[j + 1].op == C.FINAL;
      }
    }
  }

  lemma FinalIsLast(d: C.Conf, j: nat)
    requires C.TraceOk(d) && j < |d.calls|
    ensures d.calls[j].op == C.FINAL ==>
              j == |d.calls| - 1 && d.state == C.FINAL && d.calls[j].status == d.finalResult
  {
    var last := |d.calls| - 1;
    assert j < last ==> C.Rank(d.calls[j].op) < C.Rank(d.calls[last].op) <= C.Rank(C.FINAL);
  }

  lemma FinalIsNew(c: C.Conf, d: C.Conf)
    requires C.TraceOk(c) && C.TraceOk(d) && c.calls <= d.calls && c.state != C.FINAL && d.state == C.FINAL
    ensures |c.calls| < |d.calls| && d.calls[|c.calls|..][|d.calls| - 1 - |c.calls|].op == C.FINAL
  {
    assert forall k :: 0 <= k < |c.calls| ==> c.calls[k] == d.calls[k];
  }

  /** After every step of the relay negotiation the session's copy of its end is exact. */
  lemma RelayStepHeard(s: Session, e: C.Event)
    requires s.confice.Some? && C.Inv(s.confice.value) && C.Enabled(s.confice.value, e)
    requires s.conficeDone <==> s.confice.value.state == C.FINAL
    requires s.conficeDone ==> s.conficeStatus == s.confice.value.finalResult
    ensures var t := RelayStep(s, e); var c := s.confice.value; var d := C.Step(c, e);
            t == s.(confice := Some(d), conficeDone := t.conficeDone, conficeStatus := t.conficeStatus) &&
            C.Inv(d) && C.Forward(c, d) && (t.conficeDone <==> d.state == C.FINAL) &&
            (t.conficeDone ==> t.conficeStatus == d.finalResult)
  {
    hide C.Step, C.Enabled, C.AllReg, C.AllRelayDone, C.NoRelayDone, C.Numbered, C.TraceOk;
    C.StepKeepsInv(s.confice.value, e);
    var c := s.confice.value;
    var d := C.Step(c, e);
    var news := d.calls[|c.calls|..];
    forall i | 0 <= i < |news|
      ensures news[i].op == C.FINAL ==> d.state == C.FINAL && news[i].status == d.finalResult && i == |news| - 1
    {
      var j := |c.calls| + i;
      assert news[i] == d.calls[j];
      FinalIsLast(d, j);
    }
    NotifiedFinal(s.(confice := Some(d)), news, d.finalResult);
    if d.state == C.FINAL && c.state != C.FINAL {
      FinalIsNew(c, d);
    }
  }

  /** A kick is taken or comes too late, after selection (kicked before) or after the end. */
  lemma KickTaken(c: C.Conf, now: int, tsx: nat -> bv32)
    requires C.Inv(c)
    ensures var d := C.Step(c, C.KickSelectRelay(now, tsx)); d.selRelayKicked || d.state == C.FINAL
  {
  }

  lemma CancelEnds(c: C.Conf)
    ensures C.Step(c, C.CancelIt).state == C.FINAL
  {
  }

  lemma StepKeepsInv(s: Session, e: Event)
    requires Inv(s) && Enabled(s, e)
    ensures Inv(Step(s, e)) && Latched(s, Step(s, e))
  {
    hide C.Inv, C.Step, RelayStep, C.Enabled, C.Fresh;
    match e
    case CreateRelay(relay) => if relay.Some? { FreshRelay(relay.value); }
    case KickReg(now) => KickRegKeepsInv(s, now);
    case KickRelayDirectly(now, tsx) => KickRelayKeepsInv(s, now, tsx);
    case IceAct(now, tsx) => IceActKeepsInv(s, now, tsx);
    case IceTimeout(now, tsx) => IceTimeoutKeepsInv(s, now, tsx);
    case Relay(r) => RelayStepHeard(s, r);
    case _ =>
  }

  lemma KickRegKeepsInv(s: Session, now: int)
    requires Inv(s) && Enabled(s, KickReg(now))
    ensures Inv(Step(s, KickReg(now))) && Latched(s, Step(s, KickReg(now)))
  {
    hide C.Inv, C.Step, RelayStep, C.Enabled;
    if s.confice.Some? {
      AlwaysEnabled(s.confice.value, now, _ => 0);
      RelayStepHeard(s.(phase := KickingRelay), C.KickReg(now));
    }
  }

  lemma KickRelayKeepsInv(s: Session, now: int, tsx: nat -> bv32)
    requires Inv(s) && Enabled(s, KickRelayDirectly(now, tsx))
    ensures Inv(Step(s, KickRelayDirectly(now, tsx))) && Latched(s, Step(s, KickRelayDirectly(now, tsx)))
  {
    hide C.Inv, C.Step, RelayStep, C.Enabled;
    if s.confice.Some? {
      AlwaysEnabled(s.confice.value, now, tsx);
      RelayStepHeard(s.(phase := Started), C.KickSelectRelay(now, tsx));
    }
  }

  lemma IceActKeepsInv(s: Session, now: int, tsx: nat -> bv32)
    requires Inv(s) && Enabled(s, IceAct(now, tsx))
    ensures Inv(Step(s, IceAct(now, tsx))) && Latched(s, Step(s, IceAct(now, tsx)))
  {
    hide C.Inv, C.Step, RelayStep, C.Enabled;
    if s.confice.Some? {
      AlwaysEnabled(s.confice.value, now, tsx);
      RelayStepHeard(s.(pending := None), C.CancelIt);
      RelayStepHeard(s.(pending := None), C.KickSelectRelay(now, tsx));
      KickTaken(s.confice.value, now, tsx);
      CancelEnds(s.confice.value);
    }
  }

  lemma IceTimeoutKeepsInv(s: Session, now: int, tsx: nat -> bv32)
    requires Inv(s) && Enabled(s, IceTimeout(now, tsx))
    ensures Inv(Step(s, IceTimeout(now, tsx))) && Latched(s, Step(s, IceTimeout(now, tsx)))
  {
    hide C.Inv, C.Step, RelayStep, C.Enabled;
    if s.confice.Some? && !s.iceNegoDone {
      AlwaysEnabled(s.confice.value, now, tsx);
      RelayStepHeard(s.(iceNegoDone := true, iceNegoStatus := -1), C.KickSelectRelay(now, tsx));
      KickTaken(s.confice.value, now, tsx);
    }
  }

  lemma AlwaysEnabled(c: C.Conf, now: int, tsx: nat -> bv32)
    ensures C.Enabled(c, C.KickReg(now)) && C.Enabled(c, C.KickSelectRelay(now, tsx)) && C.Enabled(c, C.CancelIt)
  {
  }

  lemma FreshRelay(c: C.Conf)
    requires C.Fresh(c)
    ensures C.Inv(c) && c.state != C.FINAL
  {
    C.FreshIsInv(c);
  }

  predicate CanRun(s: Session, es: seq<Event>)
    decreases |es|
  {
    es == [] || (Enabled(s, es[0]) && CanRun(Step(s, es[0]), es[1..]))
  }

  function Run(s: Session, es: seq<Event>): Session
    requires CanRun(s, es)
    decreases |es|
  {
    if es == [] then s else Run(Step(s, es[0]), es[1..])
  }

  lemma {:induction false} RunKeepsInv(s: Session, es: seq<Event>)
    requires Inv(s) && CanRun(s, es)
    ensures Inv(Run(s, es)) && Latched(s, Run(s, es))
    decreases |es|
  {
    if es != [] {
      StepKeepsInv(s, es[0]);
      RunKeepsInv(Step(s, es[0]), es[1..]);
    }
  }

  /** Over every interleaving: the ICE status is written once; the relay's end is mirrored
    * exactly; once the callback or the timeout has done its work, a failure on the controlling
    * side has kicked the relay (or found it ended), and a success has ended it. */
  lemma {:induction false} SessionLatch(s: Session, before: seq<Event>, after: seq<Event>)
    requires Fresh(s) && CanRun(s, before) && CanRun(Run(s, before), after)
    ensures var x := Run(s, before); var y := Run(x, after);
      (x.iceNegoDone ==> y.iceNegoDone && y.iceNegoStatus == x.iceNegoStatus) &&
      (y.confice.Some? ==>
         (y.conficeDone <==> y.confice.value.state == C.FINAL) &&
         (y.conficeDone ==> y.conficeStatus == y.confice.value.finalResult)) &&
      (y.iceNegoDone && y.pending.None? && y.confice.Some? ==>
         (y.iceNegoStatus == C.PJ_SUCCESS ==> y.confice.value.state == C.FINAL) &&
         (y.iceNegoStatus != C.PJ_SUCCESS && y.role == C.Controlling ==>
            y.confice.value.selRelayKicked || y.confice.value.state == C.FINAL))
  {
    RunKeepsInv(s, before);
    RunKeepsInv(Run(s, before), after);
  }

  /** The kind of answer: direct iff ICE succeeded, else by relay iff the relay negotiation
    * ended with success, else none. */
  lemma AnswerKind(s: Session)
    requires Inv(s) && GetNegoResult(s).Some?
    ensures var a := GetNegoResult(s).value;
            (a == Direct <==> UsesIce(s) && s.iceNegoStatus == C.PJ_SUCCESS) &&
            (a == ViaRelay <==> a != Direct && s.confice.Some? && s.conficeStatus == 0)
  {
  }

  /** Once the relay negotiation has been set up, an answer that was given stays. */
  lemma {:induction false} AnswerIsStable(s: Session, before: seq<Event>, after: seq<Event>)
    requires Fresh(s) && CanRun(s, before) && CanRun(Run(s, before), after)
    ensures var x := Run(s, before);
            x.phase != CreatingRelay && GetNegoResult(x).Some? ==> GetNegoResult(Run(x, after)) == GetNegoResult(x)
  {
    RunKeepsInv(s, before);
    RunKeepsInv(Run(s, before), after);
  }
}

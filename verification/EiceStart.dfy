/** What starting a session has brought about, whatever came in between, and when the session can answer. */
module EiceStart {
  import opened Wrappers
  import C = Confice
  import opened E = EiceSession

  /** Past the registration kick the relay negotiation has begun. Past the last call of the start the controlling side's
    * relay has been told to select wherever direct ICE does not take part on both sides. */
  predicate Begun(s: Session) {
    (s.phase in {KickingRelay, Started} && s.confice.Some? ==> s.confice.value.state != C.NONE) &&
    (s.phase == Started && s.confice.Some? && s.role == C.Controlling && (!s.hasIce || s.forceRelay || s.remoteForceRelay) ==>
       s.confice.value.selRelayKicked || s.confice.value.state == C.FINAL)
  }

  lemma KickBegins(c: C.Conf, now: int)
    requires C.Inv(c)
    ensures C.Step(c, C.KickReg(now)).state != C.NONE
  {
    hide C.RegisterAll, C.TraceOk, C.Numbered, C.AllReg, C.AllRelayDone, C.NoRelayDone;
  }

  /** Nothing that happens to the relay afterwards takes that back. */
  lemma BegunStays(s: Session, t: Session, e: C.Event)
    requires Inv(s) && s.confice.Some? && C.Enabled(s.confice.value, e) && Begun(s)
    requires t.confice == s.confice && t.role == s.role && t.hasIce == s.hasIce && t.forceRelay == s.forceRelay
    requires t.remoteForceRelay == s.remoteForceRelay && t.phase == s.phase && t.conficeDone == s.conficeDone
    requires t.conficeStatus == s.conficeStatus
    ensures Begun(RelayStep(t, e))
  {
    hide C.Inv, C.Step, RelayStep, C.Enabled;
    RelayStepHeard(t, e);
  }

  lemma StepKeepsBegun(s: Session, e: Event)
    requires Inv(s) && Enabled(s, e) && Begun(s)
    ensures Begun(Step(s, e))
  {
    hide C.Inv, C.Step, RelayStep, C.Enabled, C.Fresh, Begun, Inv;
    match e
    case KickReg(now) => KickRegBegins(s, now);
    case KickRelayDirectly(now, tsx) => KickRelayBegins(s, now, tsx);
    case Relay(r) => BegunStays(s, s, r);
    case _ => IceKeepsBegun(s, e);
  }

  lemma IceKeepsBegun(s: Session, e: Event)
    requires Inv(s) && Enabled(s, e) && Begun(s) && !e.KickReg? && !e.KickRelayDirectly? && !e.Relay?
    ensures Begun(Step(s, e))
  {
    hide C.Inv, C.Step, RelayStep, C.Enabled, C.Fresh;
    if s.confice.Some? && (e.IceAct? || e.IceTimeout?) {
      AlwaysEnabled(s.confice.value, e.now, e.tsx);
      BegunStays(s, s.(pending := None), C.CancelIt);
      BegunStays(s, s.(pending := None), C.KickSelectRelay(e.now, e.tsx));
      BegunStays(s, s.(iceNegoDone := true, iceNegoStatus := -1), C.KickSelectRelay(e.now, e.tsx));
    }
  }

  lemma KickRegBegins(s: Session, now: int)
    requires Inv(s) && Enabled(s, KickReg(now))
    ensures Begun(Step(s, KickReg(now)))
  {
    hide C.Inv, C.Step, RelayStep, C.Enabled;
    if s.confice.Some? {
      AlwaysEnabled(s.confice.value, now, _ => 0);
      RelayStepHeard(s.(phase := KickingRelay), C.KickReg(now));
      KickBegins(s.confice.value, now);
    }
  }

  lemma KickRelayBegins(s: Session, now: int, tsx: nat -> bv32)
    requires Inv(s) && Enabled(s, KickRelayDirectly(now, tsx)) && Begun(s)
    ensures Begun(Step(s, KickRelayDirectly(now, tsx)))
  {
    hide C.Inv, C.Step, RelayStep, C.Enabled;
    if s.confice.Some? {
      AlwaysEnabled(s.confice.value, now, tsx);
      RelayStepHeard(s.(phase := Started), C.KickSelectRelay(now, tsx));
      KickTaken(s.confice.value, now, tsx);
    }
  }

  lemma {:induction false} BegunGoesOn(s: Session, es: seq<Event>)
    requires Inv(s) && Begun(s) && CanRun(s, es)
    ensures Begun(Run(s, es)) && Inv(Run(s, es))
    decreases |es|
  {
    hide Inv, Begun, Step, Enabled;
    if es != [] {
      StepKeepsInv(s, es[0]);
      StepKeepsBegun(s, es[0]);
      BegunGoesOn(Step(s, es[0]), es[1..]);
    }
  }

  /** Over every interleaving: a started session has begun its relay negotiation, and has it select at once where direct
    * ICE is not used on both sides; it answers exactly when every way it uses has come to its end. */
  lemma {:induction false} StartedSession(s: Session, es: seq<Event>)
    requires Fresh(s) && CanRun(s, es)
    ensures var t := Run(s, es);
      (t.phase == Started && t.confice.Some? ==> t.confice.value.state != C.NONE) &&
      (t.phase == Started && t.confice.Some? && t.role == C.Controlling && (!t.hasIce || t.forceRelay || t.remoteForceRelay) ==>
         t.confice.value.selRelayKicked || t.confice.value.state == C.FINAL) &&
      (GetNegoResult(t).Some? <==>
         (t.hasIce && !t.forceRelay ==> t.iceNegoDone) && (t.confice.Some? ==> t.confice.value.state == C.FINAL))
  {
    hide C.Inv;
    BegunGoesOn(s, es);
  }

  /** A session whose ICE cannot start gives up there: it never starts its relay by itself. */
  lemma AbortedStays(s: Session, e: Event)
    requires Enabled(s, e)
    ensures s.phase == StartingIce && e == StartIce(false) && s.hasIce && !s.forceRelay ==> Step(s, e) == s.(phase := Aborted)
    ensures s.phase == StartingIce && e.StartIce? && (e.ok || !s.hasIce || s.forceRelay) ==> Step(s, e) == s.(phase := KickingReg)
    ensures s.phase == Aborted ==> Step(s, e).phase == Aborted && !e.KickReg? && !e.KickRelayDirectly?
  {
    hide C.Step, C.Enabled, RelayStep;
    if s.confice.Some? {
      match e
      case IceAct(now, tsx) =>
        AlwaysEnabled(s.confice.value, now, tsx);
        RelayKeepsPhase(s.(pending := None), C.CancelIt);
        RelayKeepsPhase(s.(pending := None), C.KickSelectRelay(now, tsx));
      case IceTimeout(now, tsx) =>
        AlwaysEnabled(s.confice.value, now, tsx);
        RelayKeepsPhase(s.(iceNegoDone := true, iceNegoStatus := -1), C.KickSelectRelay(now, tsx));
      case Relay(r) => RelayKeepsPhase(s, r);
      case _ =>
    }
  }

  lemma RelayKeepsPhase(s: Session, e: C.Event)
    requires s.confice.Some?
    ensures C.Enabled(s.confice.value, e) ==> RelayStep(s, e).phase == s.phase
  {
    hide C.Step, C.Enabled;
    if C.Enabled(s.confice.value, e) {
      var c, d := s.confice.value, C.Step(s.confice.value, e);
      NotifiedKeepsPhase(s.(confice := Some(d)), if c.calls <= d.calls then d.calls[|c.calls|..] else []);
    }
  }

  lemma {:induction false} NotifiedKeepsPhase(s: Session, calls: seq<C.Callback>)
    ensures Notified(s, calls).phase == s.phase
    decreases |calls|
  {
    if calls != [] {
      NotifiedKeepsPhase(if calls[0].op == C.FINAL then s.(conficeDone := true, conficeStatus := calls[0].status) else s, calls[1..]);
    }
  }
}

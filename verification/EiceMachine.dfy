/** `eice_st` as the object the callbacks update in place. */
module EiceMachine {
  import opened Wrappers
  import C = Confice
  import opened ConficeMachine
  import opened E = EiceSession

  class EiceObject {
    const role: C.Role
    const hasIce: bool
    const forceRelay: bool
    const remoteForceRelay: bool
    const confice: ConficeObject?
    var iceNegoDone: bool
    var iceNegoStatus: int
    var conficeDone: bool
    var conficeStatus: int

    /** The session after `eice_start_nego`, between callbacks. */
    ghost function State(): Session
      reads this, confice
    {
      Session(role, hasIce, forceRelay, remoteForceRelay, Started,
              if confice == null then None else Some(confice.State()),
              iceNegoDone, iceNegoStatus, None, conficeDone, conficeStatus)
    }

    ghost predicate Valid()
      reads this, confice
    {
      E.Inv(State())
    }

    constructor (role: C.Role, hasIce: bool, forceRelay: bool, remoteForceRelay: bool, confice: ConficeObject?)
      requires confice != null ==> C.Fresh(confice.State()) && confice.role == role
      ensures Valid() && this.confice == confice && this.role == role
      ensures !iceNegoDone && !conficeDone
    {
      this.role, this.hasIce, this.forceRelay, this.remoteForceRelay := role, hasIce, forceRelay, remoteForceRelay;
      this.confice := confice;
      iceNegoDone, iceNegoStatus, conficeDone, conficeStatus := false, 0, false, 0;
      new;
      if confice != null { FreshRelay(confice.State()); }
    }

    /** `on_confice_complete`, once for each callback since `from`. */
    method OnConficeComplete(from: nat)
      requires confice != null && from <= |confice.calls|
      modifies `conficeDone, `conficeStatus
      ensures State() == Notified(old(State()), confice.calls[from..])
    {
      var calls := confice.calls[from..];
      ghost var s := State();
      for i := 0 to |calls|
        invariant State() == s.(conficeDone := conficeDone, conficeStatus := conficeStatus)
        invariant Notified(State(), calls[i..]) == Notified(s, calls)
      {
        assert calls[i..][0] == calls[i] && calls[i..][1..] == calls[i + 1..];
        if calls[i].op == C.FINAL {
          conficeDone := true;
          conficeStatus := calls[i].status;
        }
      }
      assert calls[|calls|..] == [];
    }

    method KickRelay(now: int, tsx: nat -> bv32)
      requires confice != null && C.Inv(confice.State())
      modifies this, confice
      ensures iceNegoDone == old(iceNegoDone) && iceNegoStatus == old(iceNegoStatus)
      ensures State() == RelayStep(old(State()), C.KickSelectRelay(now, tsx))
    {
      var from := |confice.calls|;
      C.StepKeepsInv(confice.State(), C.KickSelectRelay(now, tsx));
      var ret := confice.KickoffSelectRelay(now, tsx);
      OnConficeComplete(from);
    }

    /** The negotiation branch of `cb_on_ice_complete`: latch the first status, then act on it. */
    method CbOnIceComplete(status: int, now: int, tsx: nat -> bv32)
      requires Valid()
      modifies this, confice
      ensures Valid()
      ensures var latched := E.Step(old(State()), IceLatch(status));
              State() == if old(iceNegoDone) then latched else E.Step(latched, IceAct(now, tsx))
    {
      ghost var s := State();
      E.StepKeepsInv(s, IceLatch(status));
      var done := false;
      if !iceNegoDone {
        iceNegoDone := true;
        iceNegoStatus := status;
        done := true;
        E.StepKeepsInv(E.Step(s, IceLatch(status)), IceAct(now, tsx));
      }
      if done && confice != null {
        if status == C.PJ_SUCCESS {
          CancelRelay();
        } else if role == C.Controlling {
          KickRelay(now, tsx);
        }
      }
    }

    method CancelRelay()
      requires confice != null && C.Inv(confice.State())
      modifies this, confice
      ensures iceNegoDone == old(iceNegoDone) && iceNegoStatus == old(iceNegoStatus)
      ensures State() == RelayStep(old(State()), C.CancelIt)
    {
      var from := |confice.calls|;
      C.StepKeepsInv(confice.State(), C.CancelIt);
      var ret := confice.Cancel();
      OnConficeComplete(from);
    }

    method TimerIceCb(now: int, tsx: nat -> bv32)
      requires Valid()
      modifies this, confice
      ensures Valid()
      ensures State() == E.Step(old(State()), IceTimeout(now, tsx))
    {
      E.StepKeepsInv(State(), IceTimeout(now, tsx));
      if !iceNegoDone {
        iceNegoDone := true;
        iceNegoStatus := -1;
        if confice != null && role == C.Controlling {
          KickRelay(now, tsx);
        }
      }
    }

    method GetNegoResult() returns (answer: Option<Answer>)
      requires Valid()
      ensures answer == E.GetNegoResult(State())
    {
      var negoDone, negoStatus := true, -1;
      var relayDone := true;
      if hasIce && !forceRelay {
        negoDone, negoStatus := iceNegoDone, iceNegoStatus;
      }
      if confice != null { relayDone := conficeDone; }
      if !negoDone { return None; }
      if !relayDone { return None; }
      if negoStatus == C.PJ_SUCCESS { return Some(Direct); }
      if confice != null {
        var ret := confice.GetResult();
        if ret == 0 { return Some(ViaRelay); }
      }
      answer := Some(NoPath);
    }
  }
}

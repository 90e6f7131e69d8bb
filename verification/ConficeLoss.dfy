/** Retransmission: what one firing of the timer sends, and that it makes up for anything lost before. */
module ConficeLoss {
  import opened Packet
  import opened C = Confice
  import opened N = ConficeNet
  import opened G = ConficeProgress

  // ------------------------------------------------------------------ what starts the two phases

  /** The first kick starts the registration and sends the request of every channel, later ones do nothing. */
  lemma RegistrationBegins(c: Conf, now: int)
    requires Inv(c)
    ensures var d := Step(c, KickReg(now));
            if c.state != NONE then d == c
            else
              d.state == REGING && d.regSendTime == now && d.regSendCount == 1 && d.calls == c.calls &&
              |d.sent| == |c.sent| + |c.channels| && d.sent[..|c.sent|] == c.sent &&
              forall i :: 0 <= i < |c.channels| ==>
                d.sent[|c.sent| + i] == RegisterPacket(c.sessionId, c.confId, c.channels[i].channelId, c.rcode)
  {
    hide RegisterPacket, TraceOk, Numbered, AllReg, AllRelayDone, NoRelayDone;
    forall i | 0 <= i < |c.channels|
      ensures Buffered(RegisterAll(c))[i] == RegisterPacket(c.sessionId, c.confId, c.channels[i].channelId, c.rcode)
    {
      RegisterAllAt(c, i);
    }
  }

  /** A controlling side that has been checked sends one request per channel under fresh transaction numbers. */
  predicate Selects(c: Conf, d: Conf, now: int, tsx: nat -> bv32) {
    d.state == SELECTING && d.selRelayKicked && d.selRelaySendTime == now && |d.channels| == |c.channels| &&
    |d.sent| == |c.sent| + |c.channels| && d.sent[..|c.sent|] == c.sent &&
    forall i :: 0 <= i < |c.channels| ==>
      d.channels[i].tsxId == tsx(i) && d.sent[|c.sent| + i] == SelectRelayPacket(c.sessionId, c.channels[i].compId, tsx(i))
  }

  /** The kick selects at once where the check has succeeded, is remembered before that, and is refused afterwards. */
  lemma KickMeans(c: Conf, now: int, tsx: nat -> bv32)
    requires Inv(c)
    ensures var d := Step(c, KickSelectRelay(now, tsx));
            if c.state == SELECTING || c.state == FINAL then d == c
            else if c.state == NEGO_DONE && c.role == Controlling then Selects(c, d, now, tsx)
            else d == c.(selRelayKicked := true)
  {
    hide SelectRelayPacket, TraceOk, Numbered, AllReg, AllRelayDone, NoRelayDone;
    assert forall i :: 0 <= i < |c.channels| ==>
        Buffered(SelectAll(c.channels, c.sessionId, tsx))[i] == SelectRelayPacket(c.sessionId, c.channels[i].compId, tsx(i));
  }

  /** A successful check selects at once where the kick came before it. */
  lemma CheckMeans(c: Conf, now: int, tsx: nat -> bv32)
    requires Inv(c) && c.state == NEGOING
    ensures var d := Step(c, IceComplete(0, now, tsx));
            if c.selRelayKicked && c.role == Controlling then Selects(c, d, now, tsx)
            else d.state == NEGO_DONE && d.sent == c.sent && d.channels == c.channels
  {
    hide SelectRelayPacket, TraceOk, Numbered, AllReg, AllRelayDone, NoRelayDone;
    assert forall i :: 0 <= i < |c.channels| ==>
        Buffered(SelectAll(c.channels, c.sessionId, tsx))[i] == SelectRelayPacket(c.sessionId, c.channels[i].compId, tsx(i));
  }

  lemma CancelMeans(c: Conf)
    ensures var d := Step(c, CancelIt);
            if c.state == FINAL then d == c
            else d == c.(state := FINAL, finalResult := -1, calls := c.calls + [Callback(FINAL, -1)])
  {
  }

  // ------------------------------------------------------------------ what a firing sends

  /** While selecting and before the limit a firing sends the request of every channel once more, in channel order and
    * under the channel's transaction number, and does nothing else. */
  lemma FiringAsksAgain(c: Conf, now: int)
    requires Inv(c) && Asked(c) && c.state == SELECTING && now - c.selRelaySendTime < 4000
    ensures var d := Step(c, Timer(now));
            d == c.(sent := d.sent) && |d.sent| == |c.sent| + |c.channels| && d.sent[..|c.sent|] == c.sent &&
            forall i :: 0 <= i < |c.channels| ==>
              d.sent[|c.sent| + i] == SelectRelayPacket(c.sessionId, c.channels[i].compId, c.channels[i].tsxId)
  {
    hide SelectRelayPacket, TraceOk, Numbered, AllReg, AllRelayDone, NoRelayDone;
    assert forall i :: 0 <= i < |c.channels| ==> AskedOn(c.channels[i], c.sessionId, c.sent);
    assert forall i :: 0 <= i < |c.channels| ==> Buffered(c.channels)[i] == c.channels[i].pktCommon;
  }

  /** While registering and before the limit it sends the register request of every channel once more. */
  lemma FiringRegistersAgain(c: Conf, now: int)
    requires Inv(c) && c.state == REGING && now - c.regSendTime < 4000
    ensures var d := Step(c, Timer(now));
            d.state == REGING && |d.sent| == |c.sent| + |c.channels| && d.sent[..|c.sent|] == c.sent &&
            d.regSendTime == c.regSendTime && d.regSendCount == c.regSendCount + 1 && d.timerArmed &&
            forall i :: 0 <= i < |c.channels| ==>
              d.sent[|c.sent| + i] == RegisterPacket(c.sessionId, c.confId, c.channels[i].channelId, c.rcode)
  {
    hide RegisterPacket, TraceOk, Numbered, AllReg, AllRelayDone, NoRelayDone;
    forall i | 0 <= i < |c.channels|
      ensures Buffered(RegisterAll(c))[i] == RegisterPacket(c.sessionId, c.confId, c.channels[i].channelId, c.rcode)
    {
      RegisterAllAt(c, i);
    }
  }

  /** At the limit of either phase it gives up; outside the two phases it does nothing. */
  lemma FiringElsewhere(c: Conf, now: int)
    requires Inv(c) && c.timerArmed
    ensures var d := Step(c, Timer(now));
            ((c.state == REGING && now - c.regSendTime >= 4000) || (c.state == SELECTING && now - c.selRelaySendTime >= 4000) ==>
               d.state == FINAL && d.finalResult == -1 && d.sent == c.sent && !d.timerArmed) &&
            (c.state != REGING && c.state != SELECTING && c.state != FINAL ==> d == c)
  {
    hide TraceOk, Numbered, AllReg, AllRelayDone, NoRelayDone;
  }

  // ------------------------------------------------------------------ progress with loss

  /** Every datagram delivered in the run was sent after the first `a` of the caller and the first `b` of the callee:
    * those are lost for good. */
  predicate HeardSince(n: Net, a: nat, b: nat, es: seq<NetEvent>)
    requires NetCanRun(n, es)
    decreases |es|
  {
    a <= |n.caller.sent| && b <= |n.callee.sent| &&
    (es == [] || (ArrivesSince(n, a, b, es[0].e) && HeardSince(NetStep(n, es[0]), a, b, es[1..])))
  }

  predicate ArrivesSince(n: Net, a: nat, b: nat, e: Event)
    requires a <= |n.caller.sent| && b <= |n.callee.sent|
  {
    e.Receive? ==> e.packet in n.caller.sent[a..] || e.packet in n.callee.sent[b..]
  }

  /** The caller's requests are all among what it sent since. */
  predicate RequestsSince(n: Net, a: nat, b: nat) {
    a <= |n.caller.sent| && b <= |n.callee.sent| &&
    forall i :: 0 <= i < |n.caller.channels| ==> n.caller.channels[i].pktCommon in n.caller.sent[a..]
  }

  lemma {:induction false} HeardInTurn(n: Net, a: nat, b: nat, first: seq<NetEvent>, second: seq<NetEvent>)
    requires NetCanRun(n, first) && NetCanRun(NetRun(n, first), second)
    requires HeardSince(n, a, b, first) && HeardSince(NetRun(n, first), a, b, second)
    ensures NetCanRun(n, first + second) && HeardSince(n, a, b, first + second)
    decreases |first|
  {
    hide NetEnabled, NetStep, ArrivesSince;
    RunsInTurn(n, first, second);
    if first == [] {
      assert first + second == second;
    } else {
      assert (first + second)[0] == first[0] && (first + second)[1..] == first[1..] + second;
      HeardInTurn(NetStep(n, first[0]), a, b, first[1..], second);
    }
  }

  /** One exchange uses the request and the acknowledgement it provokes, nothing older. */
  lemma {:induction false} ExchangeIsFresh(n: Net, i: nat, a: nat, b: nat)
    requires Selecting(n) && i < |n.caller.channels| && RequestsSince(n, a, b)
    ensures |n.caller.channels[i].pktCommon| > HEADER_LENGTH && NetCanRun(n, Exchange(n, i))
    ensures HeardSince(n, a, b, Exchange(n, i))
    ensures var m := NetRun(n, Exchange(n, i)); RequestsSince(m, a, b)
  {
    hide Inv, Message, Ack, OnDataRecvfrom, NoAcks, Truthful, CheckForSelectRelayDone, NetCanRun, NetRun, HeardSince, Selecting;
    var m := ExchangeWorks(n, i);
    var es := Exchange(n, i);
    TwoSteps(n, es);
    var mid := NetStep(n, es[0]);
    AsksSince(n, i, a, b);
    AnswerKeepsRequests(mid, i, a, b);
    HeardTwo(n, a, b, es);
  }

  lemma {:induction false} TwoSteps(n: Net, es: seq<NetEvent>)
    requires |es| == 2 && NetCanRun(n, es)
    ensures NetEnabled(n, es[0]) && NetEnabled(NetStep(n, es[0]), es[1])
    ensures NetRun(n, es) == NetStep(NetStep(n, es[0]), es[1])
  {
    hide NetEnabled, NetStep;
    var rest := es[1..];
    assert NetEnabled(n, es[0]) && NetCanRun(NetStep(n, es[0]), rest);
    assert rest[0] == es[1] && rest[1..] == [];
    assert NetEnabled(NetStep(n, es[0]), rest[0]);
    RunsTwo(n, es);
  }

  lemma {:induction false} HeardTwo(n: Net, a: nat, b: nat, es: seq<NetEvent>)
    requires |es| == 2 && NetCanRun(n, es) && NetEnabled(n, es[0]) && NetEnabled(NetStep(n, es[0]), es[1])
    requires a <= |n.caller.sent| && b <= |n.callee.sent| && ArrivesSince(n, a, b, es[0].e)
    requires var mid := NetStep(n, es[0]);
             a <= |mid.caller.sent| && b <= |mid.callee.sent| && ArrivesSince(mid, a, b, es[1].e) &&
             var m := NetStep(mid, es[1]); a <= |m.caller.sent| && b <= |m.callee.sent|
    ensures HeardSince(n, a, b, es)
  {
    hide NetEnabled, NetStep, ArrivesSince;
    var mid, rest := NetStep(n, es[0]), es[1..];
    assert NetCanRun(mid, rest) && rest[0] == es[1] && rest[1..] == [];
    var m := NetStep(mid, rest[0]);
    assert NetCanRun(m, []) && HeardSince(m, a, b, []);
    assert HeardSince(mid, a, b, rest);
  }

  lemma AsksSince(n: Net, i: nat, a: nat, b: nat)
    requires Selecting(n) && i < |n.caller.channels| && RequestsSince(n, a, b)
    requires |n.caller.channels[i].pktCommon| > HEADER_LENGTH && NetEnabled(n, Exchange(n, i)[0])
    ensures var es := Exchange(n, i);
            var mid := NetStep(n, es[0]);
            ArrivesSince(n, a, b, es[0].e) && RequestsSince(mid, a, b) && ArrivesSince(mid, a, b, es[1].e) &&
            Talking(mid) && mid.caller == n.caller && mid.caller.state == SELECTING
  {
    hide Inv, Message, Ack, OnDataRecvfrom, NoAcks, Truthful;
    var ch := n.caller.channels[i];
    assert AskedOn(ch, n.caller.sessionId, n.caller.sent);
    assert Counted(n.callee.channels);
    RequestIsHeard(n.callee, i, ch.tsxId);
    NetStepKeepsTalking(n, Exchange(n, i)[0]);
    var mid := NetStep(n, Exchange(n, i)[0]);
    var last := |n.callee.sent|;
    assert mid.callee.sent[b..][last - b] == Ack(ch.pktCommon);
  }

  lemma AnswerKeepsRequests(n: Net, i: nat, a: nat, b: nat)
    requires Talking(n) && n.caller.state == SELECTING && i < |n.caller.channels| && RequestsSince(n, a, b)
    requires |n.caller.channels[i].pktCommon| > HEADER_LENGTH && NetEnabled(n, Exchange(n, i)[1])
    ensures RequestsSince(NetStep(n, Exchange(n, i)[1]), a, b)
  {
    hide Inv, Message, Ack, OnDataRecvfrom, NoAcks, Truthful;
    var c, e := n.caller, Exchange(n, i)[1].e;
    ReceiveKeepsRequests(c, i, e.packet, 0, false);
    var d := Step(c, e);
    forall j | 0 <= j < |d.channels|
      ensures d.channels[j].pktCommon in d.sent[a..]
    {
      assert c.channels[j].pktCommon in c.sent[a..];
      assert c.sent[a..] <= d.sent[a..];
    }
  }

  /** From any moment of selection at which all requests are on their way, delivering those and the acknowledgements
    * they provoke ends it with success on both sides. */
  lemma {:induction false} FreshRequestsSuffice(n: Net, k: nat, a: nat, b: nat) returns (es: seq<NetEvent>)
    requires Selecting(n) && k <= |n.caller.channels| && RequestsSince(n, a, b)
    requires forall j :: 0 <= j < k ==> n.caller.channels[j].isRelayDone
    ensures |es| <= 2 * (|n.caller.channels| - k)
    ensures NetCanRun(n, es) && HeardSince(n, a, b, es) && HasResult(NetRun(n, es).caller)
    ensures AllRelayDone(NetRun(n, es).callee.channels) && NetRun(n, es).callee.state == FINAL
    decreases |n.caller.channels| - k
  {
    hide NetInv, NetEnabled, NetStep, NetCanRun, NetRun, Asked, Inv, HeardSince, RequestsSince;
    NotAllDone(n);
    var m := ExchangeWorks(n, k);
    ExchangeIsFresh(n, k, a, b);
    var first := Exchange(n, k);
    if AllRelayDone(m.caller.channels) {
      es := first;
      BothEnd(m);
    } else {
      var more := FreshRequestsSuffice(m, k + 1, a, b);
      RunsInTurn(n, first, more);
      HeardInTurn(n, a, b, first, more);
      es := first + more;
    }
  }

  /** After a firing all requests are among what was sent by it. */
  lemma FiringSendsRequests(n: Net, now: int)
    requires Selecting(n) && now - n.caller.selRelaySendTime < 4000
    ensures NetEnabled(n, AtCaller(Timer(now)))
    ensures var m := NetStep(n, AtCaller(Timer(now)));
            Selecting(m) && |m.caller.channels| == |n.caller.channels| && RequestsSince(m, |n.caller.sent|, |n.callee.sent|)
  {
    hide TimerCb, Message, NoAcks, Truthful, TraceOk, Numbered, AllReg, AllRelayDone, NoRelayDone;
    var c, e := n.caller, AtCaller(Timer(now));
    NetStepKeepsTalking(n, e);
    FiringAsksAgain(c, now);
    var d := Step(c, Timer(now));
    forall i | 0 <= i < |d.channels|
      ensures d.channels[i].pktCommon in d.sent[|c.sent|..]
    {
      assert AskedOn(c.channels[i], c.sessionId, c.sent);
      assert d.sent[|c.sent|..][i] == d.channels[i].pktCommon;
    }
  }

  /** Whatever happened before, and even if no datagram sent before it ever arrives, one firing of the caller's timer is
    * enough: the requests it sends and the acknowledgements they provoke complete the selection, in at most two
    * deliveries per channel, with success on the controlling side and every channel relayed on the other. */
  lemma OneFiringCompletes(n: Net, es: seq<NetEvent>, now: int) returns (more: seq<NetEvent>)
    requires NetFresh(n) && n.caller.sessionId == n.callee.sessionId && Counted(n.caller.channels) && NetCanRun(n, es)
    requires NetRun(n, es).caller.state == SELECTING && Rank(NetRun(n, es).callee.state) >= Rank(NEGO_DONE)
    requires now - NetRun(n, es).caller.selRelaySendTime < 4000
    ensures var m := NetRun(n, es);
            NetEnabled(m, AtCaller(Timer(now))) &&
            var fired := NetStep(m, AtCaller(Timer(now)));
            |more| <= 2 * |m.caller.channels| && NetCanRun(fired, more) &&
            HeardSince(fired, |m.caller.sent|, |m.callee.sent|, more) &&
            var end := NetRun(fired, more);
            HasResult(end.caller) && AllRelayDone(end.callee.channels) && end.callee.state == FINAL
  {
    hide NetCanRun, NetRun, Inv, Exchange, NetStep, NetEnabled, HeardSince, RequestsSince;
    FreshNetIsInv(n);
    NetRunKeepsTalking(n, es);
    var m := NetRun(n, es);
    FiringSendsRequests(m, now);
    more := FreshRequestsSuffice(NetStep(m, AtCaller(Timer(now))), 0, |m.caller.sent|, |m.callee.sent|);
  }
}

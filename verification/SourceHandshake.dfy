/** The source handshake of gpib_tx_quick and gpib_writedat_quick, one register write or wait-loop
    turn at a time, interleaved with any number of acceptors that conform to the AH function of
    IEEE 488.1 (section 2.4). NRFD and NDAC are wired-AND: a line is high only if nobody pulls it. */
module SourceHandshake {
  import opened Gpib

  /** AH states: not ready, ready, accepting data, waiting for DAV to go away. */
  datatype Phase = ANRS | ACRS | ACDS | AWNS

  datatype Acceptor = Acceptor(phase: Phase, took: seq<(byte, bool)>)

  /** Where the adapter is. `Eoi` drives the EOI line, `Setup` releases the handshake lines and puts
      the byte out, `Ready` and `Accepted` are the two wait loops, `Assert` is about to pull DAV. */
  datatype Pc =
    | Eoi | Setup | Ready | Assert | Accepted
    | ReleaseDav(timedout: bool) | ReleaseData(timedout: bool) | Recover
    | ReleaseEoi | Done | TimedOut

  /** `msg`: the bytes to send with their EOI flags; `idx`: how many calls have returned false. */
  datatype State = State(
    pc: Pc, idx: nat, msg: seq<(byte, bool)>,
    dav: bool, data: Option<byte>, eoi: bool,
    acceptors: seq<Acceptor>)

  /** The adapter moves (`expired`: the timeout callback, if polled in this turn, says so), or
      acceptor `who` does. */
  datatype Action = Adapter(expired: bool) | Accept(who: nat)

  predicate PullsNrfd(a: Acceptor) { a.phase != ACRS }
  predicate PullsNdac(a: Acceptor) { a.phase != AWNS }

  predicate NrfdHigh(s: State) { forall i | 0 <= i < |s.acceptors| :: !PullsNrfd(s.acceptors[i]) }
  predicate NdacHigh(s: State) { forall i | 0 <= i < |s.acceptors| :: !PullsNdac(s.acceptors[i]) }

  /** What the data lines say; undriven lines read as zero. */
  function Lines(s: State): (byte, bool) { (if s.data.Some? then s.data.value else 0, s.eoi) }

  function StepAdapter(s: State, expired: bool): State
    requires s.idx <= |s.msg|
  {
    match s.pc
    case Eoi => if s.idx == |s.msg| then s.(pc := Done) else s.(pc := Setup, eoi := s.msg[s.idx].1)
    case Setup => if s.idx == |s.msg| then s else s.(pc := Ready, dav := false, data := Some(s.msg[s.idx].0))
    case Ready => if expired then s.(pc := ReleaseData(true)) else if NrfdHigh(s) then s.(pc := Assert) else s
    case Assert => s.(pc := Accepted, dav := true)
    case Accepted =>
      if expired then s.(pc := ReleaseDav(true)) else if NdacHigh(s) then s.(pc := ReleaseDav(false)) else s
    case ReleaseDav(t) => s.(pc := ReleaseData(t), dav := false)
    case ReleaseData(t) => s.(pc := if t then Recover else ReleaseEoi, data := None)
    case Recover => s.(pc := TimedOut, dav := false, data := None, eoi := false)
    case ReleaseEoi => if s.idx == |s.msg| then s else s.(pc := Eoi, eoi := false, idx := s.idx + 1)
    case Done => s
    case TimedOut => s
  }

  /** A conforming acceptor: becomes ready in its own time and then stays ready until DAV, latches the
      lines while DAV is asserted, and shows acceptance until DAV is gone. */
  function StepAcceptor(a: Acceptor, dav: bool, lines: (byte, bool)): Acceptor {
    match a.phase
    case ANRS => a.(phase := ACRS)
    case ACRS => if dav then a.(phase := ACDS) else a
    case ACDS => if dav then Acceptor(AWNS, a.took + [lines]) else a.(phase := ANRS)
    case AWNS => if dav then a else a.(phase := ANRS)
  }

  function Step(s: State, a: Action): State
    requires s.idx <= |s.msg|
  {
    match a
    case Adapter(expired) => StepAdapter(s, expired)
    case Accept(who) =>
      if who < |s.acceptors| then
        s.(acceptors := s.acceptors[who := StepAcceptor(s.acceptors[who], s.dav, Lines(s))])
      else s
  }

  /** The handshake starts with DAV released and every acceptor at rest: ready, not ready, or still
      showing the acceptance of an earlier byte. */
  ghost predicate Initial(s: State) {
    && s.pc == Eoi && s.idx == 0 && !s.dav && s.data == None && !s.eoi
    && forall i | 0 <= i < |s.acceptors| :: s.acceptors[i].phase != ACDS && s.acceptors[i].took == []
  }

  /** Acceptor `a` at rest with the first `n` bytes taken. */
  ghost predicate Rested(s: State, a: Acceptor, n: nat)
    requires n <= |s.msg|
  {
    a.phase != ACDS && a.took == s.msg[..n]
  }

  /** Acceptor `a` while DAV is asserted for byte `idx`, or after it was given up. */
  ghost predicate Taking(s: State, a: Acceptor)
    requires s.idx < |s.msg|
  {
    if a.phase == AWNS then a.took == s.msg[..s.idx + 1]
    else a.phase != ANRS && a.took == s.msg[..s.idx]
  }

  ghost predicate Inv(s: State) {
    && s.idx <= |s.msg|
    && (s.idx == |s.msg| ==> s.pc == Eoi || s.pc == Done)
    && (s.pc == Done ==> s.idx == |s.msg|)
    && s.dav == (s.pc == Accepted || s.pc.ReleaseDav?)
    && s.data == (if s.pc == Ready || s.pc == Assert || s.pc == Accepted || s.pc.ReleaseDav? || s.pc.ReleaseData?
                  then Some(s.msg[s.idx].0) else None)
    && s.eoi == (s.pc != Eoi && s.pc != Done && s.pc != TimedOut && s.msg[s.idx].1)
    && forall i | 0 <= i < |s.acceptors| :: InvAcceptor(s, s.acceptors[i])
  }

  ghost predicate InvAcceptor(s: State, a: Acceptor)
    requires s.idx <= |s.msg| && (s.idx == |s.msg| ==> s.pc == Eoi || s.pc == Done)
  {
    match s.pc
    case Eoi | Setup | Ready | Done => Rested(s, a, s.idx)
    case Assert => a.phase == ACRS && a.took == s.msg[..s.idx]
    case Accepted | ReleaseDav(true) => Taking(s, a)
    case ReleaseDav(false) => a.phase == AWNS && a.took == s.msg[..s.idx + 1]
    case ReleaseData(false) | ReleaseEoi => Rested(s, a, s.idx + 1)
    case ReleaseData(true) | Recover | TimedOut => a.took == s.msg[..s.idx] || a.took == s.msg[..s.idx + 1]
  }

  lemma InvStepAdapter(s: State, expired: bool)
    requires Inv(s)
    ensures Inv(StepAdapter(s, expired))
  {
    var t := StepAdapter(s, expired);
    forall i | 0 <= i < |t.acceptors| ensures InvAcceptor(t, t.acceptors[i]) {
      assert InvAcceptor(s, s.acceptors[i]);
      if s.pc == Ready && t.pc == Assert { assert !PullsNrfd(s.acceptors[i]); }
      if s.pc == Accepted && t.pc == ReleaseDav(false) { assert !PullsNdac(s.acceptors[i]); }
    }
  }

  lemma InvStepAcceptor(s: State, who: nat)
    requires Inv(s) && who < |s.acceptors|
    ensures Inv(Step(s, Accept(who)))
  {
    var t := Step(s, Accept(who));
    assert InvAcceptor(s, s.acceptors[who]);
    assert InvAcceptor(t, t.acceptors[who]) by {
      if s.dav { assert s.msg[..s.idx] + [s.msg[s.idx]] == s.msg[..s.idx + 1]; }
    }
    forall i | 0 <= i < |t.acceptors| ensures InvAcceptor(t, t.acceptors[i]) {
      if i != who { assert InvAcceptor(s, s.acceptors[i]) && t.acceptors[i] == s.acceptors[i]; }
    }
  }

  lemma InvStep(s: State, a: Action)
    requires Inv(s)
    ensures Inv(Step(s, a))
  {
    hide Inv;
    assert s.idx <= |s.msg| by { InvBounds(s); }
    match a
    case Adapter(expired) => InvStepAdapter(s, expired);
    case Accept(who) => if who < |s.acceptors| { InvStepAcceptor(s, who); }
  }

  lemma InvBounds(s: State)
    requires Inv(s)
    ensures s.idx <= |s.msg|
  {
  }

  ghost function Run(s: State, actions: seq<Action>): State
    requires Inv(s)
    decreases |actions|
  {
    if actions == [] then s else
      InvStep(s, actions[0]);
      Run(Step(s, actions[0]), actions[1..])
  }

  lemma {:induction false} RunKeepsInv(s: State, actions: seq<Action>)
    requires Inv(s)
    ensures var t := Run(s, actions); Inv(t) && t.msg == s.msg && |t.acceptors| == |s.acceptors|
    decreases |actions|
  {
    hide Inv;
    if actions != [] {
      assert s.idx <= |s.msg| by { InvBounds(s); }
      InvStep(s, actions[0]);
      RunKeepsInv(Step(s, actions[0]), actions[1..]);
    }
  }

  /** Safety, for any number of acceptors, any bytes and any interleaving. While DAV is asserted the
      lines carry the current byte. Each acceptor has taken, in order and once each, exactly the bytes
      whose call returned, and possibly the one in flight. When all calls have returned without
      timeout every acceptor took exactly the message; after a timeout all lines are released. */
  lemma HandshakeIsSafe(s: State, actions: seq<Action>)
    requires Initial(s)
    ensures Inv(s)
    ensures var t := Run(s, actions);
      && t.idx <= |t.msg|
      && (t.dav ==> t.idx < |t.msg| && Lines(t) == t.msg[t.idx])
      && (forall i | 0 <= i < |t.acceptors| ::
            t.acceptors[i].took == t.msg[..t.idx]
            || (t.idx < |t.msg| && t.acceptors[i].took == t.msg[..t.idx + 1]))
      && (t.pc == Eoi ==> forall i | 0 <= i < |t.acceptors| :: t.acceptors[i].took == t.msg[..t.idx])
      && (t.pc == Done ==> forall i | 0 <= i < |t.acceptors| :: t.acceptors[i].took == t.msg)
      && (t.pc == TimedOut ==> !t.dav && t.data == None && !t.eoi)
  {
    assert Inv(s) by {
      forall i | 0 <= i < |s.acceptors| ensures InvAcceptor(s, s.acceptors[i]) {
        assert s.msg[..0] == [];
      }
    }
    var t := Run(s, actions);
    RunKeepsInv(s, actions);
    forall i | 0 <= i < |t.acceptors|
      ensures t.acceptors[i].took == t.msg[..t.idx]
              || (t.idx < |t.msg| && t.acceptors[i].took == t.msg[..t.idx + 1])
      ensures t.pc == Eoi || t.pc == Done ==> t.acceptors[i].took == t.msg[..t.idx]
    {
      assert InvAcceptor(t, t.acceptors[i]);
    }
    assert t.pc == Done ==> t.msg[..t.idx] == t.msg;
  }

  /** One call: after it returns every acceptor heard the byte once; after a timeout once or not at all.
      This is all that the bridge assumes of a handshake. */
  lemma OneCall(s: State, actions: seq<Action>)
    requires Initial(s) && |s.msg| == 1
    ensures var t := Run(s, actions);
      forall i | 0 <= i < |t.acceptors| ::
        && (t.pc == Done ==> t.acceptors[i].took == s.msg)
        && (t.pc == TimedOut ==> t.acceptors[i].took == [] || t.acceptors[i].took == s.msg)
  {
    HandshakeIsSafe(s, actions);
    RunKeepsInv(s, actions);
    var t := Run(s, actions);
    assert s.msg[..0] == [] && s.msg[..1] == s.msg;
    forall i | 0 <= i < |t.acceptors| && t.pc == TimedOut
      ensures t.acceptors[i].took == [] || t.acceptors[i].took == s.msg
    {
      assert t.idx == 0;
    }
  }

  /** Waiting for NRFD alone is enough: when the adapter is about to assert DAV every acceptor is ready
      and holds NDAC, so NDAC cannot be high before all have taken the byte. */
  lemma NrfdAloneSuffices(s: State)
    requires Inv(s) && s.pc == Assert
    ensures forall i | 0 <= i < |s.acceptors| :: s.acceptors[i].phase == ACRS && PullsNdac(s.acceptors[i])
    ensures |s.acceptors| > 0 ==> !NdacHigh(s)
  {
    forall i | 0 <= i < |s.acceptors| ensures s.acceptors[i].phase == ACRS {
      assert InvAcceptor(s, s.acceptors[i]);
    }
    if |s.acceptors| > 0 { assert PullsNdac(s.acceptors[0]); }
  }

  // ---- Progress -----------------------------------------------------------------------------

  /** Steps an acceptor can still make before it has taken `m` bytes and is ready again. */
  function Left(a: Acceptor, m: nat): int {
    4 * (m - |a.took|) + (match a.phase case ACDS => 0 case ACRS => 1 case ANRS => 2 case AWNS => 3)
  }

  function LeftAll(acceptors: seq<Acceptor>, m: nat): int {
    if acceptors == [] then 0 else Left(acceptors[0], m) + LeftAll(acceptors[1..], m)
  }

  function AdapterLeft(s: State): int {
    8 * (|s.msg| - s.idx) +
    match s.pc
    case Eoi => 1 case Setup => 0 case Ready => -1 case Assert => -2 case Accepted => -3
    case ReleaseDav(_) => -4 case ReleaseData(_) => -5 case ReleaseEoi => -6
    case Done => 0 case Recover => -7 case TimedOut => -8
  }

  function Rank(s: State): int { AdapterLeft(s) + LeftAll(s.acceptors, |s.msg|) }

  lemma {:induction false} LeftAllUpdate(acceptors: seq<Acceptor>, m: nat, i: nat, a: Acceptor)
    requires i < |acceptors|
    ensures LeftAll(acceptors[i := a], m) - LeftAll(acceptors, m) == Left(a, m) - Left(acceptors[i], m)
    decreases |acceptors|
  {
    var updated := acceptors[i := a];
    if i > 0 {
      assert updated[1..] == acceptors[1..][i - 1 := a];
      LeftAllUpdate(acceptors[1..], m, i - 1, a);
    } else {
      assert updated[1..] == acceptors[1..];
    }
  }

  lemma {:induction false} LeftAllNonNegative(acceptors: seq<Acceptor>, m: nat)
    requires forall i | 0 <= i < |acceptors| :: |acceptors[i].took| <= m
    ensures LeftAll(acceptors, m) >= 0
    decreases |acceptors|
  {
    if acceptors != [] { LeftAllNonNegative(acceptors[1..], m); }
  }

  /** Neither timed out nor on the way to it. */
  predicate Live(s: State) {
    s.pc != ReleaseDav(true) && s.pc != ReleaseData(true) && s.pc != Recover && s.pc != TimedOut
  }

  lemma AdapterRankDecreases(s: State)
    requires Inv(s) && Live(s)
    ensures StepAdapter(s, false) != s ==> AdapterLeft(StepAdapter(s, false)) < AdapterLeft(s)
    ensures StepAdapter(s, false).acceptors == s.acceptors && StepAdapter(s, false).msg == s.msg && AdapterLeft(s) >= -8
  {
    hide NrfdHigh, NdacHigh, InvAcceptor;
  }

  lemma AcceptorLeftDecreases(s: State, who: nat)
    requires Inv(s) && Live(s) && who < |s.acceptors|
    ensures var a := s.acceptors[who]; var b := StepAcceptor(a, s.dav, Lines(s));
      b != a ==> Left(b, |s.msg|) < Left(a, |s.msg|)
  {
    assert InvAcceptor(s, s.acceptors[who]);
  }

  lemma TookAtMost(s: State, who: nat)
    requires Inv(s) && who < |s.acceptors|
    ensures |s.acceptors[who].took| <= |s.msg|
  {
    assert InvAcceptor(s, s.acceptors[who]);
  }

  /** Without a timeout, every step that changes anything lowers the rank, which stays above -8. */
  lemma RankDecreases(s: State, a: Action)
    requires Inv(s) && a != Adapter(true) && Live(s)
    ensures Step(s, a) != s ==> Rank(Step(s, a)) < Rank(s)
    ensures Rank(s) >= -8
  {
    hide Inv, Left, AdapterLeft, StepAdapter, StepAcceptor, Lines, Live;
    InvBounds(s);
    forall i | 0 <= i < |s.acceptors| ensures |s.acceptors[i].took| <= |s.msg| { TookAtMost(s, i); }
    LeftAllNonNegative(s.acceptors, |s.msg|);
    AdapterRankDecreases(s);
    if a.Accept? && a.who < |s.acceptors| {
      AcceptorStepRank(s, a.who);
    }
  }

  lemma AcceptorStepRank(s: State, who: nat)
    requires Inv(s) && Live(s) && who < |s.acceptors| && s.idx <= |s.msg|
    ensures Step(s, Accept(who)) != s ==> Rank(Step(s, Accept(who))) < Rank(s)
  {
    hide Inv, Left, StepAcceptor, Lines;
    AcceptorLeftDecreases(s, who);
    var b := StepAcceptor(s.acceptors[who], s.dav, Lines(s));
    LeftAllUpdate(s.acceptors, |s.msg|, who, b);
    if b == s.acceptors[who] { assert s.acceptors[who := b] == s.acceptors; }
  }

  /** ... and until the message is sent there is such a step: the handshake cannot get stuck. */
  lemma NeverStuck(s: State) returns (a: Action)
    requires Inv(s) && s.pc != Done && s.pc != TimedOut
    ensures a != Adapter(true) && Step(s, a) != s
  {
    a := Adapter(false);
    if s.pc == Ready && !NrfdHigh(s) {
      var i :| 0 <= i < |s.acceptors| && PullsNrfd(s.acceptors[i]);
      assert InvAcceptor(s, s.acceptors[i]);
      a := Accept(i);
      assert Step(s, a).acceptors[i] != s.acceptors[i];
    } else if s.pc == Accepted && !NdacHigh(s) {
      var i :| 0 <= i < |s.acceptors| && PullsNdac(s.acceptors[i]);
      assert InvAcceptor(s, s.acceptors[i]);
      a := Accept(i);
      assert Step(s, a).acceptors[i] != s.acceptors[i];
    }
  }

  /** Each action of the run changes something and none is a timeout. */
  ghost predicate Effective(s: State, actions: seq<Action>)
    requires Inv(s)
    decreases |actions|
  {
    actions != [] ==>
      && actions[0] != Adapter(true) && Step(s, actions[0]) != s
      && (InvStep(s, actions[0]); Effective(Step(s, actions[0]), actions[1..]))
  }

  /** So without timeouts at most Rank + 8 steps are left, after which every acceptor has everything. */
  lemma {:induction false} RunsAreShort(s: State, actions: seq<Action>)
    requires Inv(s) && Effective(s, actions) && Live(s)
    ensures |actions| <= Rank(s) + 8
    decreases |actions|
  {
    if actions == [] {
      RankDecreases(s, Adapter(false));
    } else {
      InvStep(s, actions[0]);
      RankDecreases(s, actions[0]);
      RunsAreShort(Step(s, actions[0]), actions[1..]);
    }
  }
}

/** The acceptor handshake of gpib_readdat_quick, called again and again after gpib_make_talker,
    interleaved with a talker that conforms to the SH function of IEEE 488.1 (section 2.3) and with
    further listeners that pull NRFD and NDAC as they like. */
module AcceptorHandshake {
  import opened Gpib

  /** The talker: changing its data, data valid and waiting for NRFD, DAV asserted. */
  datatype Source = Generating | Waiting | Valid

  /** Where the adapter is: `Enter` releases ATN, then NDAC is pulled and NRFD released; `AwaitDav` and
      `AwaitRelease` are the wait loops; between them NRFD is pulled, the lines are read and NDAC is
      released. `Ended`: the call timed out. */
  datatype Pc =
    | Enter | HoldNdac | FreeNrfd | AwaitDav | HoldNrfd | Sample
    | FreeNdac(c: byte, eoi: bool) | AwaitRelease(c: byte, eoi: bool) | Return(c: byte, eoi: bool)
    | Recover | Ended

  /** `nrfd`, `ndac`: pulled by the adapter. `k`: bytes of `src` the talker has finished with. */
  datatype State = State(
    pc: Pc, atn: bool, nrfd: bool, ndac: bool, returned: seq<(byte, bool)>,
    source: Source, k: nat, src: seq<(byte, bool)>, dav: bool, lines: (byte, bool))

  /** The adapter moves, or the talker does while the other listeners pull the lines as given. */
  datatype Action = Adapter(expired: bool) | Talker(nrfdPulled: bool, ndacPulled: bool)

  function StepAdapter(s: State, expired: bool): State {
    match s.pc
    case Enter => s.(pc := HoldNdac, atn := false)
    case HoldNdac => s.(pc := FreeNrfd, ndac := true)
    case FreeNrfd => s.(pc := AwaitDav, nrfd := false)
    case AwaitDav => if expired then s.(pc := Recover) else if s.dav then s.(pc := HoldNrfd) else s
    case HoldNrfd => s.(pc := Sample, nrfd := true)
    case Sample => s.(pc := FreeNdac(s.lines.0, s.lines.1))
    case FreeNdac(c, eoi) => s.(pc := AwaitRelease(c, eoi), ndac := false)
    case AwaitRelease(c, eoi) =>
      if expired then s.(pc := Recover) else if !s.dav then s.(pc := Return(c, eoi)) else s
    case Return(c, eoi) => s.(pc := Enter, nrfd := true, returned := s.returned + [(c, eoi)])
    case Recover => s.(pc := Ended, nrfd := true, ndac := false)
    case Ended => s
  }

  /** A conforming talker: only while ATN is released, its data settled before DAV and held until DAV is
      released; DAV asserted only when NRFD is high and released only when NDAC is high. */
  function StepTalker(s: State, nrfdPulled: bool, ndacPulled: bool): State {
    if s.atn then s else
      match s.source
      case Generating => if s.k < |s.src| then s.(source := Waiting, lines := s.src[s.k]) else s
      case Waiting => if !s.nrfd && !nrfdPulled then s.(source := Valid, dav := true) else s
      case Valid => if !s.ndac && !ndacPulled then s.(source := Generating, dav := false, k := s.k + 1) else s
  }

  function Step(s: State, a: Action): State {
    match a
    case Adapter(expired) => StepAdapter(s, expired)
    case Talker(nrfdPulled, ndacPulled) => StepTalker(s, nrfdPulled, ndacPulled)
  }

  /** gpib_make_talker has returned: ATN still asserted, NDAC pulled, NRFD released. */
  ghost predicate Initial(s: State) {
    && s.pc == Enter && s.atn && s.ndac && !s.nrfd && s.returned == []
    && s.source == Generating && s.k == 0 && !s.dav
  }

  ghost predicate Inv(s: State) {
    && s.returned <= s.src && s.k <= |s.src|
    && s.dav == (s.source == Valid)
    && (s.source != Generating ==> s.k < |s.src| && s.lines == s.src[s.k])
    && (s.atn ==> s.pc == Enter && s.source == Generating && s.ndac)
    && (s.pc != Recover && s.pc != Ended ==> InvPc(s))
  }

  ghost predicate InvPc(s: State)
    requires s.returned <= s.src && s.pc != Recover && s.pc != Ended
  {
    var r := |s.returned|;
    && (s.nrfd || s.ndac)
    && match s.pc
       case Enter | HoldNdac => s.k == r && (s.source == Valid ==> s.ndac)
       case FreeNrfd => s.k == r && s.ndac
       case AwaitDav => s.k == r && s.ndac && !s.nrfd
       case HoldNrfd => s.k == r && s.ndac && s.source == Valid
       case Sample => s.k == r && s.ndac && s.nrfd && s.source == Valid
       case FreeNdac(c, eoi) => s.k == r && s.ndac && s.nrfd && s.source == Valid && (c, eoi) == s.lines
       case AwaitRelease(c, eoi) =>
         && s.nrfd && !s.ndac && r < |s.src| && (c, eoi) == s.src[r]
         && s.k == if s.source == Valid then r else r + 1
       case Return(c, eoi) => s.nrfd && s.source != Valid && r < |s.src| && (c, eoi) == s.src[r] && s.k == r + 1
  }

  lemma InvStep(s: State, a: Action)
    requires Inv(s)
    ensures Inv(Step(s, a))
  {
    var t := Step(s, a);
    if a.Adapter? && s.pc.Return? {
      assert t.returned == s.src[..|s.returned| + 1];
    }
  }

  ghost function Run(s: State, actions: seq<Action>): State
    decreases |actions|
  {
    if actions == [] then s else Run(Step(s, actions[0]), actions[1..])
  }

  lemma SourceKept(s: State, a: Action)
    ensures Step(s, a).src == s.src
  {
  }

  lemma {:induction false} RunKeepsInv(s: State, actions: seq<Action>)
    requires Inv(s)
    ensures Inv(Run(s, actions)) && Run(s, actions).src == s.src
    decreases |actions|
  {
    hide Inv, StepAdapter, StepTalker;
    if actions != [] {
      InvStep(s, actions[0]);
      SourceKept(s, actions[0]);
      RunKeepsInv(Step(s, actions[0]), actions[1..]);
    }
  }

  /** Safety for any talker, any other listeners and any interleaving. The calls that did not time out
      returned exactly the talker's first bytes with their EOI flags, in order, none lost or
      repeated; the talker is at most one byte ahead; and until a timeout ends the read the adapter
      never has NRFD and NDAC both released. */
  lemma ReadIsSafe(s: State, actions: seq<Action>)
    requires Initial(s)
    ensures Inv(s)
    ensures var t := Run(s, actions);
      && t.returned <= s.src
      && (t.pc != Recover && t.pc != Ended ==>
            && |t.returned| <= t.k <= |t.returned| + 1
            && (t.nrfd || t.ndac)
            && (t.k == |t.returned| + 1 ==> t.pc.AwaitRelease? || t.pc.Return?))
  {
    RunKeepsInv(s, actions);
  }

  /** The adapter reads the lines only while the talker holds the byte on them. */
  lemma SamplesStableData(s: State)
    requires Inv(s) && s.pc == Sample
    ensures s.dav && s.k < |s.src| && s.lines == s.src[s.k] && |s.returned| == s.k
    ensures forall nrfdPulled, ndacPulled ::
      Step(s, Talker(nrfdPulled, ndacPulled)).lines == s.lines && Step(s, Talker(nrfdPulled, ndacPulled)).dav
  {
  }

  /** No deadlock: while the talker has bytes left and the other listeners let go of the lines, the
      adapter or the talker can make a step. */
  lemma NeverStuck(s: State)
    requires Inv(s) && s.pc != Ended && |s.returned| < |s.src|
    ensures Step(s, Adapter(false)) != s || Step(s, Talker(false, false)) != s
  {
    if s.pc.Return? {
      assert |Step(s, Adapter(false)).returned| == |s.returned| + 1;
    }
  }

  // ---- Progress -----------------------------------------------------------------------------

  /** Neither timed out nor on the way to it. */
  predicate Live(s: State) { s.pc != Recover && s.pc != Ended }

  /** Steps left before the talker is out of bytes and the adapter waits for the next one. */
  function Rank(s: State): int {
    12 * (|s.src| - |s.returned|) + 3 * (|s.src| - s.k)
    + (match s.source case Generating => 2 case Waiting => 1 case Valid => 0)
    + match s.pc
      case Enter => 0 case HoldNdac => -1 case FreeNrfd => -2 case AwaitDav => -3 case HoldNrfd => -4
      case Sample => -5 case FreeNdac(_, _) => -6 case AwaitRelease(_, _) => -7 case Return(_, _) => -8
      case Recover => -9 case Ended => -10
  }

  /** Without a timeout every step of the adapter or the talker that changes anything lowers the rank,
      however the other listeners pull the lines. */
  lemma RankDecreases(s: State, a: Action)
    requires Inv(s) && Live(s) && a != Adapter(true)
    ensures Step(s, a) != s ==> Rank(Step(s, a)) < Rank(s)
    ensures Rank(s) >= -8
  {
    hide InvPc;
  }

  lemma StaysLive(s: State, a: Action)
    requires Live(s) && a != Adapter(true)
    ensures Live(Step(s, a)) && Step(s, a).src == s.src
  {
  }

  /** Each action of the run changes something and none is a timeout. */
  ghost predicate Effective(s: State, actions: seq<Action>)
    decreases |actions|
  {
    actions != [] ==>
      && actions[0] != Adapter(true) && Step(s, actions[0]) != s
      && Effective(Step(s, actions[0]), actions[1..])
  }

  /** So a read without timeouts takes a bounded number of steps, and with NeverStuck it delivers all the
      talker has to say. */
  lemma {:induction false} RunsAreShort(s: State, actions: seq<Action>)
    requires Inv(s) && Live(s) && Effective(s, actions)
    ensures |actions| <= Rank(s) + 8
    decreases |actions|
  {
    hide Inv, Rank, Step;
    if actions == [] {
      RankDecreases(s, Adapter(false));
    } else {
      InvStep(s, actions[0]);
      StaysLive(s, actions[0]);
      RankDecreases(s, actions[0]);
      RunsAreShort(Step(s, actions[0]), actions[1..]);
    }
  }
}

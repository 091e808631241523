/** The step-by-step handshakes give what the bridge assumes of one handshake: the instrument hears the byte
    once, or at most once if it times out; and reads take the talker's bytes one after the other. */
module Handshakes {
  import opened Gpib
  import Acceptor = AcceptorHandshake
  import Bridge
  import Source = SourceHandshake

  /** What the data lines and EOI carry for a message. */
  function LinesOf(m: Message): (byte, bool) {
    match m
    case Command(code) => (code, false)
    case Data(value, eoi) => (value, eoi)
  }

  /** A byte taken from the lines, as a device understands it. */
  function MessageOf(lines: (byte, bool), atn: bool): Message {
    if atn then Command(lines.0) else Data(lines.0, lines.1)
  }

  /** A device that took these bytes. */
  function HearTaken(d: Device, took: seq<(byte, bool)>, atn: bool): Device
    decreases |took|
  {
    if took == [] then d else HearTaken(Hear(d, MessageOf(took[0], atn)), took[1..], atn)
  }

  /** Any number of acceptors and any interleaving: when the call for message `m` is over, the instrument
      behind acceptor `i` is as the bridge says it is after one handshake, gpib_recover included. */
  lemma OneHandshake(s: Source.State, actions: seq<Source.Action>, m: Message, d: Device, i: nat)
    requires Source.Initial(s) && s.msg == [LinesOf(m)] && i < |s.acceptors|
    ensures Source.Inv(s)
    ensures var t := Source.Run(s, actions);
      && i < |t.acceptors|
      && var e := HearTaken(d, t.acceptors[i].took, m.Command?);
         && (t.pc == Source.Done ==> Bridge.Carried(d, m, false, e))
         && (t.pc == Source.TimedOut ==> Bridge.Carried(d, m, true, InterfaceClear(e)))
  {
    hide Hear;
    Source.HandshakeIsSafe(s, actions);
    Source.RunKeepsInv(s, actions);
    Source.OneCall(s, actions);
    var taken := [LinesOf(m)];
    assert taken[1..] == [] && MessageOf(taken[0], m.Command?) == m;
    assert HearTaken(d, taken, m.Command?) == HearTaken(Hear(d, m), taken[1..], m.Command?);
  }

  /** Read calls after gpib_make_talker that do not time out return what the talker says, in order: call
      number k returns byte number k. */
  lemma ReadCalls(s: Acceptor.State, actions: seq<Acceptor.Action>, talk: nat -> (byte, bool), k: nat)
    requires Acceptor.Initial(s) && forall i | 0 <= i < |s.src| :: s.src[i] == talk(i)
    ensures var t := Acceptor.Run(s, actions); k < |t.returned| ==> t.returned[k] == talk(k)
  {
    Acceptor.ReadIsSafe(s, actions);
  }
}

/** The bulk-IN responses of a run as the host decodes them: reading, end to end. */
module Responses {
  import opened Gpib
  import opened Trace
  import Bridge
  import Internals = InternalCommands
  import Usb = UsbPackets

  /** Which of the responses since the last flush were read from the instrument, oldest first. */
  function Origins(t: Trace): (origins: seq<bool>)
    ensures |origins| == |Usb.RepliesOf(t)| == |Served(t)|
  {
    if t.Start? || t.ev.Flushed? then []
    else if t.ev.Response? then Origins(t.past) + [true]
    else if t.ev.InternalResponse? then Origins(t.past) + [false]
    else Origins(t.past)
  }

  /** The payloads of the responses with that origin, concatenated. */
  function Payloads(rs: seq<Usb.Reply>, origins: seq<bool>, origin: bool): seq<byte>
    requires |rs| == |origins|
  {
    if rs == [] then []
    else
      var n := |rs| - 1;
      Payloads(rs[..n], origins[..n], origin) + if origins[n] == origin then rs[n].payload else []
  }

  lemma OneMorePayload(rs: seq<Usb.Reply>, origins: seq<bool>, r: Usb.Reply, o: bool)
    requires |rs| == |origins|
    ensures Payloads(rs + [r], origins + [o], true) == Payloads(rs, origins, true) + if o then r.payload else []
  {
    assert (rs + [r])[..|rs|] == rs && (origins + [o])[..|rs|] == origins;
  }

  lemma {:induction false} InstrumentPayloads(t: Trace)
    ensures Payloads(Usb.RepliesOf(t), Origins(t), true) == Delivered(t)
  {
    if t.Then? && !t.ev.Flushed? {
      InstrumentPayloads(t.past);
      match t.ev
      case Response(tag, _, _, mark, payload, eom) =>
        OneMorePayload(Usb.RepliesOf(t.past), Origins(t.past), Usb.Reply(tag, (eom, mark), payload), true);
      case InternalResponse(tag, _, _, mark, payload, eom) =>
        OneMorePayload(Usb.RepliesOf(t.past), Origins(t.past), Usb.Reply(tag, (eom, mark), payload), false);
      case _ =>
    }
  }

  /** Each response answers its request under the request's tag; and each of those of the instrument is what
      the talker says from the end of the one before it, cut at the first end or at the size asked for. */
  ghost predicate Cut(talk: Talk, rs: seq<Usb.Reply>, asks: seq<Ask>, origins: seq<bool>)
    requires |rs| == |asks| == |origins|
    decreases |rs|
  {
    rs == []
    || (var n := |rs| - 1;
        && Cut(talk, rs[..n], asks[..n], origins[..n])
        && rs[n].tag == asks[n].tag
        && (origins[n] ==>
              CutSound(talk, |Payloads(rs[..n], origins[..n], true)|, asks[n].want, asks[n].term, rs[n].payload,
                       rs[n].attributes.0)))
  }

  lemma OneMoreCut(talk: Talk, rs: seq<Usb.Reply>, asks: seq<Ask>, origins: seq<bool>, r: Usb.Reply, a: Ask, o: bool)
    requires |rs| == |asks| == |origins| && Cut(talk, rs, asks, origins) && r.tag == a.tag
    requires o ==> CutSound(talk, |Payloads(rs, origins, true)|, a.want, a.term, r.payload, r.attributes.0)
    ensures Cut(talk, rs + [r], asks + [a], origins + [o])
  {
    hide CutSound, Payloads;
    assert (rs + [r])[..|rs|] == rs && (asks + [a])[..|rs|] == asks && (origins + [o])[..|rs|] == origins;
  }

  lemma {:induction false} RepliesAreCut(talk: Talk, t: Trace)
    requires ReadsSound(talk, t)
    ensures Cut(talk, Usb.RepliesOf(t), Served(t), Origins(t))
  {
    if t.Then? && !t.ev.Flushed? {
      hide CutSound, Cut, Payloads;
      RepliesAreCut(talk, t.past);
      InstrumentPayloads(t.past);
      match t.ev
      case Response(tag, want, term, mark, payload, eom) =>
        OneMoreCut(talk, Usb.RepliesOf(t.past), Served(t.past), Origins(t.past), Usb.Reply(tag, (eom, mark), payload),
                   Ask(tag, want, term), true);
      case InternalResponse(tag, want, term, mark, payload, eom) =>
        OneMoreCut(talk, Usb.RepliesOf(t.past), Served(t.past), Origins(t.past), Usb.Reply(tag, (eom, mark), payload),
                   Ask(tag, want, term), false);
      case _ =>
    }
  }

  /** What the host decodes from the packets it got since the last flush: every response with its tag and
      end-of-message flag, cut as requested; and those of the instrument put together are what it said, from
      its first byte on. */
  ghost predicate HostGets(talk: Talk, t: Trace, packets: seq<Packet>) {
    var rs := Usb.RepliesOf(t);
    var ts := Usb.Transfers(packets, []);
    && |ts| == |rs|
    && (forall i | 0 <= i < |rs| :: Usb.Decode(ts[i]) == Some((rs[i].tag, rs[i].payload, rs[i].attributes.0)))
    && Cut(talk, rs, Served(t), Origins(t))
    && var said := Payloads(rs, Origins(t), true);
       forall i | 0 <= i < |said| :: said[i] == Spoken(talk, 0, i).0
  }

  lemma HostReceivesWhatWasSaid(talk: Talk, t: Trace, packets: seq<Packet>)
    requires ReadsSound(talk, t) && Usb.Short(Usb.RepliesOf(t)) && packets == Usb.Sent(Usb.RepliesOf(t))
    ensures HostGets(talk, t, packets)
  {
    hide Usb.Decode, Usb.Transfers, Usb.Sent, Cut;
    InstrumentPayloads(t);
    DeliveredIsSpoken(talk, t);
    RepliesAreCut(talk, t);
    Usb.HostDecodesReplies(Usb.RepliesOf(t));
  }

  /** Whatever the host sends to a freshly configured adapter and however the passes and control requests
      fall, internal commands and aborts included: as long as since the last flush nothing disturbs a message
      being read, the host gets what the instrument says from there on, cut as it asks, and the answers of
      internal commands in between; the read requests found among the packets are answered once and in order;
      and the adapter waits for ever only if the rest of a half-read answer is gone. */
  method ReadSession(addr: byte, device: Device, world: Bridge.World, settings: Internals.Settings,
      outq: seq<Packet>, passes: seq<Bridge.Pass>) returns (b: Bridge.Adapter)
    requires Designates(addr, device) && device.heard == [] && Bridge.MayPasses(world.host, passes)
    requires world.host.window.Some? ==> Bridge.InPlace(outq, 0, world.host.window)
    ensures Undisturbed(b.trace) ==>
      && ReadsSound(b.stream, b.trace) && HostGets(b.stream, b.trace, b.out.sent) && (b.stuck ==> Orphaned(b.trace))
    ensures NoAborts(b.trace) && Bridge.InPlace(b.base.outq, 0, world.host.window) && !b.stuck ==>
      Served(b.trace) + Bridge.Asks(b.outq, b.remaining) == Bridge.Asks(b.base.outq, 0)
    ensures Flushes(b.trace) == 0 ==> b.stream == world.talk && b.base.outq == outq
    ensures world.host.window.Some? ==> Undisturbed(b.trace) && Flushes(b.trace) == 0 && !b.stuck
    ensures AnswersSound(b.trace)
    ensures Internals.CommandsSound(b.trace, world.memory,
      Internals.Config(addr, settings, Internals.FirstTerm(settings)))
  {
    hide Undisturbed, NoAborts, ReadsSound, HostGets, Bridge.InPlace, Bridge.Asks, AnswersSound, Orphaned,
      Internals.CommandsSound, Bridge.Owed, Bridge.Adapter.Valid, Bridge.Adapter.ReadReady, Bridge.Adapter.Settled;
    b := new Bridge.Adapter(addr, device, world, settings, outq);
    b.KeptAtFirst();
    b.Run(passes);
    b.NotStuck();
    b.Facts();
    if Undisturbed(b.trace) {
      QuietIsUnaborted(b.trace);
      HostReceivesWhatWasSaid(b.stream, b.trace, b.out.sent);
    }
  }

  lemma QuietIsUnaborted(t: Trace)
    requires Undisturbed(t)
    ensures NoAborts(t)
  {
  }
}

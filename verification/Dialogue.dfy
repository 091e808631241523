/** Writing and reading in one session: a host that asks for whole messages. */
module Dialogue {
  import opened Bridge
  import opened Gpib
  import opened Trace
  import opened Transfers
  import Internals = InternalCommands
  import Responses
  import Usb = UsbPackets

  /** What the host does: a transfer to the instrument, a request to read, or a trigger. */
  datatype Message =
    | Write(transfer: Transfer)
    | Read(tag: byte, size: nat, term: Option<byte>)
    | Trigger(tag: byte)

  /** A REQUEST_DEV_DEP_MSG_IN header (USBTMC 1.0 section 3.2.1.2). */
  function ReadHeader(tag: byte, size: nat, term: Option<byte>): (h: seq<byte>)
    requires size < SIZE_LIMIT
    ensures |h| == HEADER
  {
    [MSG_IN, tag, 255 - tag, 0,
     size % 0x100, size / 0x100 % 0x100, size / 0x1_0000 % 0x100, size / 0x100_0000,
     if term.Some? then 2 else 0, if term.Some? then term.value else 0, 0, 0]
  }

  function PacketsOf(m: Message): seq<Packet>
    requires m.Write? ==> |m.transfer.payload| < SIZE_LIMIT
    requires m.Read? ==> m.size < SIZE_LIMIT
  {
    match m
    case Write(t) => Packets(t)
    case Read(tag, size, term) => [ReadHeader(tag, size, term)]
    case Trigger(tag) => [[MSG_TRIGGER, tag, 255 - tag, 0, 0, 0, 0, 0, 0, 0, 0, 0]]
  }

  /** Every read asks for `window` bytes at least. */
  ghost predicate Sound(ms: seq<Message>, window: nat) {
    forall i | 0 <= i < |ms| ::
      && (ms[i].Write? ==> |ms[i].transfer.payload| < SIZE_LIMIT)
      && (ms[i].Read? ==> window <= ms[i].size < SIZE_LIMIT)
  }

  function Stream(ms: seq<Message>, window: nat): seq<Packet>
    requires Sound(ms, window)
  {
    if ms == [] then [] else PacketsOf(ms[0]) + Stream(ms[1..], window)
  }

  /** What the instrument is meant to receive ... */
  ghost function Said(ms: seq<Message>): seq<(byte, bool)> {
    if ms == [] then []
    else (if ms[0].Write? then Mark(ms[0].transfer.payload, ms[0].transfer.eom) else []) + Said(ms[1..])
  }

  /** ... and what the host expects answers to. */
  ghost function Expected(ms: seq<Message>): seq<Ask> {
    if ms == [] then [] else AskOf(ms[0]) + Expected(ms[1..])
  }

  function AskOf(m: Message): seq<Ask> {
    if m.Read? then [Ask(m.tag, m.size, m.term)] else []
  }

  /** What the adapter reads from the header of a read request. */
  lemma ReadRequest(tag: byte, size: nat, term: Option<byte>)
    requires size < SIZE_LIMIT
    ensures var p := ReadHeader(tag, size, term);
      At(p, 0) == MSG_IN && TransferSize(p, 0) == size && AskAt(p, 0) == Ask(tag, size, term)
  {
    assert size / 0x1_0000 == size / 0x100 / 0x100 && size / 0x100_0000 == size / 0x1_0000 / 0x100;
  }

  /** A message in front of packets that owe `said` and ask for `asks`. */
  lemma OneMessage(m: Message, rest: seq<Packet>, window: nat, eom: bool, said: seq<(byte, bool)>, asks: seq<Ask>)
    requires m.Write? ==> |m.transfer.payload| < SIZE_LIMIT
    requires m.Read? ==> window <= m.size < SIZE_LIMIT
    requires Owed(rest, 0, 0, eom) == said && InPlace(rest, 0, Some(window)) && Asks(rest, 0) == asks
    ensures var q := PacketsOf(m) + rest;
      && Owed(q, 0, 0, eom) == (if m.Write? then Mark(m.transfer.payload, m.transfer.eom) else []) + said
      && InPlace(q, 0, Some(window)) && Asks(q, 0) == AskOf(m) + asks
  {
    hide Mark, Packets, ReadHeader, TransferSize;
    var q := PacketsOf(m) + rest;
    match m
    case Write(t) =>
      hide Owed, InPlace, Asks;
      OwedTransfer(t, rest, eom);
      OwedAtRest(rest, 0, t.eom, eom);
      InPlaceTransfer(t, rest, Some(window));
      AsksOfTransfer(t, rest);
    case Read(tag, size, term) =>
      ReadRequest(tag, size, term);
      assert q[1..] == rest;
    case Trigger(tag) =>
      assert q[1..] == rest;
  }

  /** The packets of the messages owe the instrument what is written, are in their places, and ask for the
      responses. */
  lemma {:induction false} StreamIsOrdered(ms: seq<Message>, window: nat, eom: bool)
    requires Sound(ms, window)
    ensures Owed(Stream(ms, window), 0, 0, eom) == Said(ms)
    ensures InPlace(Stream(ms, window), 0, Some(window)) && Asks(Stream(ms, window), 0) == Expected(ms)
    decreases |ms|
  {
    hide PacketsOf, Mark;
    if ms != [] {
      StreamIsOrdered(ms[1..], window, eom);
      OneMessage(ms[0], Stream(ms[1..], window), window, eom, Said(ms[1..]), Expected(ms[1..]));
    }
  }

  /** The responses `rs` to the requests `asks` are whole messages: each begins where the one before it ended
      and goes up to and including the first end. */
  ghost predicate WholeMessages(talk: Talk, rs: seq<Usb.Reply>, asks: seq<Ask>)
    requires |rs| == |asks|
    decreases |rs|
  {
    rs == []
    || (var n := |rs| - 1;
        && WholeMessages(talk, rs[..n], asks[..n])
        && rs[n].tag == asks[n].tag && rs[n].attributes.0
        && IsMessage(talk, |Everything(rs[..n])|, asks[n].term, rs[n].payload))
  }

  /** What the talker says from `pos` on up to and including the first end. */
  ghost predicate IsMessage(talk: Talk, pos: nat, term: Option<byte>, payload: seq<byte>) {
    && payload != []
    && (forall i | 0 <= i < |payload| :: payload[i] == Spoken(talk, pos, i).0)
    && (forall i | 0 <= i < |payload| :: Ends(Spoken(talk, pos, i), term) <==> i == |payload| - 1)
  }

  function Everything(rs: seq<Usb.Reply>): seq<byte> {
    if rs == [] then [] else Everything(rs[..|rs| - 1]) + rs[|rs| - 1].payload
  }

  /** There is at most one such message. */
  lemma MessageIsUnique(talk: Talk, pos: nat, term: Option<byte>, a: seq<byte>, b: seq<byte>)
    requires IsMessage(talk, pos, term, a) && IsMessage(talk, pos, term, b)
    ensures a == b
  {
    var i, j := |a| - 1, |b| - 1;
    assert Ends(Spoken(talk, pos, i), term) && Ends(Spoken(talk, pos, j), term);
  }

  lemma CutAtItsEnd(talk: Talk, pos: nat, want: nat, term: Option<byte>, payload: seq<byte>)
    requires CutSound(talk, pos, want, term, payload, true)
    ensures IsMessage(talk, pos, term, payload)
  {
  }

  /** Responses of the instrument that are cut as requested, and each of which ends its message, are whole
      messages. */
  lemma {:induction false} CutIntoMessages(talk: Talk, rs: seq<Usb.Reply>, asks: seq<Ask>, origins: seq<bool>)
    requires |rs| == |asks| == |origins| && Responses.Cut(talk, rs, asks, origins)
    requires forall i | 0 <= i < |rs| :: rs[i].attributes.0 && origins[i]
    ensures WholeMessages(talk, rs, asks) && Responses.Payloads(rs, origins, true) == Everything(rs)
    decreases |rs|
  {
    hide CutSound, IsMessage;
    if rs != [] {
      var n := |rs| - 1;
      CutIntoMessages(talk, rs[..n], asks[..n], origins[..n]);
      CutAtItsEnd(talk, |Everything(rs[..n])|, asks[n].want, asks[n].term, rs[n].payload);
    }
  }

  /** Without internal commands every response is one of the instrument's; each of them ended its message. */
  lemma {:induction false} WholeReplies(t: Trace)
    requires NoInternal(t) && AnswersSound(t) && WholeReads(t)
    ensures forall i | 0 <= i < |Usb.RepliesOf(t)| :: Usb.RepliesOf(t)[i].attributes.0 && Responses.Origins(t)[i]
  {
    if t.Then? && !t.ev.Flushed? {
      WholeReplies(t.past);
      NoInternalNoAnswer(t.past);
    }
  }

  /** A host writes, reads and triggers as it likes; each read asks for a whole message, which no message of
      the instrument exceeds; its control requests, which may fall anywhere, hold no INITIATE, no
      INDICATOR_PULSE and no READ_STATUS_BYTE. Then the adapter never waits for ever, and after as many
      passes that find a packet as there are packets the instrument has received all that was written, and
      the host has got as many responses as it made read requests, in order and under their tags: the k-th
      one is what the instrument says from the end of the one before it up to and including the first end. */
  method Converse(addr: byte, device: Device, world: World, settings: Internals.Settings, window: nat,
      ms: seq<Message>, passes: seq<Pass>) returns (b: Adapter)
    requires Designates(addr, device) && device.heard == []
    requires world.host.window == Some(window) && Sound(ms, window) && MayPasses(world.host, passes)
    ensures !b.stuck && b.inst.heard + Owed(b.outq, b.cursor, b.remaining, b.eom) == Said(ms)
    ensures ReadsSound(world.talk, b.trace) && Responses.HostGets(world.talk, b.trace, b.out.sent)
    ensures |Usb.RepliesOf(b.trace)| == |Served(b.trace)|
    ensures WholeMessages(world.talk, Usb.RepliesOf(b.trace), Served(b.trace))
    ensures Served(b.trace) + Asks(b.outq, b.remaining) == Expected(ms)
    ensures Seen(passes) >= |Stream(ms, window)| ==>
      b.outq == [] && b.inst.heard == Said(ms) && Served(b.trace) == Expected(ms)
  {
    hide InPlace, Stream, Said, Expected, NoAborts, NoInternal, ReadsSound, AnswersSound, WholeReads, Undisturbed,
      Responses.HostGets, Responses.Cut, WholeMessages, Adapter.Valid, Adapter.ReadReady, Adapter.Settled,
      Adapter.Kept, Adapter.Stopped, Owed, Asks, StatusConserved, SplitsSound, NoticesSound, AnswersOf, OrdersOf,
      OneAtATime, AnsweredOnce;
    b := new Adapter(addr, device, world, settings, Stream(ms, window));
    StreamIsOrdered(ms, window, false);
    b.KeptAtFirst();
    b.Run(passes);
    b.NotStuck();
    b.Facts();
    AllServed(b);
    Responses.HostReceivesWhatWasSaid(world.talk, b.trace, b.out.sent);
    WholeReplies(b.trace);
    GotMessages(world.talk, b.trace, b.out.sent);
  }

  /** What the packets asked for and owed is done, or still to be done. */
  lemma AllServed(b: Adapter)
    requires b.Kept() && Calm(b.trace) && InPlace(b.base.outq, 0, b.host.window) && !b.stuck
    ensures b.inst.heard + Owed(b.outq, b.cursor, b.remaining, b.eom)
      == b.base.heard + Owed(b.base.outq, 0, 0, b.base.eom)
    ensures Served(b.trace) + Asks(b.outq, b.remaining) == Asks(b.base.outq, 0)
    ensures b.taken >= |b.base.outq| ==>
      && b.outq == [] && b.inst.heard == b.base.heard + Owed(b.base.outq, 0, 0, b.base.eom)
      && Served(b.trace) == Asks(b.base.outq, 0)
  {
    hide InPlace, NoAborts, NoInternal, Suffix;
  }

  lemma GotMessages(talk: Talk, t: Trace, packets: seq<Packet>)
    requires Responses.HostGets(talk, t, packets)
    requires forall i | 0 <= i < |Usb.RepliesOf(t)| :: Usb.RepliesOf(t)[i].attributes.0 && Responses.Origins(t)[i]
    ensures |Usb.RepliesOf(t)| == |Served(t)| && WholeMessages(talk, Usb.RepliesOf(t), Served(t))
  {
    hide Responses.Cut, Usb.Transfers, Usb.Decode;
    CutIntoMessages(talk, Usb.RepliesOf(t), Served(t), Responses.Origins(t));
  }
}

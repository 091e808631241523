/** Runs of the adapter that show where the firmware does not do what it should. */
module Deviations {
  import opened Bridge
  import opened Gpib
  import opened Trace
  import Cmd = CommandParser
  import Internals = InternalCommands
  import Table = CommandTable

  /** A world in which no control request comes during a handshake and nothing times out. */
  function Still(host: Host, talk: Talk, memory: nat -> byte): (s: Surroundings)
    requires host.window.None?
    ensures Fair(s)
  {
    Surroundings(host, talk, _ => Slot([], false, false, 0, NOBODY), memory)
  }

  /** The host may ask for anything but aborts. */
  const QUERIES := Host(false, true, true, false, None)

  const ANYTHING := Host(true, true, true, false, None)

  /** An abort of a transfer that is not the current one is refused, and all the same the endpoints are
      flushed and the transfer state is reset. */
  method RefusedAbort(addr: byte, device: Device, talk: Talk, memory: nat -> byte, settings: Internals.Settings,
      outq: seq<Packet>) returns (b: Adapter)
    requires Designates(addr, device) && device.heard == []
    ensures b.trace == Then(Then(Start, Answered(Initiate(AbortOut, 7), [TRANSFER_NOT_IN_PROGRESS, 0], false)), Flushed)
    ensures b.remaining == 0 && !b.inst.listen && !b.inst.talk
  {
    b := new Adapter(addr, device, Still(ANYTHING, talk, memory), settings, outq);
    b.InitiateAbort(AbortOut, 7, false);
    b.Facts();
    assert b.trace.past == Start;
    assert OpenSplit(Start) == NoSplit && CurrentTag(Start) == 0;
    StillSettled(b.trace, b.writeBusy, b.remaining, b.inst.listen, b.stream, b.inLastComplete, b.inst.talk,
                 b.spoken);
    b.Epilogue(0);
  }

  /** The message spells command number `k`, in any mixture of cases. */
  ghost predicate Spells(msg: seq<byte>, k: nat) {
    k < Table.COUNT && Table.Listed(k).handler != Table.ADDR && Cmd.Text(Cmd.Strip(msg)) == Table.Listed(k).text
  }

  /** It is one of the four queries. */
  predicate Query(k: nat)
    requires k < Table.COUNT
  {
    var h := Table.Listed(k).handler;
    h == 5 || h == 9 || h == 11 || h == 21
  }

  lemma SpelledOut(msg: seq<byte>, k: nat, memory: nat -> byte, c: Internals.Config)
    requires Spells(msg, k)
    ensures var (d, answer) := Internals.Obey(msg, memory, c);
      d.addr == c.addr && |answer| < Internals.BUFFER && (answer != [] <==> Query(k))
      && answer == Internals.Handle(Table.Listed(k).handler, c.settings, c.term).2
  {
    hide Internals.Handle, Cmd.Text, Cmd.Strip, Cmd.Handled, Table.Listed;
    Cmd.CommandMessage(k, msg);
    Internals.QueriesAnswer(Table.Listed(k).handler, c.settings, c.term);
  }

  /** An internal command between passes leaves everything settled. */
  method Command(b: Adapter, msg: seq<byte>, k: nat)
    requires b.Settled() && b.host.pulses && b.remaining == 0 && Spells(msg, k)
    modifies b`out, b`config, b`inst, b`next, b`trace
    ensures b.Settled() && b.inst == old(b.inst) && b.out.pos == 0
    ensures b.out.answer == Internals.Handle(Table.Listed(k).handler, old(b.config.settings), old(b.config.term)).2
    ensures b.out.answer != [] <==> Query(k)
  {
    hide SplitInv, StatusInv, OutInv, JournalInv, ReadInv, WriteInv, FromRead, Designates, Spells, Internals.Obey,
      Internals.Handle, Query;
    SpelledOut(msg, k, b.world.memory, b.config);
    ghost var t := b.trace;
    b.RunInternal(msg);
    ReadAfterInternal(b.stream, t, msg, b.trace.ev.moved, b.trace.ev.answer, b.inLastComplete, b.inst.talk, b.inst.talk,
                      b.remaining, b.spoken);
    WriteAtRest(t, b.trace.ev, b.writeBusy, b.inst.listen, b.inst.listen);
    b.Facts();
  }

  /** A query, and a read of part of its answer. */
  method HalfRead(addr: byte, device: Device, talk: Talk, memory: nat -> byte, settings: Internals.Settings,
      query: seq<byte>, k: nat, part: nat, packets: seq<Packet>) returns (b: Adapter)
    requires Designates(addr, device) && device.heard == [] && |packets| == 2
    requires Spells(query, k) && Query(k)
    requires part < |Internals.Handle(Table.Listed(k).handler, settings, Internals.FirstTerm(settings)).2|
    ensures fresh(b) && fresh(b.readBuffer)
    ensures b.Settled() && b.host == QUERIES && b.remaining == 0 && |b.outq| == 1
    ensures !b.inLastComplete && !b.inst.talk && !b.split.handleSDC
  {
    hide SplitInv, StatusInv, OutInv, JournalInv, ReadInv, WriteInv, FromRead, Designates, Spells, Query,
      Internals.Handle, NoAborts, Since, Undisturbed, Orphaned;
    b := new Adapter(addr, device, Still(QUERIES, talk, memory), settings, packets);
    Command(b, query, k);
    b.HandleMsgIn(part, false, 0);
    b.Facts();
  }

  /** ... and another internal command: if that one is a query too, its answer is there to be read; if not,
      the next read of at least one byte waits for ever. */
  method HangingRead(addr: byte, device: Device, talk: Talk, memory: nat -> byte, settings: Internals.Settings,
      query: seq<byte>, k: nat, part: nat, command: seq<byte>, l: nat, want: nat, packets: seq<Packet>)
    returns (b: Adapter)
    requires Designates(addr, device) && device.heard == [] && |packets| == 2
    requires Spells(query, k) && Query(k) && Spells(command, l)
    requires part < |Internals.Handle(Table.Listed(k).handler, settings, Internals.FirstTerm(settings)).2|
    ensures if Query(l) then !b.stuck else b.stuck <==> want > 0
  {
    hide SplitInv, StatusInv, OutInv, JournalInv, ReadInv, WriteInv, FromRead, Designates, Spells, Query,
      Internals.Handle, NoAborts, Since, Undisturbed, Orphaned;
    b := HalfRead(addr, device, talk, memory, settings, query, k, part, packets);
    Command(b, command, l);
    b.HandleMsgIn(want, false, 0);
    b.Facts();
  }

  /** "ver?" and "term cr" are such commands. */
  lemma TwoCommands(settings: Internals.Settings)
    ensures Spells(Internals.Bytes("ver?"), 12) && Query(12) && Spells(Internals.Bytes("term cr"), 7) && !Query(7)
    ensures 1 < |Internals.Handle(Table.Listed(12).handler, settings, Internals.FirstTerm(settings)).2|
  {
    hide Spells, Internals.Bytes, Internals.FirstTerm;
    Plain("ver?", 12);
    Plain("term cr", 7);
  }

  lemma Plain(text: string, k: nat)
    requires k < Table.COUNT && Table.Listed(k).handler != Table.ADDR && Table.Listed(k).text == text
    requires forall i | 0 <= i < |text| :: ' ' <= text[i] < 128 as char && !('A' <= text[i] <= 'Z')
    ensures Spells(Internals.Bytes(text), k)
  {
    hide Cmd.Strip, Table.Listed;
    NothingStripped(Internals.Bytes(text));
  }

  lemma {:induction false} NothingStripped(msg: seq<byte>)
    requires forall i | 0 <= i < |msg| :: msg[i] >= 32
    ensures Cmd.Strip(msg) == msg
    decreases |msg|
  {
    if msg != [] { NothingStripped(msg[1..]); }
  }

  /** The instrument has been read part of a message and is asked for its status byte: it is no talker any
      more, and the next read of at least one byte waits for ever, unless an abort comes. */
  method PolledMessage(b: Adapter, tag: byte, want: nat, termEnabled: bool, termChar: byte)
    requires b.Settled() && !b.writeBusy && !b.split.handleSDC && b.remaining == 0 && b.outq != []
    requires InMessage(b.trace) && Undisturbed(b.trace) && b.MayAsk(ReadStatus(tag))
    modifies b, b.readBuffer
    ensures NoAborts(b.trace) ==> (b.stuck <==> want > 0)
  {
    hide SplitInv, StatusInv, OutInv, JournalInv, WriteInv, FromRead, Designates, Later, Since, Orphaned;
    NothingBuffered(b.trace, b.out, b.stream, b.inLastComplete, b.inst.talk, b.remaining, b.spoken);
    b.Facts();
    ghost var t := b.trace;
    b.StatusRequest(tag, false);
    LaterFacts(b.stream, t, b.trace);
    WriteLater(t, b.trace, b.writeBusy, b.inst.listen, b.inst.listen);
    b.HandleMsgIn(want, termEnabled, termChar);
  }

  lemma NothingBuffered(t: Trace, o: Out, talk: Talk, complete: bool, talking: bool, remaining: nat, spoken: nat)
    requires OutInv(t, o) && ReadInv(talk, t, complete, talking, remaining, spoken)
    requires InMessage(t) && Undisturbed(t)
    ensures o.answer == [] && !complete
  {
  }

  lemma WriteLater(t0: Trace, t1: Trace, writeBusy: bool, listening0: bool, listening1: bool)
    requires WriteInv(t0, writeBusy, 0, listening0) && (Calm(t1) ==> Calm(t0))
    ensures WriteInv(t1, writeBusy, 0, listening1)
  {
  }

  lemma ReadLater(talk: Talk, t0: Trace, t1: Trace, complete: bool, talking: bool, remaining: nat, spoken: nat)
    requires ReadInv(talk, t0, complete, talking, remaining, spoken) && Later(talk, t0, t1)
    ensures ReadInv(talk, t1, complete, talking, remaining, spoken)
  {
  }

  /** A host that asks for a status byte in handshake number `n`, and for an abort in the one after it. */
  function Hasty(n: nat, talk: Talk, memory: nat -> byte): (s: Surroundings)
    ensures Fair(s)
  {
    Surroundings(ANYTHING, talk,
      k => Slot(if k == n then [Some(ReadStatus(1))] else if k == n + 1 then [Some(Initiate(AbortIn, 7))] else [],
                false, false, 0, NOBODY),
      memory)
  }

  /** The packet `p` as ProcessSentMessage begins with it. */
  method Begun(addr: byte, device: Device, world: World, settings: Internals.Settings, p: Packet)
      returns (b: Adapter, first: byte)
    requires Designates(addr, device) && device.heard == []
    ensures fresh(b) && b.world == world && b.config.addr == addr && b.next == 0
    ensures b.Valid() && b.writeBusy && !b.status.pending && !b.split.inReset && !b.split.outReset
    ensures b.outq == [p] && b.cursor == HEADER + 1 && first == At(p, HEADER) && b.driven == [] && b.inst.heard == []
  {
    hide SplitInv, StatusInv, OutInv, JournalInv, Designates, Later, LaterByChunk, ReadInv, WriteInv;
    b := new Adapter(addr, device, world, settings, [p]);
    b.cursor := HEADER;
    first := b.ReadByte();
    b.BeginChunk(false);
  }

  /** ... and the instrument made listener before the two requests come. */
  method BeforeTheBytes(addr: byte, device: Device, talk: Talk, memory: nat -> byte, settings: Internals.Settings,
      p: Packet) returns (b: Adapter, first: byte)
    requires Designates(addr, device) && device.heard == []
    ensures fresh(b) && b.Valid() && b.writeBusy && b.inst.listen && b.AboutToBePolled()
    ensures b.outq == [p] && b.cursor == HEADER + 1 && first == At(p, HEADER) && b.driven == [] && b.inst.heard == []
  {
    hide Designates, ListenSequence, SplitInv, StatusInv, OutInv, JournalInv, Later;
    var n := |ListenSequence(addr)|;
    b, first := Begun(addr, device, Hasty(n, talk, memory), settings, p);
    var timedout := b.MakeListener();
  }

  /** A packet `p` with `length` payload bytes, more than one. A status request comes with its first byte, and an
      abort while the instrument is unaddressed for the poll. Then the remaining bytes are put on the bus one
      after the other and taken for sent, and nobody hears them. */
  method LostBytes(addr: byte, device: Device, talk: Talk, memory: nat -> byte, settings: Internals.Settings,
      p: Packet, length: nat, eoi: bool) returns (b: Adapter, timedout: bool)
    requires Designates(addr, device) && device.heard == [] && length > 1
    ensures var wire := Mark(Bytes(p, HEADER, length), eoi);
      !timedout && b.driven == wire && b.inst.heard == wire[..1]
  {
    hide Adapter.Valid, Adapter.AboutToBePolled, Mark, Bytes, Designates;
    var first;
    b, first := BeforeTheBytes(addr, device, talk, memory, settings, p);
    timedout := b.SendBytes(length, first, eoi);
  }

  /** The first packet of a transfer, which has more to come, and an abort of the transfer: the endpoints are
      flushed and nothing is written any more, but the adapter goes on to take a write for busy. */
  method AbortedWrite(addr: byte, device: Device, talk: Talk, memory: nat -> byte, settings: Internals.Settings,
      p: Packet, size: nat, transferTag: nat) returns (b: Adapter)
    requires Designates(addr, device) && device.heard == [] && size > EPSIZE - HEADER
    ensures fresh(b) && b.Settled() && b.writeBusy && b.remaining == 0 && !b.status.pending
    ensures b.trace.Then? && b.trace.ev == Flushed && b.host == ANYTHING
  {
    hide SplitInv, StatusInv, OutInv, JournalInv, Designates, Later, NoInternal, ReadInv, WriteInv, NoAborts,
      InMessage;
    b := new Adapter(addr, device, Still(ANYTHING, talk, memory), settings, [p]);
    b.HandleMsgOut(size, true);
    b.InitiateAbort(AbortOut, transferTag, false);
    b.Facts();
    StillSettled(b.trace, b.writeBusy, b.remaining, b.inst.listen, b.stream, b.inLastComplete, b.inst.talk, b.spoken);
    b.Epilogue(0);
  }

  /** ... and the next READ_STATUS_BYTE is not answered, but waits for a write. */
  method UnansweredStatus(addr: byte, device: Device, talk: Talk, memory: nat -> byte, settings: Internals.Settings,
      p: Packet, size: nat, transferTag: nat, tag: byte) returns (b: Adapter)
    requires Designates(addr, device) && device.heard == [] && size > EPSIZE - HEADER
    ensures b.remaining == 0 && b.status.pending && b.status.tag == tag
    ensures b.trace.Then? && b.trace.ev == Arrived(tag) && b.trace.past.Then? && b.trace.past.ev == Flushed
    ensures Outstanding(b.trace) == [tag]
  {
    hide Adapter.Valid, Adapter.WriteReady, Adapter.ReadReady, Designates;
    b := AbortedWrite(addr, device, talk, memory, settings, p, size, transferTag);
    b.StatusRequest(tag, false);
  }

  /** INITIATE_CLEAR in the middle of a read: the read is abandoned ... */
  method ClearedInRead(addr: byte, device: Device, talk: Talk, memory: nat -> byte, settings: Internals.Settings,
      want: nat) returns (b: Adapter)
    requires Designates(addr, device) && device.heard == []
    ensures fresh(b) && b.Settled() && b.world == Still(ANYTHING, talk, memory) && b.first.device == device
    ensures b.stream == talk
    ensures b.trace == Then(Then(Then(Start, TalkerAddressed), Answered(Initiate(Clear, 0), [SUCCESS], true)), Abandoned)
    ensures b.split.inReset && !b.split.handleSDC && b.split.inProgress == InitiateCode(Clear)
  {
    hide SplitInv, StatusInv, OutInv, JournalInv, Designates, Later;
    b := new Adapter(addr, device, Still(ANYTHING, talk, memory), settings, []);
    TalkerGrows(talk, Start);
    b.NoteTalker();
    b.InitiateClear(0, true);
    TalkerThenControl(talk, Start, Then(Start, TalkerAddressed), b.trace, true);
    b.FinishRead(want, 0, true, 0, Start, false, 0);
  }

  /** ... the endpoints are flushed, and CHECK_CLEAR answers SUCCESS; but the instrument has never been sent a
      device clear. */
  method LostClear(addr: byte, device: Device, talk: Talk, memory: nat -> byte, settings: Internals.Settings,
      want: nat) returns (b: Adapter)
    requires Designates(addr, device) && device.heard == []
    ensures b.trace.Then? && b.trace.ev.Answered? && b.trace.ev.r == Check(Clear) && Accepted(b.trace.ev.answer)
    ensures b.trace.past == Lost()
    ensures b.inst.obeyed == device.obeyed
  {
    hide SplitInv, StatusInv, OutInv, JournalInv, Designates, ReadInv, WriteInv, FromRead, Later, NoAborts, OrdersOf,
      AnswersOf;
    b := ClearedInRead(addr, device, talk, memory, settings, want);
    b.Epilogue(0);
    b.CheckRequest(Clear, false);
    ReadLater(b.stream, Lost(), b.trace, b.inLastComplete, b.inst.talk, b.remaining, b.spoken);
    b.Promises();
    NoneGiven();
    NothingObeyed(b.trace, device.obeyed, b.inst.obeyed);
  }

  /** INITIATE_CLEAR during a read, and the flush after it. */
  function Lost(): Trace {
    Then(Then(Then(Then(Start, TalkerAddressed), Answered(Initiate(Clear, 0), [SUCCESS], true)), Abandoned), Flushed)
  }

  lemma NoneGiven()
    ensures NoOrders(Lost())
  {
    assert NoOrders(Then(Start, TalkerAddressed));
    assert NoOrders(Then(Then(Start, TalkerAddressed), Answered(Initiate(Clear, 0), [SUCCESS], true)));
  }
}

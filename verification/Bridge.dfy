/** The USBTMC-to-GPIB bridge: TMC_Task, the bulk transfers and the control requests that reach
    it at its yield points. The globals of the firmware are the fields of `Adapter`; what the host,
    the bus and the timeouts do is read from scripts, so a statement about all scripts is a
    statement about all runs. */
module Bridge {
  import opened Gpib
  import opened Trace
  import Cmd = CommandParser
  import Internals = InternalCommands
  import Usb = UsbPackets

  // USBTMC message identifiers.
  const MSG_OUT: byte := 0x01
  const MSG_IN: byte := 0x02
  const MSG_TRIGGER: byte := 0x80
  const BANG: byte := 0x21

  /** One visit of USB_USBTask: it finds a control request or not. */
  type Visit = Option<Request>

  /** What happens during one handshake. With the callbacks of the bulk transfers, `visits` are the
      polls of the callback. With the counted timeout, `expires` says that it runs out. `took`: the
      instrument took the byte of a handshake that timed out. `status`: the byte of a serial poll.
      `other`: the instrument found when the adapter turns to another address. */
  datatype Slot = Slot(visits: seq<Visit>, expires: bool, took: bool, status: bv8, other: Device)

  /** What one pass of TMC_Task finds. `seenEarly` and `seen`: a bulk-OUT packet has arrived when
      the goto-local check and the header read look. `flush`: packets dropped by an abort. */
  datatype Pass = Pass(srq: bool, seenEarly: bool, seen: bool, flush: nat,
                       whileNotifying: seq<Visit>, whileReporting: seq<Visit>, after: Visit)

  // ---- The world around -----------------------------------------------------------------------

  /** What may be expected of the host's control requests: whether there are INITIATE requests, indicator
      pulses, READ_STATUS_BYTE requests; `patient`: it waits for the answer to a request before it makes
      the next one; `window`: each read asks for that many bytes at least, and no message of the
      instrument is longer. */
  datatype Host = Host(aborts: bool, pulses: bool, polls: bool, patient: bool, window: Option<nat>)

  predicate May(h: Host, r: Request) {
    (r.Initiate? ==> h.aborts) && (r.Pulse? ==> h.pulses) && (r.ReadStatus? ==> h.polls)
  }

  ghost predicate MayAll(h: Host, visits: seq<Visit>) {
    forall i | 0 <= i < |visits| :: visits[i].Some? ==> May(h, visits[i].value)
  }

  ghost predicate MayPass(h: Host, p: Pass) {
    MayAll(h, p.whileNotifying) && MayAll(h, p.whileReporting) && MayAll(h, [p.after])
  }

  ghost predicate MayPasses(h: Host, passes: seq<Pass>) {
    forall i | 0 <= i < |passes| :: MayPass(h, passes[i])
  }

  /** The host, what the talker says, what handshake number k finds, and what follows the number decoder's
      array in memory. */
  datatype Surroundings = Surroundings(host: Host, talk: Talk, slots: nat -> Slot, memory: nat -> byte)

  /** From `pos` on a message ends within `n` bytes. */
  ghost predicate EndsFrom(talk: Talk, pos: nat, n: nat) {
    exists i | 0 <= i < n :: Spoken(talk, pos, i).1
  }

  ghost predicate Fair(s: Surroundings) {
    && (forall k: nat :: MayAll(s.host, s.slots(k).visits))
    && match s.host.window
       case None => true
       case Some(n) =>
         && !s.host.aborts && !s.host.pulses && !s.host.polls
         && n <= READ_BUFFER && forall pos: nat :: EndsFrom(s.talk, pos, n)
  }

  const NOBODY := Device(1, None, false, false, false, false, false, [], [], [])

  type World = s: Surroundings | Fair(s)
    witness Surroundings(Host(true, true, true, false, None), _ => (0, true),
                         _ => Slot([], false, false, 0, NOBODY), _ => 0)

  // ---- The bulk-OUT stream, decoded ----------------------------------------------------------

  /** Byte `i` of a packet; the endpoint FIFO gives 0 beyond its end. */
  function At(p: Packet, i: nat): byte { if i < |p| then p[i] else 0 }

  function Bytes(p: Packet, from: nat, n: nat): (r: seq<byte>)
    ensures |r| == n
  {
    seq<byte>(n, i requires 0 <= i => At(p, from + i))
  }

  function Min(a: nat, b: nat): nat { if a <= b then a else b }

  /** TransferSize, little endian at offset 4 of the header. */
  function TransferSize(p: Packet, at: nat): nat {
    At(p, at + 4) + 0x100 * At(p, at + 5) + 0x1_0000 * At(p, at + 6) + 0x100_0000 * At(p, at + 7)
  }

  /** Payload bytes as the instrument is to receive them: EOI on the last one if asked for. */
  function Mark(chunk: seq<byte>, eoi: bool): (r: seq<(byte, bool)>)
    ensures |r| == |chunk|
  {
    seq(|chunk|, i requires 0 <= i < |chunk| => (chunk[i], eoi && i == |chunk| - 1))
  }

  lemma WireAt(p: Packet, from: nat, n: nat, eoi: bool, k: nat)
    requires k < n
    ensures var wire := Mark(Bytes(p, from, n), eoi);
      wire[k] == (At(p, from + k), k == n - 1 && eoi) && wire[..n] == wire
  {
  }

  /** One element more of `wire` behind `before`. */
  lemma OneMoreSent(before: seq<(byte, bool)>, wire: seq<(byte, bool)>, k: nat)
    requires k < |wire|
    ensures before + wire[..k] + [wire[k]] == before + wire[..k + 1]
  {
  }

  /** What the bulk-OUT packets `q` still owe the instrument, when `remaining` bytes of a transfer
      are open, `eom` is its end-of-message bit and `cursor` bytes of the first packet are read. */
  function Owed(q: seq<Packet>, cursor: nat, remaining: nat, eom: bool): seq<(byte, bool)>
    decreases |q|, if q == [] then 0 else |q[0]| - cursor
  {
    if q == [] then []
    else if remaining > 0 then
      var n := Min(EPSIZE, remaining);
      Mark(Bytes(q[0], cursor, n), eom && n == remaining) + Owed(q[1..], 0, remaining - n, eom)
    else if At(q[0], cursor) == MSG_OUT then
      var size := TransferSize(q[0], cursor);
      var n := Min(EPSIZE - HEADER, size);
      var last := At(q[0], cursor + 8) != 0;
      Mark(Bytes(q[0], cursor + HEADER, n), last && n == size) + Owed(q[1..], 0, size - n, last)
    else if At(q[0], cursor) == MSG_IN || At(q[0], cursor) == MSG_TRIGGER then Owed(q[1..], 0, 0, eom)
    else if cursor + HEADER < |q[0]| then Owed(q, cursor + HEADER, 0, eom)
    else []
  }

  /** The packets are transfers to the instrument, triggers and read requests, each packet in its place; a host
      that reads whole messages asks for enough. */
  predicate InPlace(q: seq<Packet>, remaining: nat, window: Option<nat>)
    decreases |q|
  {
    q == []
    || (remaining > 0 && InPlace(q[1..], remaining - Min(EPSIZE, remaining), window))
    || (remaining == 0 && At(q[0], 0) == MSG_TRIGGER && InPlace(q[1..], 0, window))
    || (remaining == 0 && At(q[0], 0) == MSG_OUT
        && InPlace(q[1..], TransferSize(q[0], 0) - Min(EPSIZE - HEADER, TransferSize(q[0], 0)), window))
    || (remaining == 0 && At(q[0], 0) == MSG_IN && (window.Some? ==> window.value <= TransferSize(q[0], 0))
        && InPlace(q[1..], 0, window))
  }

  lemma InPlaceTail(q: seq<Packet>, remaining: nat, window: Option<nat>)
    requires InPlace(q, remaining, window) && q != [] && remaining > 0
    ensures InPlace(q[1..], remaining - Min(EPSIZE, remaining), window)
  {
  }

  /** The read request whose header begins at `at`. */
  function AskAt(p: Packet, at: nat): Ask {
    Ask(At(p, at + 1), TransferSize(p, at), if At(p, at + 8) / 2 % 2 == 1 then Some(At(p, at + 9)) else None)
  }

  /** The read requests among packets that are in place. */
  function Asks(q: seq<Packet>, remaining: nat): seq<Ask>
    decreases |q|
  {
    if q == [] then []
    else if remaining > 0 then Asks(q[1..], remaining - Min(EPSIZE, remaining))
    else if At(q[0], 0) == MSG_OUT then
      Asks(q[1..], TransferSize(q[0], 0) - Min(EPSIZE - HEADER, TransferSize(q[0], 0)))
    else if At(q[0], 0) == MSG_IN then [AskAt(q[0], 0)] + Asks(q[1..], 0)
    else Asks(q[1..], 0)
  }

  /** How many of the passes find a packet. */
  function Seen(passes: seq<Pass>): nat {
    if passes == [] then 0 else Seen(passes[..|passes| - 1]) + if passes[|passes| - 1].seen then 1 else 0
  }

  // ---- The firmware's globals, grouped -------------------------------------------------------

  /** RequestInProgress, the two reset flags, the device clear that waits, CurrentTransferTag. */
  datatype SplitVars = SplitVars(inProgress: byte, inReset: bool, outReset: bool, handleSDC: bool, currentTag: byte)

  /** handleReadStatusByte and its tag, and srq_statusbyte. */
  datatype StatusVars = StatusVars(pending: bool, tag: byte, srq: bv8)

  /** What REN_CONTROL asks for. */
  datatype Remote = AsIs | Remote(on: bool)

  /** A packet on the interrupt endpoint. */
  datatype Interrupt = Interrupt(tag: byte, value: bv8)

  /** Requests that wait to be served, the remote enable line, and the status reply (tag and byte) still to
      be repeated on the notification endpoint. */
  datatype Requests = Requests(lockout: bool, goToLocal: bool, renControl: Remote, ren: bool,
                               mightBeParameter: bool, notice: Copy)

  /** The answer of an internal command, how much of it has been read, and the packets sent so far. */
  datatype Out = Out(answer: seq<byte>, pos: nat, sent: seq<Packet>)

  lemma OneMoreServed(t: Trace)
    requires t.Then? && (t.ev.Response? || t.ev.InternalResponse?)
    ensures Served(t) == Served(t.past) + [Ask(t.ev.tag, t.ev.want, t.ev.term)]
  {
  }

  lemma SameServed(t0: Trace, t1: Trace)
    requires t1.Then? && t1.past == t0 && !t1.ev.Response? && !t1.ev.InternalResponse? && !t1.ev.Flushed?
    ensures Served(t1) == Served(t0)
  {
  }

  /** A further packet of a transfer. */
  lemma AfterChunk(q: seq<Packet>, cursor: nat, remaining: nat, eom: bool)
    requires q != [] && remaining > 0
    ensures var n := Min(EPSIZE, remaining);
      && Asks(q, remaining) == Asks(q[1..], remaining - n)
      && Owed(q, cursor, remaining, eom)
         == Mark(Bytes(q[0], cursor, n), eom && n == remaining) + Owed(q[1..], 0, remaining - n, eom)
  {
  }

  /** What the talker says after its first `n` bytes. */
  function From(talk: Talk, n: nat): Talk { (i: nat) => talk(n + i) }

  /** What the instrument had received when the endpoints were flushed, and the packets that were left; `eom` is
      the end-of-message bit last seen. */
  datatype Base = Base(heard: seq<(byte, bool)>, outq: seq<Packet>, eom: bool)

  /** `q` is what is left of `was`. */
  ghost predicate Suffix(q: seq<Packet>, was: seq<Packet>) {
    |q| <= |was| && q == was[|was| - |q|..]
  }

  lemma SuffixItself(q: seq<Packet>)
    ensures Suffix(q, q)
  {
  }

  lemma SuffixTail(q: seq<Packet>, was: seq<Packet>)
    requires Suffix(q, was)
    ensures q != [] ==> Suffix(q[1..], was)
  {
  }

  lemma SuffixTransitive(a: seq<Packet>, b: seq<Packet>, c: seq<Packet>)
    requires Suffix(b, c)
    ensures Suffix(a, b) ==> Suffix(a, c)
  {
  }

  // ---- Relations between histories -----------------------------------------------------------

  /** The history only grew, and by nothing that concerns bulk-IN messages. */
  ghost predicate Later(talk: Talk, t0: Trace, t1: Trace) {
    && Extends(t1, t0)
    && Flushes(t1) == Flushes(t0)
    && (NoAborts(t1) ==> NoAborts(t0))
    && (NoInternal(t1) <==> NoInternal(t0))
    && (OneAtATime(t1) ==> OneAtATime(t0))
    && (ReadsUndisturbed(t1) ==> ReadsUndisturbed(t0))
    && SameReads(talk, t0, t1)
    && Buffered(t1) == Buffered(t0)
  }

  /** Nothing was read. */
  ghost predicate SameReads(talk: Talk, t0: Trace, t1: Trace) {
    && InMessage(t1) == InMessage(t0)
    && Delivered(t1) == Delivered(t0)
    && Partial(t1) == Partial(t0)
    && Served(t1) == Served(t0)
    && (ReadsSound(talk, t1) <==> ReadsSound(talk, t0))
  }

  /** The history records that request `r` was taken, and answered unless it is deferred. */
  ghost predicate Took(r: Request, reading: bool, deferred: bool, t0: Trace, t1: Trace) {
    if r.ReadStatus? then
      var arrived := Then(t0, Arrived(r.tag));
      if deferred then t1 == arrived
      else t1.Then? && t1.past == arrived && t1.ev.StatusReply? && t1.ev.tag == r.tag
    else t1.Then? && t1.ev.Answered? && t1 == Then(t0, Answered(r, t1.ev.answer, reading))
  }

  /** The same for a history to which a bulk-OUT packet was added as well; it may have been an internal
      command, which gives a new answer. */
  ghost predicate LaterByChunk(talk: Talk, t0: Trace, t1: Trace) {
    && Extends(t1, t0)
    && Flushes(t1) == Flushes(t0)
    && (NoAborts(t1) ==> NoAborts(t0))
    && (NoInternal(t1) ==> NoInternal(t0))
    && (OneAtATime(t1) ==> OneAtATime(t0))
    && (ReadsUndisturbed(t1) ==> ReadsUndisturbed(t0) && !InMessage(t0))
    && SameReads(talk, t0, t1)
  }

  /** The same for a history to which the addressing of the talker may have been added. */
  ghost predicate LaterByTalk(talk: Talk, t0: Trace, t1: Trace, addressed: bool) {
    && Extends(t1, t0)
    && Flushes(t1) == Flushes(t0)
    && (NoAborts(t1) ==> NoAborts(t0))
    && (NoInternal(t1) <==> NoInternal(t0))
    && (OneAtATime(t1) ==> OneAtATime(t0))
    && (ReadsUndisturbed(t1) ==> ReadsUndisturbed(t0))
    && InMessage(t1) == (addressed || InMessage(t0))
    && Delivered(t1) == Delivered(t0)
    && Partial(t1) == Partial(t0)
    && Buffered(t1) == Buffered(t0)
    && Served(t1) == Served(t0)
    && (ReadsSound(talk, t1) <==> ReadsSound(talk, t0) && (addressed ==> !InMessage(t0)))
  }

  /** The history grew, and there was no flush. */
  ghost predicate Since(t0: Trace, t1: Trace) {
    && Extends(t1, t0)
    && Flushes(t1) == Flushes(t0)
    && (NoAborts(t1) ==> NoAborts(t0))
    && (NoInternal(t1) ==> NoInternal(t0))
  }

  lemma SinceItself(t: Trace)
    ensures Since(t, t)
  {
  }

  lemma SinceOne(t: Trace, e: Event)
    requires !e.Flushed?
    ensures Since(t, Then(t, e))
  {
    assert Extends(t, t);
  }

  lemma SinceNoFlush(t0: Trace, t1: Trace)
    requires Since(t0, t1)
    ensures Extends(t1, t0) && Flushes(t1) == Flushes(t0)
  {
  }

  lemma ExtendsItself(t: Trace)
    ensures Extends(t, t)
  {
  }

  lemma {:induction false} MoreFlushes(t: Trace, base: Trace)
    requires Extends(t, base)
    ensures Flushes(t) >= Flushes(base)
    decreases t
  {
    if t != base { MoreFlushes(t.past, base); }
  }

  /** A flush, perhaps after a device clear. */
  lemma FlushCounted(t0: Trace, t1: Trace)
    requires t1.Then? && t1.ev.Flushed? && (t1.past == t0 || (t1.past.Then? && t1.past.past == t0))
    ensures Extends(t1, t0) && Flushes(t1) > Flushes(t0) && Served(t1) == []
  {
    ExtendsItself(t0);
    MoreFlushes(t1.past, t0);
  }

  lemma SinceTransitive(t0: Trace, t1: Trace, t2: Trace)
    requires Since(t0, t1) && Since(t1, t2)
    ensures Since(t0, t2)
  {
    ExtendsTransitive(t2, t1, t0);
  }

  lemma SinceLater(talk: Talk, t0: Trace, t1: Trace)
    requires Later(talk, t0, t1)
    ensures Since(t0, t1) && Served(t1) == Served(t0)
  {
  }

  lemma SinceChunk(talk: Talk, t0: Trace, t1: Trace)
    requires LaterByChunk(talk, t0, t1)
    ensures Since(t0, t1) && Served(t1) == Served(t0) && InMessage(t1) == InMessage(t0)
  {
  }

  lemma SinceCalm(t0: Trace, t1: Trace)
    requires Since(t0, t1)
    ensures (Calm(t1) ==> Calm(t0)) && (NoAborts(t1) ==> NoAborts(t0))
  {
  }

  lemma ChunkGrows(talk: Talk, t: Trace, isInternal: bool)
    ensures LaterByChunk(talk, t, Then(t, ChunkBegun(isInternal)))
    ensures NoInternal(Then(t, ChunkBegun(isInternal))) ==> !isInternal
  {
    assert Extends(t, t);
  }

  lemma InternalGrows(talk: Talk, t0: Trace, t1: Trace, msg: seq<byte>, moved: bool, answer: seq<byte>)
    requires LaterByChunk(talk, t0, t1)
    ensures LaterByChunk(talk, t0, Then(t1, Internal(msg, moved, answer)))
  {
  }

  lemma ChunkThenControl(talk: Talk, t0: Trace, t1: Trace, t2: Trace)
    requires LaterByChunk(talk, t0, t1) && Later(talk, t1, t2)
    ensures LaterByChunk(talk, t0, t2) && (Calm(t2) ==> Calm(t1)) && (Undisturbed(t2) ==> Undisturbed(t1))
    ensures NoAborts(t2) ==> NoAborts(t1)
  {
    ExtendsTransitive(t2, t1, t0);
  }

  lemma TalkerGrows(talk: Talk, t: Trace)
    ensures LaterByTalk(talk, t, t, false) && LaterByTalk(talk, t, Then(t, TalkerAddressed), true)
    ensures InMessage(Then(t, TalkerAddressed)) && (Calm(Then(t, TalkerAddressed)) ==> Calm(t))
    ensures Undisturbed(Then(t, TalkerAddressed)) ==> Undisturbed(t)
  {
    assert Extends(t, t);
  }

  lemma TalkerThenControl(talk: Talk, t0: Trace, t1: Trace, t2: Trace, addressed: bool)
    requires LaterByTalk(talk, t0, t1, addressed) && Later(talk, t1, t2)
    ensures LaterByTalk(talk, t0, t2, addressed) && InMessage(t2) == InMessage(t1)
    ensures (Calm(t2) ==> Calm(t1)) && (Undisturbed(t2) ==> Undisturbed(t1) && Undisturbed(t0))
    ensures NoAborts(t2) ==> NoAborts(t1) && NoAborts(t0)
  {
    ExtendsTransitive(t2, t1, t0);
  }

  lemma DoneGrows(talk: Talk, t: Trace)
    ensures Later(talk, t, Then(t, WriteDone))
  {
    assert Extends(t, t);
  }

  lemma LaterTransitive(talk: Talk, t0: Trace, t1: Trace, t2: Trace)
    requires Later(talk, t0, t1) && Later(talk, t1, t2)
    ensures Later(talk, t0, t2)
  {
    ExtendsTransitive(t2, t1, t0);
  }

  /** What growth keeps. */
  lemma LaterFacts(talk: Talk, t0: Trace, t1: Trace)
    requires Later(talk, t0, t1)
    ensures (NoAborts(t1) ==> NoAborts(t0)) && (Calm(t1) ==> Calm(t0)) && (Undisturbed(t1) ==> Undisturbed(t0))
    ensures (ReadsUndisturbed(t1) ==> ReadsUndisturbed(t0)) && (OneAtATime(t1) ==> OneAtATime(t0))
    ensures InMessage(t1) == InMessage(t0)
  {
  }

  // ---- The invariants ------------------------------------------------------------------------

  /** The split transaction variables agree with the history. */
  ghost predicate SplitInv(t: Trace, v: SplitVars) {
    var s := OpenSplit(t);
    && v.inReset == OwesIn(t)
    && v.outReset == OwesOut(t)
    && v.currentTag == CurrentTag(t)
    && v.inProgress == (if s.NoSplit? then 0 else InitiateCode(s.which))
    && (s.Open? && !s.flushed ==>
          && (s.which != AbortOut ==> v.inReset)
          && (s.which != AbortIn ==> v.outReset))
    && (v.handleSDC ==> s.Open? && s.which == Clear && !s.flushed && s.sdcs == 0)
    && (s.Open? && s.which == Clear ==> s.sdcs == if s.inRead || v.handleSDC then 0 else 1)
    && SplitsSound(t)
  }

  /** A clear that came during a bulk-IN read waits for its device clear. */
  ghost predicate LostClear(t: Trace, v: SplitVars) { v.handleSDC && FromRead(t) }

  /** The deferred status request agrees with the history, as far as the host keeps to one request
      at a time. */
  ghost predicate PollInv(t: Trace, v: StatusVars, writeBusy: bool) {
    OneAtATime(t) ==>
      && Outstanding(t) == (if v.pending then [v.tag] else [])
      && AnsweredOnce(t)
      && (v.pending && NoAborts(t) ==> writeBusy)
  }

  /** What is promised about status bytes. */
  ghost predicate StatusInv(t: Trace, v: StatusVars, writeBusy: bool) {
    v.srq == Unreported(t) && StatusConserved(t) && PollInv(t, v, writeBusy)
  }

  /** One outstanding request, with everything in order so far. */
  ghost predicate AwaitsReply(t: Trace, v: StatusVars) {
    && v.srq == Unreported(t) && StatusConserved(t)
    && (OneAtATime(t) ==> Outstanding(t) == [v.tag] && AnsweredOnce(t))
  }

  /** The buffered answer is the one of the history, responses have come from the right place, and the
      packets sent are those of the responses. */
  ghost predicate OutInv(t: Trace, o: Out) {
    && o.pos <= |o.answer| < Internals.BUFFER && (o.answer != [] ==> o.pos < |o.answer|)
    && Buffered(t) == o.answer[o.pos..]
    && AnswersSound(t)
    && (NoAborts(t) ==> Usb.Short(Usb.RepliesOf(t)) && o.sent == Usb.Sent(Usb.RepliesOf(t)))
  }

  ghost predicate WriteInv(t: Trace, writeBusy: bool, remaining: nat, listening: bool) {
    Calm(t) && remaining > 0 ==> writeBusy && listening
  }

  ghost predicate ReadInv(talk: Talk, t: Trace, complete: bool, talking: bool, remaining: nat, spoken: nat) {
    Undisturbed(t) ==>
      && complete == !(InMessage(t) || Partial(t))
      && talking == InMessage(t)
      && (InMessage(t) ==> remaining == 0 && !Partial(t) && Buffered(t) == [])
      && spoken == |Delivered(t)| && ReadsSound(talk, t)
  }

  /** A flush leaves the transfer state as it is after start-up. */
  lemma FreshAfterFlush(talk: Talk, t: Trace, writeBusy: bool)
    ensures var u := Then(t, Flushed);
      && WriteInv(u, writeBusy, 0, false) && ReadInv(talk, u, true, false, 0, 0) && !InMessage(u) && NoAborts(u)
  {
  }

  /** A notice changes nothing for transfers. */
  lemma NoticeKeeps(talk: Talk, t: Trace, e: Event, writeBusy: bool, remaining: nat, listening: bool, complete: bool,
                    talking: bool, spoken: nat)
    requires e.Noticed? && WriteInv(t, writeBusy, remaining, listening)
    requires ReadInv(talk, t, complete, talking, remaining, spoken)
    ensures var u := Then(t, e);
      && WriteInv(u, writeBusy, remaining, listening) && ReadInv(talk, u, complete, talking, remaining, spoken)
      && InMessage(u) == InMessage(t)
  {
  }

  lemma WriteAtRest(t: Trace, e: Event, writeBusy: bool, listening0: bool, listening1: bool)
    requires WriteInv(t, writeBusy, 0, listening0)
    ensures WriteInv(Then(t, e), writeBusy, 0, listening1)
  {
  }

  lemma ReadAfterTrigger(talk: Talk, t: Trace, recovered: bool, complete: bool, talking0: bool, talking1: bool,
                         remaining: nat, spoken: nat)
    requires ReadInv(talk, t, complete, talking0, remaining, spoken) && !talking1
    ensures ReadInv(talk, Then(t, Triggered(recovered)), complete, talking1, remaining, spoken)
  {
  }

  lemma ReadAfterHeader(talk: Talk, t: Trace, tag: byte, complete: bool, talking: bool, remaining: nat, spoken: nat)
    requires ReadInv(talk, t, complete, talking, remaining, spoken)
    ensures ReadInv(talk, Then(t, Header(tag)), complete, talking, remaining, spoken)
  {
  }

  lemma ReadAfterInternal(talk: Talk, t: Trace, msg: seq<byte>, moved: bool, answer: seq<byte>,
                          complete: bool, talking0: bool, talking1: bool, remaining: nat, spoken: nat)
    requires ReadInv(talk, t, complete, talking0, remaining, spoken) && (!moved ==> talking1 == talking0)
    ensures ReadInv(talk, Then(t, Internal(msg, moved, answer)), complete, talking1, remaining, spoken)
  {
  }

  lemma ReadAfterEndChar(talk: Talk, t: Trace, c: byte, complete: bool, talking: bool, remaining: nat, spoken: nat)
    requires ReadInv(talk, t, complete, talking, remaining, spoken)
    ensures ReadInv(talk, Then(t, EndChar(c)), complete, talking, remaining, spoken)
  {
  }

  lemma ReadAfterChunk(talk: Talk, t0: Trace, t1: Trace, complete: bool, talking0: bool, remaining0: nat,
                       talking1: bool, remaining1: nat, spoken: nat)
    requires ReadInv(talk, t0, complete, talking0, remaining0, spoken) && LaterByChunk(talk, t0, t1)
    requires Undisturbed(t1) && !talking0 ==> !talking1
    ensures ReadInv(talk, t1, complete, talking1, remaining1, spoken)
    ensures Calm(t1) ==> Calm(t0)
  {
  }

  lemma ReadAfterResponse(talk: Talk, t0: Trace, t1: Trace, complete: bool, talking0: bool, talking1: bool,
                          spoken: nat, now: nat, tag: byte, want: nat, term: Option<byte>, mark: byte,
                          payload: seq<byte>, last: bool)
    requires ReadInv(talk, t0, complete, talking0, 0, spoken) && LaterByTalk(talk, t0, t1, complete)
    requires Buffered(t0) == []
    requires Undisturbed(t1) ==>
      && talking1 == (InMessage(t1) && !last) && (InMessage(t1) || payload == []) && now == spoken + |payload|
      && CutSound(talk, spoken, Limit(want), term, payload, last)
    ensures ReadInv(talk, Then(t1, Response(tag, want, term, mark, payload, last)), last, talking1, 0, now)
    ensures Calm(t1) ==> Calm(t0)
  {
    var t2 := Then(t1, Response(tag, want, term, mark, payload, last));
    if Undisturbed(t2) {
      assert Undisturbed(t1) && Undisturbed(t0);
      assert CutSound(talk, spoken, want, term, payload, last);
    }
  }

  /** A response from the buffered answer. */
  lemma ReadAfterAnswer(talk: Talk, t: Trace, complete: bool, talking: bool, spoken: nat,
                        tag: byte, want: nat, term: Option<byte>, mark: byte, payload: seq<byte>, last: bool)
    requires ReadInv(talk, t, complete, talking, 0, spoken)
    requires Buffered(t) != [] && last == (want >= |Buffered(t)|)
    requires payload == if want < |Buffered(t)| then Buffered(t)[..want] else Buffered(t)
    ensures ReadInv(talk, Then(t, InternalResponse(tag, want, term, mark, payload, last)), last, talking, 0, spoken)
  {
  }

  /** When the instrument is not addressed and does not talk, the read finds nobody. */
  lemma WhoTalks(talk: Talk, t: Trace, complete: bool, talking: bool, remaining: nat, spoken: nat)
    requires ReadInv(talk, t, complete, talking, remaining, spoken) && Buffered(t) == []
    ensures Undisturbed(t) ==>
      && talking == InMessage(t) && (!complete && !InMessage(t) <==> Orphaned(t)) && (complete ==> !InMessage(t))
  {
  }

  /** `payload` has been read from position `pos` on, and only its last byte can be an end. */
  ghost predicate HaveRead(talk: Talk, pos: nat, payload: seq<byte>, term: Option<byte>, eoi: bool) {
    && (forall i | 0 <= i < |payload| :: payload[i] == Spoken(talk, pos, i).0)
    && (forall i | 0 <= i < |payload| - 1 :: !Ends(Spoken(talk, pos, i), term))
    && (eoi <==> payload != [] && Ends(Spoken(talk, pos, |payload| - 1), term))
  }

  lemma OneMoreRead(talk: Talk, pos: nat, payload: seq<byte>, term: Option<byte>)
    ensures HaveRead(talk, pos, [], term, false)
    ensures HaveRead(talk, pos, payload, term, false) ==>
      var b := Spoken(talk, pos, |payload|); HaveRead(talk, pos, payload + [b.0], term, Ends(b, term))
  {
    hide Ends, Spoken;
  }

  lemma SpokenAt(talk: Talk, pos: nat, i: nat)
    ensures Spoken(talk, pos, i) == talk(pos + i)
  {
  }

  lemma LaterItself(talk: Talk, t: Trace)
    ensures Later(talk, t, t)
  {
  }

  lemma ReadToLimit(talk: Talk, pos: nat, maxlen: nat, term: Option<byte>, payload: seq<byte>, eoi: bool)
    requires |payload| <= maxlen <= READ_BUFFER && (eoi || |payload| == maxlen)
    ensures HaveRead(talk, pos, payload, term, eoi) ==> CutSound(talk, pos, maxlen, term, payload, eoi)
  {
    hide Ends, Spoken;
  }

  /** A request for no bytes is answered by none. */
  lemma CutNothing(talk: Talk, pos: nat, term: Option<byte>, payload: seq<byte>)
    requires payload == []
    ensures CutSound(talk, pos, 0, term, payload, false)
  {
  }

  // ---- Status bytes, event by event ----------------------------------------------------------

  /** A status request taken while no write is busy is answered on the spot. */
  lemma StatusArrives(t: Trace, v: StatusVars, tag: byte)
    requires StatusInv(t, v, false)
    ensures AwaitsReply(Then(t, Arrived(tag)), v.(tag := tag))
  {
  }

  lemma StatusAfterReply(t: Trace, v: StatusVars, polled: bv8, writeBusy: bool)
    requires AwaitsReply(t, v)
    ensures StatusInv(Then(t, StatusReply(v.tag, polled, polled | v.srq)), StatusVars(false, v.tag, 0), writeBusy)
  {
    var u := Then(t, StatusReply(v.tag, polled, polled | v.srq));
    assert Unreported(u) == 0 && StatusConserved(u);
    if OneAtATime(u) { AnswerLeavesNone(t, v.tag, polled, polled | v.srq); }
  }

  lemma AnswerLeavesNone(t: Trace, tag: byte, polled: bv8, reply: bv8)
    requires Outstanding(t) == [tag] && AnsweredOnce(t)
    ensures var u := Then(t, StatusReply(tag, polled, reply)); Outstanding(u) == [] && AnsweredOnce(u)
  {
  }

  /** One taken while a write is busy waits. */
  lemma StatusDeferred(t: Trace, v: StatusVars, tag: byte)
    requires StatusInv(t, v, true)
    ensures StatusInv(Then(t, Arrived(tag)), v.(pending := true, tag := tag), true)
  {
  }

  /** A packet, and the end of a transfer with nothing outstanding, keep the status promises. */
  lemma StatusAfterChunk(t: Trace, e: Event, v: StatusVars, writeBusy: bool)
    requires StatusInv(t, v, writeBusy)
    requires e.ChunkBegun? || (e.WriteDone? && (NoAborts(t) ==> !v.pending))
    ensures StatusInv(Then(t, e), v, writeBusy)
  {
  }

  lemma StatusWhileBusy(t: Trace, v: StatusVars, writeBusy: bool)
    requires StatusInv(t, v, writeBusy)
    ensures StatusInv(t, v, true)
    ensures !v.pending ==> StatusInv(t, v, false)
  {
  }

  /** A pending request can be answered. */
  lemma StillPending(t: Trace, v: StatusVars, writeBusy: bool)
    requires StatusInv(t, v, writeBusy) && v.pending
    ensures AwaitsReply(t, v)
  {
  }

  /** A status reply came in between. */
  ghost predicate Replied(t0: Trace, t1: Trace) {
    exists u :: Extends(t1, u) && Extends(u, t0) && u.Then? && u.ev.StatusReply?
  }

  lemma ReplyIsThere(talk: Talk, t0: Trace, t1: Trace, t2: Trace, t3: Trace)
    requires Later(talk, t0, t1) && Later(talk, t2, t3) && t2.Then? && t2.past == t1 && t2.ev.StatusReply?
    ensures Replied(t0, t3)
  {
    assert Extends(t3, t2) && Extends(t2, t0);
  }

  /** In an undisturbed history the address stays. */
  lemma Unmoved(t: Trace)
    requires t.Then? && t.ev.Internal?
    ensures Undisturbed(t) ==> !t.ev.moved
  {
  }

  lemma NotCalm(t: Trace)
    requires t.Then? && t.ev.Internal?
    ensures !Calm(t)
  {
  }

  /** With no request pending, none is outstanding. */
  lemma NothingOutstanding(t: Trace, v: StatusVars, writeBusy: bool)
    requires StatusInv(t, v, writeBusy) && !v.pending
    ensures OneAtATime(t) ==> Outstanding(t) == []
  {
  }

  /** A reset drops a pending request. */
  lemma StatusAfterReset(t: Trace, e: Event, v: StatusVars, writeBusy: bool)
    requires StatusInv(t, v, writeBusy) && Reset(e)
    ensures StatusInv(Then(t, e), v.(pending := false), writeBusy)
  {
  }

  /** Events that concern no status byte. */
  lemma StatusUntouched(t: Trace, e: Event, v: StatusVars, writeBusy: bool)
    requires StatusInv(t, v, writeBusy)
    requires !e.Arrived? && !e.StatusReply? && !e.AutoPoll? && !e.WriteDone? && !Reset(e)
    ensures StatusInv(Then(t, e), v, writeBusy)
  {
  }

  /** An SRQ poll adds its bits, RQS excepted, to those still to be reported. */
  lemma StatusAfterAutoPoll(t: Trace, polled: bv8, v: StatusVars, writeBusy: bool)
    requires StatusInv(t, v, writeBusy)
    ensures StatusInv(Then(t, AutoPoll(polled)), v.(srq := WithNew(v.srq, polled)), writeBusy)
  {
    hide PollInv;
    PollInvAfterAutoPoll(t, polled, v, WithNew(v.srq, polled), writeBusy);
  }

  lemma PollInvAfterAutoPoll(t: Trace, polled: bv8, v: StatusVars, srq: bv8, writeBusy: bool)
    requires PollInv(t, v, writeBusy)
    ensures PollInv(Then(t, AutoPoll(polled)), v.(srq := srq), writeBusy)
  {
  }

  lemma ControlEventGrows(talk: Talk, t: Trace, e: Event)
    requires e.Arrived? || e.StatusReply? || e.Answered?
    ensures Later(talk, t, Then(t, e))
  {
    assert Extends(t, t);
  }

  // ---- Split transactions, event by event ----------------------------------------------------

  /** An INITIATE raises its flags whether or not it is accepted; only a clear waits for acceptance. */
  lemma SplitAfterInitiate(t: Trace, v: SplitVars, w: Split, transferTag: nat, answer: seq<byte>, reading: bool)
    requires SplitInv(t, v)
    requires AnswerSound(t, Initiate(w, transferTag), answer)
    ensures var ok := Accepted(answer);
      SplitInv(Then(t, Answered(Initiate(w, transferTag), answer, reading)),
        SplitVars(if ok then InitiateCode(w) else v.inProgress,
          v.inReset || w == AbortIn || (w == Clear && ok),
          v.outReset || w == AbortOut || (w == Clear && ok),
          v.handleSDC || (w == Clear && ok), v.currentTag))
  {
  }

  lemma SplitAfterCheck(t: Trace, v: SplitVars, w: Split, answer: seq<byte>, reading: bool)
    requires SplitInv(t, v)
    requires AnswerSound(t, Check(w), answer)
    ensures SplitInv(Then(t, Answered(Check(w), answer, reading)),
        v.(inProgress := if Accepted(answer) then 0 else v.inProgress))
  {
  }

  /** The device clear that an accepted INITIATE_CLEAR asked for is sent. */
  lemma SplitAfterSdc(t: Trace, v: SplitVars, recovered: bool)
    requires SplitInv(t, v) && v.handleSDC && !FromRead(t)
    ensures SplitInv(Then(t, SdcCalled(recovered)), v.(handleSDC := false))
    ensures !FromRead(Then(t, SdcCalled(recovered)))
  {
  }

  /** A flush settles what was owed, provided no device clear waits. */
  lemma SplitAfterFlush(t: Trace, v: SplitVars)
    requires SplitInv(t, v) && !v.handleSDC
    ensures SplitInv(Then(t, Flushed), v.(inReset := false, outReset := false))
  {
  }

  lemma SplitAfterHeader(t: Trace, v: SplitVars, tag: byte)
    requires SplitInv(t, v)
    ensures SplitInv(Then(t, Header(tag)), v.(currentTag := tag))
    ensures FromRead(Then(t, Header(tag))) == FromRead(t)
  {
  }

  /** A device clear asked for during a read is dropped with the read. */
  lemma SplitAfterAbandon(t: Trace, v: SplitVars)
    requires SplitInv(t, v) && (v.handleSDC ==> FromRead(t))
    ensures SplitInv(Then(t, Abandoned), v.(handleSDC := false))
    ensures FromRead(Then(t, Abandoned)) == FromRead(t)
  {
  }

  lemma SplitFacts(t: Trace, v: SplitVars)
    requires SplitInv(t, v)
    ensures v.handleSDC ==> v.inReset && v.outReset
    ensures NoAborts(t) <==> !v.inReset && !v.outReset
    ensures NoAborts(t) ==> !v.handleSDC
    ensures v.currentTag == CurrentTag(t) && SplitsSound(t)
    ensures v.inReset == OwesIn(t) && v.outReset == OwesOut(t)
  {
    NoAbortsOweNothing(t);
  }

  /** Events that have nothing to do with split transactions. */
  lemma SplitUntouched(t: Trace, e: Event, v: SplitVars)
    requires SplitInv(t, v)
    requires !e.SdcCalled? && !e.Flushed? && !e.Header?
    requires e.Answered? ==> !e.r.Initiate? && !e.r.Check? && AnswerSound(t, e.r, e.answer)
    ensures SplitInv(Then(t, e), v)
    ensures LostClear(Then(t, e), v) == LostClear(t, v)
    ensures FromRead(Then(t, e)) == FromRead(t)
  {
  }

  // ---- Responses, event by event -------------------------------------------------------------

  lemma OutUntouched(t: Trace, e: Event, o: Out)
    requires OutInv(t, o)
    requires !e.Internal? && !e.InternalResponse? && !e.Response? && !e.Flushed? && !e.Abandoned?
    requires e.TalkerAddressed? ==> o.answer == []
    ensures OutInv(Then(t, e), o)
  {
  }

  /** The end of an internal command: its answer, if any, replaces the previous one. */
  lemma OutAfterInternal(t: Trace, o: Out, msg: seq<byte>, moved: bool, answer: seq<byte>)
    requires OutInv(t, o) && |answer| < Internals.BUFFER
    ensures OutInv(Then(t, Internal(msg, moved, answer)), o.(answer := answer, pos := 0))
  {
  }

  /** A reset of the transfer state drops the answer; a flush drops what was sent before it. */
  lemma OutAfterReset(t: Trace, e: Event, o: Out, sent: seq<Packet>)
    requires OutInv(t, o) && Reset(e) && !NoAborts(t) && (e.Flushed? ==> sent == [])
    ensures OutInv(Then(t, e), Out([], 0, sent))
  {
  }

  lemma OutAfterResponse(t: Trace, o: Out, want: nat, term: Option<byte>, mark: byte, payload: seq<byte>, eom: bool)
    requires OutInv(t, o) && o.answer == [] && |payload| <= READ_BUFFER
    ensures var tag := CurrentTag(t);
      OutInv(Then(t, Response(tag, want, term, mark, payload, eom)),
        o.(sent := o.sent + Usb.Packetise(Usb.Data(Usb.Reply(tag, (eom, mark), payload)))))
  {
    hide Usb.Packetise, Usb.Data, Usb.Sent;
    if NoAborts(t) { Usb.SentAppend(Usb.RepliesOf(t), Usb.Reply(CurrentTag(t), (eom, mark), payload)); }
  }

  lemma OutAfterAnswer(t: Trace, o: Out, want: nat, term: Option<byte>, mark: byte)
    requires OutInv(t, o) && o.answer != []
    ensures var tag := CurrentTag(t); var n := Min(|o.answer| - o.pos, want);
      var payload := o.answer[o.pos..o.pos + n]; var last := o.pos + n >= |o.answer|;
      && OutInv(Then(t, InternalResponse(tag, want, term, mark, payload, last)),
           Out(if last then [] else o.answer, if last then 0 else o.pos + n,
             o.sent + Usb.Packetise(Usb.Data(Usb.Reply(tag, (last, mark), payload)))))
      && Buffered(t) != [] && last == (want >= |Buffered(t)|)
      && payload == if want < |Buffered(t)| then Buffered(t)[..want] else Buffered(t)
  {
    hide Usb.Packetise, Usb.Data, Usb.Sent, OutInv, Buffered;
    AnswerFits(t, o);
    var n := Min(|o.answer| - o.pos, want);
    BufferedIs(t, o);
    var payload, last := o.answer[o.pos..o.pos + n], o.pos + n >= |o.answer|;
    AnswerParts(o.answer, o.pos, want);
    OutAfterPart(t, o, want, term, mark, payload, last);
  }

  /** The part of an answer that is given, and the part that is left. */
  lemma AnswerParts(answer: seq<byte>, pos: nat, want: nat)
    requires pos < |answer|
    ensures var n := Min(|answer| - pos, want); var b := answer[pos..];
      && answer[pos..pos + n] == (if want < |b| then b[..want] else b)
      && b[n..] == answer[pos + n..]
      && (pos + n >= |answer|) == (want >= |b|)
  {
  }

  lemma OutAfterPart(t: Trace, o: Out, want: nat, term: Option<byte>, mark: byte, payload: seq<byte>, last: bool)
    requires OutInv(t, o) && o.answer != []
    requires last == (want >= |Buffered(t)|)
    requires payload == if want < |Buffered(t)| then Buffered(t)[..want] else Buffered(t)
    ensures var tag := CurrentTag(t);
      OutInv(Then(t, InternalResponse(tag, want, term, mark, payload, last)),
        Out(if last then [] else o.answer, if last then 0 else o.pos + |payload|,
          o.sent + Usb.Packetise(Usb.Data(Usb.Reply(tag, (last, mark), payload)))))
  {
    hide Usb.Packetise, Usb.Data, Usb.Sent;
    assert Buffered(t)[|payload|..] == o.answer[o.pos + |payload|..];
    if NoAborts(t) { Usb.SentAppend(Usb.RepliesOf(t), Usb.Reply(CurrentTag(t), (last, mark), payload)); }
  }

  lemma AnswerFits(t: Trace, o: Out)
    requires OutInv(t, o)
    ensures o.pos <= |o.answer| <= READ_BUFFER && (o.answer != [] ==> o.pos < |o.answer|)
  {
  }

  lemma BufferedIs(t: Trace, o: Out)
    requires OutInv(t, o)
    ensures o.pos <= |o.answer| && Buffered(t) == o.answer[o.pos..]
  {
  }

  lemma AnswerRead(t: Trace, o: Out)
    requires OutInv(t, o) && o.answer == []
    ensures Buffered(t) == []
  {
  }

  /** A whole message fits a request. */
  lemma WholeMessage(talk: Talk, pos: nat, n: nat, want: nat, term: Option<byte>, payload: seq<byte>, eom: bool)
    requires EndsFrom(talk, pos, n) && n <= Limit(want) && CutSound(talk, pos, want, term, payload, eom)
    ensures eom
  {
    var i :| 0 <= i < n && Spoken(talk, pos, i).1;
    assert Ends(Spoken(talk, pos, i), term);
  }

  // ---- The log, event by event ---------------------------------------------------------------

  /** The history is one of a host that behaves as described. */
  ghost predicate Behaved(h: Host, t: Trace) {
    && (!h.aborts ==> NoAborts(t) && Flushes(t) == 0)
    && (!h.pulses ==> NoInternal(t))
    && (h.patient ==> OneAtATime(t))
    && (h.window.Some? ==> ReadsUndisturbed(t) && WholeReads(t))
  }

  /** ... and its internal commands did what they should, which led to the present configuration. */
  ghost predicate LogInv(w: World, first: Internals.Config, t: Trace, config: Internals.Config) {
    && Behaved(w.host, t)
    && Internals.CommandsSound(t, w.memory, first)
    && config == Internals.ConfigAfter(t, w.memory, first)
  }

  /** An event that such a host can cause now. */
  ghost predicate Permitted(h: Host, t: Trace, e: Event) {
    && (e.Answered? ==> May(h, e.r))
    && (e == ChunkBegun(true) || e.Internal? ==> h.pulses)
    && (e.Answered? || e.Arrived? ==> h.patient ==> Outstanding(t) == [])
    && (e.Flushed? ==> h.aborts)
    && (h.window.Some? ==> (Disturbs(e) ==> !InMessage(t)) && (e.Response? ==> e.eom))
  }

  lemma LogUntouched(w: World, first: Internals.Config, t: Trace, e: Event, config: Internals.Config)
    requires LogInv(w, first, t, config) && Permitted(w.host, t, e) && !e.Internal? && !e.EndChar?
    ensures LogInv(w, first, Then(t, e), config)
  {
  }

  lemma LogAfterInternal(w: World, first: Internals.Config, t: Trace, config: Internals.Config, msg: seq<byte>)
    requires LogInv(w, first, t, config) && w.host.pulses && w.host.window.None?
    ensures var (d, answer) := Internals.Obey(msg, w.memory, config);
      LogInv(w, first, Then(t, Internal(msg, d.addr != config.addr, answer)), d)
  {
    hide Internals.Obey;
  }

  lemma LogAfterEndChar(w: World, first: Internals.Config, t: Trace, config: Internals.Config, c: byte)
    requires LogInv(w, first, t, config)
    ensures LogInv(w, first, Then(t, EndChar(c)), config.(term := c))
  {
  }

  lemma LogFacts(w: World, first: Internals.Config, t: Trace, config: Internals.Config)
    requires LogInv(w, first, t, config)
    ensures Behaved(w.host, t)
    ensures w.host.window.Some? ==> Undisturbed(t) && NoAborts(t) && NoInternal(t) && WholeReads(t)
    ensures w.host.window.Some? ==> !w.host.aborts && !w.host.pulses && !w.host.polls
  {
  }

  /** What the instrument answered and obeyed agrees with the history. */
  ghost predicate DeviceInv(t: Trace, d: Device, answered: seq<bv8>, obeyed: seq<byte>) {
    AnswersOf(t, d.answered, answered) && OrdersOf(t, d.obeyed, obeyed)
  }

  /** What goes out on the interrupt endpoint: the byte of each SRQ poll, and the notices. */
  function InterruptsOf(t: Trace): seq<Interrupt> {
    if t.Start? then []
    else
      match t.ev
      case AutoPoll(polled) => InterruptsOf(t.past) + [Interrupt(0x81, WithRqs(polled))]
      case Noticed(tag, value) => InterruptsOf(t.past) + [Interrupt(OnInterrupt(tag), value)]
      case _ => InterruptsOf(t.past)
  }

  /** The interrupt packets and the reply still to be repeated are those of the history. */
  ghost predicate NoticeInv(t: Trace, notice: Copy, interrupts: seq<Interrupt>) {
    notice == ToNotice(t) && interrupts == InterruptsOf(t) && NoticesSound(t)
  }

  /** The configuration and the instrument at the beginning. */
  datatype First = First(config: Internals.Config, device: Device)

  /** What is checked against the history as a whole. */
  datatype Journal = Journal(config: Internals.Config, answered: seq<bv8>, obeyed: seq<byte>, mayCommand: bool,
                             pending: bool, notice: Copy, interrupts: seq<Interrupt>, stream: Talk)

  /** The history is one of this host, and agrees with what was configured, with what the instrument did and
      with the interrupt packets. */
  ghost predicate JournalInv(w: World, first: First, t: Trace, j: Journal) {
    && LogInv(w, first.config, t, j.config)
    && DeviceInv(t, first.device, j.answered, j.obeyed)
    && NoticeInv(t, j.notice, j.interrupts)
    && (j.mayCommand ==> w.host.pulses)
    && (j.pending ==> w.host.polls)
    && (!w.host.aborts ==> j.stream == w.talk)
  }

  lemma JournalFacts(w: World, first: First, t: Trace, j: Journal)
    requires JournalInv(w, first, t, j)
    ensures Behaved(w.host, t) && (w.host.aborts || (NoAborts(t) && Flushes(t) == 0))
    ensures w.host.window.Some? ==> Undisturbed(t) && NoAborts(t) && NoInternal(t) && WholeReads(t)
    ensures w.host.window.Some? ==> !w.host.aborts && !w.host.pulses && !w.host.polls
    ensures (j.mayCommand ==> w.host.pulses) && (j.pending ==> w.host.polls) && (!w.host.aborts ==> j.stream == w.talk)
  {
    hide DeviceInv, NoticeInv;
    LogFacts(w, first.config, t, j.config);
  }

  /** Events that neither the configuration nor the instrument's log nor the interrupt endpoint is concerned
      with. */
  lemma JournalUntouched(w: World, first: First, t: Trace, e: Event, j: Journal)
    requires JournalInv(w, first, t, j) && Permitted(w.host, t, e)
    requires !e.Internal? && !e.EndChar? && PollOf(e).None? && OrderOf(e).None? && !e.Noticed?
    ensures JournalInv(w, first, Then(t, e), j)
  {
    hide LogInv, DeviceInv, NoticeInv;
    LogUntouched(w, first.config, t, e, j.config);
    DeviceUntouched(t, e, first.device, j.answered, j.obeyed);
    NoticeUntouched(t, e, j.notice, j.interrupts);
  }

  lemma JournalAfterReply(w: World, first: First, t: Trace, j: Journal, tag: byte, polled: bv8, reply: bv8,
      answered: seq<bv8>)
    requires JournalInv(w, first, t, j) && w.host.polls
    requires answered == j.answered + [polled] || (polled == 0 && answered == j.answered)
    ensures JournalInv(w, first, Then(t, StatusReply(tag, polled, reply)),
      j.(answered := answered, notice := Copy(tag, reply), pending := false))
  {
    hide LogInv, DeviceInv, NoticeInv;
    var e := StatusReply(tag, polled, reply);
    LogFacts(w, first.config, t, j.config);
    LogUntouched(w, first.config, t, e, j.config);
    DevicePolled(t, e, first.device, j.answered, answered, j.obeyed);
    NoticeAfterReply(t, tag, polled, reply, j.notice, j.interrupts);
  }

  lemma JournalAfterPoll(w: World, first: First, t: Trace, j: Journal, polled: bv8, answered: seq<bv8>)
    requires JournalInv(w, first, t, j) && (w.host.window.Some? ==> !InMessage(t))
    requires answered == j.answered + [polled] || (polled == 0 && answered == j.answered)
    ensures JournalInv(w, first, Then(t, AutoPoll(polled)),
      j.(answered := answered, interrupts := j.interrupts + [Interrupt(0x81, WithRqs(polled))]))
  {
    hide LogInv, DeviceInv, NoticeInv, WithRqs;
    var e := AutoPoll(polled);
    LogUntouched(w, first.config, t, e, j.config);
    DevicePolled(t, e, first.device, j.answered, answered, j.obeyed);
    NoticeAfterPoll(t, polled, j.notice, j.interrupts);
  }

  lemma JournalAfterNotice(w: World, first: First, t: Trace, j: Journal)
    requires JournalInv(w, first, t, j) && j.notice.Copy?
    ensures var Copy(tag, value) := j.notice;
      JournalInv(w, first, Then(t, Noticed(tag, value)),
        j.(notice := NoCopy, interrupts := j.interrupts + [Interrupt(OnInterrupt(tag), value)]))
  {
    hide LogInv, DeviceInv, NoticeInv, OnInterrupt;
    var Copy(tag, value) := j.notice;
    var e := Noticed(tag, value);
    LogUntouched(w, first.config, t, e, j.config);
    DeviceUntouched(t, e, first.device, j.answered, j.obeyed);
    NoticeSent(t, tag, value, j.interrupts);
  }

  lemma JournalRestarts(w: World, first: First, t: Trace, j: Journal, stream: Talk)
    requires JournalInv(w, first, t, j) && w.host.aborts
    ensures JournalInv(w, first, t, j.(pending := false, stream := stream))
  {
  }

  /** A status request waits. */
  lemma JournalPending(w: World, first: First, t: Trace, j: Journal)
    requires JournalInv(w, first, t, j)
    ensures w.host.polls ==> JournalInv(w, first, t, j.(pending := true))
    ensures JournalInv(w, first, t, j.(pending := false)) && JournalInv(w, first, t, j.(mayCommand := false))
    ensures w.host.pulses ==> JournalInv(w, first, t, j.(mayCommand := true))
  {
  }

  lemma JournalOrdered(w: World, first: First, t: Trace, j: Journal, e: Event, obeyed: seq<byte>)
    requires JournalInv(w, first, t, j) && OrderOf(e).Some? && (w.host.window.Some? ==> !InMessage(t))
    requires obeyed == j.obeyed + [OrderOf(e).value.0] || (OrderOf(e).value.1 && obeyed == j.obeyed)
    ensures JournalInv(w, first, Then(t, e), j.(obeyed := obeyed))
  {
    hide LogInv, DeviceInv, NoticeInv;
    LogUntouched(w, first.config, t, e, j.config);
    DeviceOrdered(t, e, first.device, j.answered, j.obeyed, obeyed);
    NoticeUntouched(t, e, j.notice, j.interrupts);
  }

  /** An internal command; at a new address there is another instrument. */
  lemma JournalAfterInternal(w: World, first: First, t: Trace, j: Journal, msg: seq<byte>, answered: seq<bv8>,
      obeyed: seq<byte>)
    requires JournalInv(w, first, t, j) && w.host.pulses
    ensures var (d, answer) := Internals.Obey(msg, w.memory, j.config); var moved := d.addr != j.config.addr;
      moved || (answered == j.answered && obeyed == j.obeyed) ==>
        JournalInv(w, first, Then(t, Internal(msg, moved, answer)),
          j.(config := d, answered := answered, obeyed := obeyed))
  {
    hide LogInv, DeviceInv, NoticeInv, Internals.Obey;
    var (d, answer) := Internals.Obey(msg, w.memory, j.config);
    var e := Internal(msg, d.addr != j.config.addr, answer);
    LogFacts(w, first.config, t, j.config);
    LogAfterInternal(w, first.config, t, j.config, msg);
    if e.moved {
      DeviceExchanged(t, e, first.device, answered, obeyed);
    } else {
      DeviceUntouched(t, e, first.device, j.answered, j.obeyed);
    }
    NoticeUntouched(t, e, j.notice, j.interrupts);
  }

  lemma JournalAfterEndChar(w: World, first: First, t: Trace, j: Journal, c: byte)
    requires JournalInv(w, first, t, j)
    ensures JournalInv(w, first, Then(t, EndChar(c)), j.(config := j.config.(term := c)))
  {
    hide LogInv, DeviceInv, NoticeInv;
    LogAfterEndChar(w, first.config, t, j.config, c);
    DeviceUntouched(t, EndChar(c), first.device, j.answered, j.obeyed);
    NoticeUntouched(t, EndChar(c), j.notice, j.interrupts);
  }

  lemma NoticeUntouched(t: Trace, e: Event, notice: Copy, interrupts: seq<Interrupt>)
    requires NoticeInv(t, notice, interrupts) && !e.StatusReply? && !e.AutoPoll? && !e.Noticed?
    ensures NoticeInv(Then(t, e), notice, interrupts)
  {
  }

  lemma NoticeAfterReply(t: Trace, tag: byte, polled: bv8, reply: bv8, notice: Copy,
      interrupts: seq<Interrupt>)
    requires NoticeInv(t, notice, interrupts)
    ensures NoticeInv(Then(t, StatusReply(tag, polled, reply)), Copy(tag, reply), interrupts)
  {
  }

  lemma NoticeAfterPoll(t: Trace, polled: bv8, notice: Copy, interrupts: seq<Interrupt>)
    requires NoticeInv(t, notice, interrupts)
    ensures NoticeInv(Then(t, AutoPoll(polled)), notice, interrupts + [Interrupt(0x81, WithRqs(polled))])
  {
  }

  lemma NoticeSent(t: Trace, tag: byte, value: bv8, interrupts: seq<Interrupt>)
    requires NoticeInv(t, Copy(tag, value), interrupts)
    ensures NoticeInv(Then(t, Noticed(tag, value)), NoCopy, interrupts + [Interrupt(OnInterrupt(tag), value)])
  {
  }

  lemma DeviceUntouched(t: Trace, e: Event, d: Device, answered: seq<bv8>, obeyed: seq<byte>)
    requires DeviceInv(t, d, answered, obeyed) && PollOf(e).None? && OrderOf(e).None?
    ensures DeviceInv(Then(t, e), d, answered, obeyed)
  {
  }

  lemma DeviceExchanged(t: Trace, e: Event, d: Device, answered: seq<bv8>, obeyed: seq<byte>)
    requires e.Internal? && e.moved
    ensures DeviceInv(Then(t, e), d, answered, obeyed)
  {
  }

  lemma DevicePolled(t: Trace, e: Event, d: Device, answered: seq<bv8>, now: seq<bv8>, obeyed: seq<byte>)
    requires DeviceInv(t, d, answered, obeyed) && PollOf(e).Some? && OrderOf(e).None?
    requires now == answered + [PollOf(e).value] || (PollOf(e).value == 0 && now == answered)
    ensures DeviceInv(Then(t, e), d, now, obeyed)
  {
    assert (answered + [PollOf(e).value])[..|answered|] == answered;
  }

  lemma DeviceOrdered(t: Trace, e: Event, d: Device, answered: seq<bv8>, obeyed: seq<byte>, now: seq<byte>)
    requires DeviceInv(t, d, answered, obeyed) && OrderOf(e).Some? && PollOf(e).None?
    requires now == obeyed + [OrderOf(e).value.0] || (OrderOf(e).value.1 && now == obeyed)
    ensures DeviceInv(Then(t, e), d, answered, now)
  {
    assert (obeyed + [OrderOf(e).value.0])[..|obeyed|] == obeyed;
  }

  lemma SinceTalk(talk: Talk, t0: Trace, t1: Trace, addressed: bool)
    requires LaterByTalk(talk, t0, t1, addressed)
    ensures Since(t0, t1) && Served(t1) == Served(t0) && (Undisturbed(t1) ==> Undisturbed(t0))
  {
  }

  /** A termination character changes nothing about reads. */
  lemma AskedFor(t0: Trace, t1: Trace)
    requires t1 == t0 || (t1.Then? && t1.past == t0 && t1.ev.EndChar?)
    ensures Since(t0, t1) && Orphaned(t1) == Orphaned(t0) && Served(t1) == Served(t0)
  {
    assert Extends(t0, t0);
  }

  lemma NotOrphaned(t: Trace, o: Out)
    requires OutInv(t, o)
    ensures o.answer != [] ==> !Orphaned(t)
  {
  }

  /** A read that waits for ever has stayed orphaned. */
  lemma StillOrphaned(talk: Talk, t0: Trace, t1: Trace, complete: bool, talking0: bool, talking1: bool,
                      spoken: nat, now: nat)
    requires ReadInv(talk, t0, complete, talking0, 0, spoken) && LaterByTalk(talk, t0, t1, complete)
    requires Buffered(t0) == []
    requires Undisturbed(t1) ==> !complete && !InMessage(t0) && !talking1 && now == spoken
    ensures ReadInv(talk, t1, complete, talking1, 0, now)
    ensures Undisturbed(t1) ==> Orphaned(t1) && Orphaned(t0)
  {
  }

  /** For a host that reads whole messages no read waits for ever. */
  lemma NeverOrphaned(w: World, first: First, t: Trace, j: Journal, o: Out)
    requires JournalInv(w, first, t, j) && OutInv(t, o) && w.host.window.Some?
    ensures Undisturbed(t) && !Orphaned(t)
  {
    JournalFacts(w, first, t, j);
    NoInternalNoAnswer(t);
  }

  lemma NotFromRead(t: Trace, v: SplitVars)
    requires v.handleSDC && !LostClear(t, v)
    ensures !FromRead(t)
  {
  }

  /** The invariants after start-up. */
  lemma AtStartUp(w: World, first: First)
    ensures SplitInv(Start, SplitVars(0, false, false, false, 0)) && StatusInv(Start, StatusVars(false, 0, 0), false)
    ensures OutInv(Start, Out([], 0, [])) && WriteInv(Start, false, 0, false)
    ensures ReadInv(w.talk, Start, true, false, 0, 0) && !InMessage(Start)
    ensures JournalInv(w, first, Start,
      Journal(first.config, first.device.answered, first.device.obeyed, false, false, NoCopy, [], w.talk))
  {
  }

  /** Once there was an abort, the promises between passes ask for nothing more. */
  lemma StillSettled(t: Trace, writeBusy: bool, remaining: nat, listening: bool,
                     talk: Talk, complete: bool, talking: bool, spoken: nat)
    requires !NoAborts(t)
    ensures WriteInv(t, writeBusy, remaining, listening) && ReadInv(talk, t, complete, talking, remaining, spoken)
  {
  }

  // ---- Orders in command sequences -----------------------------------------------------------

  /** The bytes of a sequence that a device carries out. */
  function Orders(codes: seq<byte>): seq<byte> {
    if codes == [] then []
    else
      var last := codes[|codes| - 1];
      Orders(codes[..|codes| - 1]) + if IsOrder(last) then [last] else []
  }

  lemma OneMoreOrder(codes: seq<byte>, i: nat)
    requires i < |codes|
    ensures Orders(codes[..i + 1]) == Orders(codes[..i]) + if IsOrder(codes[i]) then [codes[i]] else []
  {
    assert codes[..i + 1][..i] == codes[..i];
  }

  lemma {:induction false} FewerOrders(codes: seq<byte>, i: nat)
    requires i <= |codes|
    ensures |Orders(codes[..i])| <= |Orders(codes)|
    ensures |Orders(codes[..i])| == |Orders(codes)| ==> Orders(codes[..i]) == Orders(codes)
    decreases |codes| - i
  {
    if i == |codes| {
      assert codes[..i] == codes;
    } else {
      OneMoreOrder(codes, i);
      FewerOrders(codes, i + 1);
    }
  }

  lemma SeenOneMore(passes: seq<Pass>, i: nat)
    requires i < |passes|
    ensures Seen(passes[..i + 1]) == Seen(passes[..i]) + if passes[i].seen then 1 else 0
  {
    assert passes[..i + 1][..i] == passes[..i];
  }

  lemma SeenAtFirst(passes: seq<Pass>)
    ensures Seen(passes[..0]) == 0 && passes[..|passes|] == passes
  {
  }

  /** The history goes on, and there are no fewer flushes than before. */
  lemma Onwards(t0: Trace, t1: Trace, t2: Trace)
    requires Extends(t1, t0) && Extends(t2, t1)
    ensures Extends(t2, t0) && Flushes(t2) >= Flushes(t1) >= Flushes(t0)
  {
    ExtendsTransitive(t2, t1, t0);
    MoreFlushes(t2, t1);
    MoreFlushes(t1, t0);
  }

  lemma PollsGiveNoOrders(addr: byte)
    ensures Orders([0x20, SPE] + TalkAddress(addr)) == [] && Orders([SPD, UNT]) == []
  {
    NoneAmong([0x20, SPE] + TalkAddress(addr));
    NoneAmong([SPD, UNT]);
  }

  lemma {:induction false} NoneAmong(codes: seq<byte>)
    requires forall i | 0 <= i < |codes| :: !IsOrder(codes[i])
    ensures Orders(codes) == []
    decreases |codes|
  {
    if codes != [] { NoneAmong(codes[..|codes| - 1]); }
  }

  lemma OneOrder(addr: byte, order: byte)
    requires IsOrder(order)
    ensures Orders(ListenAddress(addr) + [order, UNL]) == [order] && Orders([order]) == [order]
  {
    var a := ListenAddress(addr);
    NoneAmong(a);
    var codes := a + [order, UNL];
    assert codes[..|a|] == a && codes[..|codes|] == codes;
    OneMoreOrder(codes, |a|);
    OneMoreOrder(codes, |a| + 1);
    assert [order][..0] == [];
  }

  // ---- Small functions -----------------------------------------------------------------------

  /** The bits an SRQ poll adds to those still to be reported: all but RQS. */
  function WithNew(srq: bv8, polled: bv8): bv8 { srq | (polled & 0xBF) }

  /** The byte the host is notified of: with RQS. */
  function WithRqs(polled: bv8): bv8 { polled | 0x40 }

  /** The tag with bit 7 set, as it goes out on the notification endpoint. */
  function OnInterrupt(tag: byte): byte { if tag < 0x80 then tag + 0x80 else tag }

  /** In a serial poll the instrument answered `status`, or it did not answer and `status` is 0. */
  predicate Polled(before: Device, after: Device, status: bv8) {
    after.answered == before.answered + [status] || (status == 0 && after.answered == before.answered)
  }

  function InitiateCode(w: Split): byte {
    match w case AbortOut => 0x01 case AbortIn => 0x03 case Clear => 0x05
  }

  /** A secondary address byte is sent even if the byte before it timed out. */
  predicate SentAnyway(code: byte) { code / 32 == 3 }

  /** What one handshake does to the instrument when it ends. */
  predicate Carried(before: Device, m: Message, timedout: bool, after: Device) {
    if !timedout then after == Hear(before, m)
    else after == InterfaceClear(before) || after == InterfaceClear(Hear(before, m))
  }

  /** The instrument at another address. */
  function Readdressed(d: Device, addr: byte): (e: Device)
    requires 1 <= addr % 32 <= 30
    ensures Designates(addr, e)
  {
    d.(primary := addr % 32, secondary := if addr / 32 == 0 then None else Some(addr / 32 - 1))
  }

  class Adapter {
    // what control requests change
    var split: SplitVars
    var status: StatusVars
    var requests: Requests
    var writeBusy: bool
    // transfers
    var remaining: nat
    var lastComplete: bool
    var inLastComplete: bool
    var eom: bool
    var terminatorEnabled: bool
    const readBuffer: array<byte>
    var out: Out
    // what internal commands change
    var config: Internals.Config
    // the world around
    const world: World
    const host: Host := world.host
    const talk: Talk := world.talk
    /** The number of the next handshake. */
    var next: nat
    var inst: Device
    var outq: seq<Packet>
    var cursor: nat
    /** What the talker says from where it was at the last flush, and how much of it has been taken. */
    var stream: Talk
    var spoken: nat
    var interrupts: seq<Interrupt>
    /** The adapter waits for ever for a talker that says nothing. */
    var stuck: bool
    ghost var trace: Trace
    /** The data bytes put on the bus, whether or not anybody listened. */
    ghost var driven: seq<(byte, bool)>
    /** What the last flush left, and how many passes have found a packet since. */
    ghost var base: Base
    ghost var taken: nat
    ghost const first: First

    /** Holds wherever a control request can be taken. */
    ghost predicate Valid()
      reads this`split, this`status, this`requests, this`writeBusy, this`out, this`config, this`inst, this`trace,
            this`interrupts, this`stream
    {
      && readBuffer.Length == READ_BUFFER
      && Designates(config.addr, inst)
      && SplitInv(trace, split)
      && StatusInv(trace, status, writeBusy)
      && OutInv(trace, out)
      && JournalInv(world, first, trace, Book())
    }

    /** What the history as a whole is checked against. */
    ghost function Book(): Journal
      reads this`config, this`inst, this`requests, this`status, this`interrupts, this`stream
    {
      Journal(config, inst.answered, inst.obeyed, requests.mightBeParameter, status.pending, requests.notice, interrupts,
        stream)
    }

    /** Between passes a transfer is open only while its listener is addressed and the write busy ... */
    ghost predicate WriteReady()
      reads this`trace, this`writeBusy, this`remaining, this`inst
    {
      WriteInv(trace, writeBusy, remaining, inst.listen)
    }

    /** ... and a message exactly while the instrument is talker, with all it said delivered so far. */
    ghost predicate ReadReady()
      reads this`stream, this`trace, this`inLastComplete, this`inst, this`remaining, this`spoken
    {
      ReadInv(stream, trace, inLastComplete, inst.talk, remaining, spoken)
    }

    /** A host that reads whole messages leaves none half read. */
    ghost predicate AtRest()
      reads this`trace
    {
      host.window.Some? ==> !InMessage(trace)
    }

    /** Holds between passes of TMC_Task. */
    ghost predicate Settled()
      reads this`split, this`status, this`requests, this`writeBusy, this`out, this`config, this`inst, this`trace,
            this`interrupts, this`stream, this`spoken, this`remaining, this`lastComplete, this`inLastComplete, this`stuck
    {
      && Valid() && !stuck
      && !LostClear(trace, split)
      && lastComplete == (remaining == 0)
      && WriteReady() && ReadReady() && AtRest()
    }

    /** The adapter waits for ever only in a read that was orphaned, or else the history was disturbed. */
    ghost predicate Stopped()
      reads this`trace, this`stuck
    {
      stuck && Undisturbed(trace) ==> Orphaned(trace)
    }

    /** Holds between passes, and when the adapter waits for ever. */
    ghost predicate SettledOrStuck()
      reads this`split, this`status, this`requests, this`writeBusy, this`out, this`config, this`inst, this`trace,
            this`interrupts, this`stream, this`spoken, this`remaining, this`lastComplete, this`inLastComplete, this`stuck
    {
      Valid() && ReadReady() && if stuck then Stopped() else Settled()
    }

    lemma NotStuckYet()
      requires Settled()
      ensures SettledOrStuck() && !stuck
    {
    }

    lemma Standing()
      requires SettledOrStuck()
      ensures Valid() && ReadReady() && if stuck then Stopped() else Settled()
    {
    }

    /** What follows from the invariant about the present. */
    lemma Facts()
      requires Valid()
      ensures readBuffer.Length == READ_BUFFER && Designates(config.addr, inst)
      ensures NoAborts(trace) <==> !split.inReset && !split.outReset
      ensures split.handleSDC ==> split.inReset && split.outReset
      ensures split.currentTag == CurrentTag(trace) && split.inReset == OwesIn(trace)
      ensures split.outReset == OwesOut(trace)
      ensures Behaved(host, trace) && (host.aborts || (NoAborts(trace) && Flushes(trace) == 0 && stream == talk))
      ensures host.window.Some? ==> Undisturbed(trace) && NoAborts(trace) && NoInternal(trace) && WholeReads(trace)
      ensures host.window.Some? ==> !host.aborts && !host.pulses && !host.polls
      ensures (requests.mightBeParameter ==> host.pulses) && (status.pending ==> host.polls)
      ensures out.pos <= |out.answer| <= READ_BUFFER
      ensures if out.answer == [] then Buffered(trace) == [] else !Orphaned(trace)
    {
      hide SplitInv, StatusInv, OutInv, JournalInv, Designates;
      SplitFacts(trace, split);
      JournalFacts(world, first, trace, Book());
      AnswerFits(trace, out);
      NotOrphaned(trace, out);
      if out.answer == [] { AnswerRead(trace, out); }
    }

    /** gpib_ren(1). */
    method AssertRen()
      requires Valid()
      modifies this`requests
      ensures Valid() && requests == old(requests).(ren := true)
    {
      requests := requests.(ren := true);
    }

    /** After start-up, which clears the interface. */
    constructor (addr: byte, device: Device, world: World, settings: Internals.Settings, outq: seq<Packet>)
      requires Designates(addr, device) && device.heard == []
      ensures Settled() && trace == Start && inst == InterfaceClear(device) && this.world == world && fresh(readBuffer)
      ensures config == Internals.Config(addr, settings, Internals.FirstTerm(settings))
      ensures first == First(config, device)
      ensures split == SplitVars(0, false, false, false, 0) && status == StatusVars(false, 0, 0) && !writeBusy
      ensures next == 0 && this.outq == outq && cursor == 0 && remaining == 0
      ensures out == Out([], 0, []) && driven == [] && interrupts == [] && stream == world.talk
      ensures base == Base([], outq, false) && taken == 0 && !eom && !stuck
    {
      hide SplitInv, StatusInv, OutInv, JournalInv, ReadInv, WriteInv;
      AtStartUp(world, First(Internals.Config(addr, settings, Internals.FirstTerm(settings)), device));
      split := SplitVars(0, false, false, false, 0);
      status := StatusVars(false, 0, 0);
      requests := Requests(false, false, AsIs, true, false, NoCopy);
      writeBusy, remaining, lastComplete, inLastComplete, eom := false, 0, true, true, false;
      terminatorEnabled := Internals.FirstTerm(settings) != 0;
      readBuffer := new byte[READ_BUFFER](_ => 0);
      out := Out([], 0, []);
      config := Internals.Config(addr, settings, Internals.FirstTerm(settings));
      first := First(Internals.Config(addr, settings, Internals.FirstTerm(settings)), device);
      inst, this.world, next := InterfaceClear(device), world, 0;
      this.outq, cursor := outq, 0;
      stream, spoken, interrupts, stuck, trace, driven := world.talk, 0, [], false, Start, [];
      base, taken := Base([], outq, false), 0;
    }

    /** The invariants for a history with one event more that concerns neither split transactions nor
        status bytes nor responses. */
    lemma Recorded(e: Event)
      requires SplitInv(trace, split) && StatusInv(trace, status, writeBusy) && OutInv(trace, out)
      requires e.Triggered? || e.WentLocal? || e.LockedOut? || e.TalkerAddressed? || e.ChunkBegun?
      requires e.TalkerAddressed? ==> out.answer == []
      ensures var t := Then(trace, e);
        && SplitInv(t, split) && StatusInv(t, status, writeBusy) && OutInv(t, out) && FromRead(t) == FromRead(trace)
        && (!e.TalkerAddressed? ==> InMessage(t) == InMessage(trace))
    {
      hide SplitInv, StatusInv, OutInv, FromRead;
      SplitUntouched(trace, e, split);
      StatusUntouched(trace, e, status, writeBusy);
      OutUntouched(trace, e, out);
    }

    /** An order has been given; `before` had been obeyed before. */
    ghost method NoteOrder(e: Event, before: seq<byte>)
      requires readBuffer.Length == READ_BUFFER && Designates(config.addr, inst)
      requires SplitInv(trace, split) && StatusInv(trace, status, writeBusy) && OutInv(trace, out)
      requires JournalInv(world, first, trace, Book().(obeyed := before)) && AtRest()
      requires e.Triggered? || e.WentLocal? || e.LockedOut?
      requires inst.obeyed == before + [OrderOf(e).value.0] || (OrderOf(e).value.1 && inst.obeyed == before)
      modifies this`trace
      ensures Valid() && trace == Then(old(trace), e) && FromRead(trace) == FromRead(old(trace)) && AtRest()
    {
      hide SplitInv, StatusInv, OutInv, JournalInv, Designates, FromRead;
      Recorded(e);
      JournalOrdered(world, first, trace, Book().(obeyed := before), e, inst.obeyed);
      trace := Then(trace, e);
    }

    /** The instrument is made talker. */
    ghost method NoteTalker()
      requires Valid() && out.answer == []
      modifies this`trace
      ensures Valid() && trace == Then(old(trace), TalkerAddressed) && FromRead(trace) == FromRead(old(trace))
    {
      hide SplitInv, StatusInv, OutInv, JournalInv, Designates, FromRead;
      Recorded(TalkerAddressed);
      JournalUntouched(world, first, trace, TalkerAddressed, Book());
      trace := Then(trace, TalkerAddressed);
    }

    // ---- The GPIB under the counted timeout ----------------------------------------------------

    method NextSlot() returns (s: Slot)
      modifies this`next
      ensures s == world.slots(old(next)) && next == old(next) + 1 && MayAll(host, s.visits)
    {
      s := world.slots(next);
      next := next + 1;
    }

    /** The end of one handshake at the instrument; gpib_recover after a timeout, which clears the interface
        and asserts the remote enable line. */
    method Carry(m: Message, timedout: bool, took: bool)
      requires Designates(config.addr, inst)
      modifies this`inst, this`requests
      ensures Designates(config.addr, inst) && Carried(old(inst), m, timedout, inst)
      ensures m.Command? ==> inst.heard == old(inst.heard)
      ensures m.Data? && inst.talk ==> old(inst.talk)
      ensures inst.answered == old(inst.answered)
      ensures inst.obeyed == old(inst.obeyed)
        || (m.Command? && IsOrder(m.code) && inst.obeyed == old(inst.obeyed) + [m.code])
      ensures timedout ==> !inst.talk && !inst.listen && !inst.serialPoll
      ensures requests == Recovered(timedout)
    {
      hide Hear;
      HearKeeps(inst, m);
      if !timedout || took { inst := Hear(inst, m); }
      if timedout {
        inst := InterfaceClear(inst);
        requests := requests.(ren := true);
      }
    }

    /** gpib_recover asserts the remote enable line. */
    twostate function Recovered(timedout: bool): Requests
      reads this`requests
    {
      if timedout then old(requests).(ren := true) else old(requests)
    }

    /** Command bytes sent with is_timedout, which never runs the USB task. They stop at the first one that
        times out, after gpib_recover, except that a secondary address still follows its primary one;
        its handshake finds the budget used up before it begins. */
    method SendCommands(codes: seq<byte>) returns (timedout: bool)
      requires Designates(config.addr, inst)
      modifies this`next, this`inst, this`requests
      ensures Designates(config.addr, inst) && inst.heard == old(inst.heard) && inst.answered == old(inst.answered)
      ensures !timedout ==> inst == HearAll(old(inst), codes)
      ensures timedout ==> !inst.talk && !inst.listen && !inst.serialPoll
      ensures requests == Recovered(timedout)
      ensures Orders(codes) == [] ==> inst.obeyed == old(inst.obeyed)
      ensures |Orders(codes)| == 1 ==>
        inst.obeyed == old(inst.obeyed) || inst.obeyed == old(inst.obeyed) + Orders(codes)
      ensures next >= old(next)
    {
      hide Designates;
      timedout := false;
      var i := 0;
      assert codes[..0] == [];
      while i < |codes| && (!timedout || SentAnyway(codes[i]))
        invariant 0 <= i <= |codes|
        invariant Designates(config.addr, inst) && inst.heard == old(inst.heard) && inst.answered == old(inst.answered)
        invariant !timedout ==> HearAll(inst, codes[i..]) == HearAll(old(inst), codes)
        invariant timedout ==> !inst.talk && !inst.listen && !inst.serialPoll
        invariant requests == Recovered(timedout) && next >= old(next)
        invariant inst.obeyed == old(inst.obeyed)
          || (|Orders(codes[..i])| == 1 && inst.obeyed == old(inst.obeyed) + Orders(codes[..i]))
          || |Orders(codes[..i])| > 1
      {
        var s := NextSlot();
        var took := s.took && !timedout;
        timedout := timedout || s.expires;
        Carry(Command(codes[i]), timedout, took);
        OneMoreOrder(codes, i);
        i := i + 1;
      }
      FewerOrders(codes, i);
    }

    /** The status byte of a serial poll: only a talker in serial poll mode puts one on the bus. */
    method TakeStatus(s: Slot) returns (value: bv8, timedout: bool)
      requires Designates(config.addr, inst) && inst.talk && inst.serialPoll
      modifies this`inst, this`requests
      ensures Designates(config.addr, inst) && inst.heard == old(inst.heard) && inst.obeyed == old(inst.obeyed)
      ensures inst.answered == old(inst.answered) + [value]
        || (timedout && value == 0 && inst.answered == old(inst.answered))
      ensures timedout ==> !inst.talk && !inst.serialPoll
      ensures requests == Recovered(timedout)
    {
      value, timedout := 0, s.expires;
      if !timedout || s.took {
        value := s.status;
        inst := inst.(answered := inst.answered + [value]);
      }
      if timedout {
        inst := InterfaceClear(inst);
        requests := requests.(ren := true);
      }
    }

    /** gpib_readStatusByte: the status read so far is returned whether or not something timed out. It
        is what the instrument answered in this poll, or 0; and the poll is over afterwards. */
    method ReadStatusByte() returns (value: bv8)
      requires Designates(config.addr, inst)
      modifies this`next, this`inst, this`requests
      ensures Designates(config.addr, inst) && inst.heard == old(inst.heard) && inst.obeyed == old(inst.obeyed)
      ensures Polled(old(inst), inst, value) && !inst.talk && !inst.serialPoll
      ensures requests == old(requests) || requests == old(requests).(ren := true)
      ensures next >= old(next)
    {
      hide Designates, HearAll;
      value := 0;
      SerialPollOpens(config.addr, inst);
      PollsGiveNoOrders(config.addr);
      var timedout := SendCommands([0x20, SPE] + TalkAddress(config.addr));
      if !timedout {
        var s := NextSlot();
        value, timedout := TakeStatus(s);
      }
      if !timedout {
        SerialPollCloses(inst);
        timedout := SendCommands([SPD, UNT]);
      }
    }

    /** gpib_sdc. */
    method SelectedDeviceClear() returns (timedout: bool)
      requires Designates(config.addr, inst)
      modifies this`next, this`inst, this`requests
      ensures Designates(config.addr, inst) && inst.heard == old(inst.heard) && inst.answered == old(inst.answered)
      ensures inst.obeyed == old(inst.obeyed) + [SDC] || (timedout && inst.obeyed == old(inst.obeyed))
      ensures requests == Recovered(timedout) && !inst.listen && !inst.talk
    {
      timedout := SendOrder(SDC);
    }

    /** A listen address, an addressed command and UNL. */
    method SendOrder(order: byte) returns (timedout: bool)
      requires Designates(config.addr, inst) && (order == SDC || order == GET || order == GTL)
      modifies this`next, this`inst, this`requests
      ensures Designates(config.addr, inst) && inst.heard == old(inst.heard) && inst.answered == old(inst.answered)
      ensures inst.obeyed == old(inst.obeyed) + [order] || (timedout && inst.obeyed == old(inst.obeyed))
      ensures requests == Recovered(timedout) && !inst.listen && !inst.talk
    {
      hide Designates, HearAll;
      AddressedCommand(config.addr, inst, order);
      OneOrder(config.addr, order);
      timedout := SendCommands(ListenAddress(config.addr) + [order, UNL]);
    }

    // ---- Control requests ----------------------------------------------------------------------

    /** handle_control_Req_ReadStatusByte. */
    method AnswerStatusRequest()
      requires readBuffer.Length == READ_BUFFER && Designates(config.addr, inst)
      requires SplitInv(trace, split) && OutInv(trace, out) && AwaitsReply(trace, status)
      requires JournalInv(world, first, trace, Book()) && host.polls
      modifies this`next, this`inst, this`trace, this`status, this`requests
      ensures Valid() && inst.heard == old(inst.heard)
      ensures Later(stream, old(trace), trace) && FromRead(trace) == FromRead(old(trace))
      ensures !(InMessage(trace) && ReadsUndisturbed(trace))
      ensures trace.Then? && trace.past == old(trace) && trace.ev.StatusReply? && trace.ev.tag == old(status.tag)
      ensures Polled(old(inst), inst, trace.ev.polled) && !inst.talk
      ensures !status.pending && status.tag == old(status.tag) && next >= old(next)
      ensures requests == old(requests).(ren := true, notice := Copy(status.tag, trace.ev.reply))
    {
      hide SplitInv, OutInv, JournalInv, Designates, Later, AwaitsReply, StatusInv, FromRead;
      requests := requests.(ren := true);
      ghost var before := Book();
      var polled := ReadStatusByte();
      var reply := polled | status.srq;
      ghost var e := StatusReply(status.tag, polled, reply);
      ControlEventGrows(stream, trace, e);
      SplitUntouched(trace, e, split);
      OutUntouched(trace, e, out);
      StatusAfterReply(trace, status, polled, writeBusy);
      JournalAfterReply(world, first, trace, before, status.tag, polled, reply, inst.answered);
      requests := requests.(notice := Copy(status.tag, reply));
      status := status.(pending := false, srq := 0);
      trace := Then(trace, e);
    }

    /** Across yield points the history grows and the invariant stays; reset flags stay raised; a clear
        can come to wait for its device clear inside a read only if the yield points lie in one. */
    twostate predicate Grown(reading: bool)
      reads this
    {
      && Valid()
      && Later(stream, old(trace), trace)
      && FlagsStay()
      && (!reading && !old(LostClear(trace, split)) ==> !LostClear(trace, split))
      && (reading && old(split.handleSDC ==> FromRead(trace)) ==> (split.handleSDC ==> FromRead(trace)))
    }

    /** Raised flags stay raised, the tag stays, and so does the remote enable line. */
    twostate predicate FlagsStay()
      reads this`split, this`requests
    {
      && (old(split.inReset) ==> split.inReset)
      && (old(split.outReset) ==> split.outReset)
      && (old(requests.ren) ==> requests.ren)
      && split.currentTag == old(split.currentTag)
    }

    /** Control requests leave the instrument alone while a write is busy, and in an undisturbed read. */
    ghost predicate Quiet()
      reads this
    {
      writeBusy || (InMessage(trace) && ReadsUndisturbed(trace))
    }

    twostate predicate Yielded(reading: bool)
      reads this
    {
      && Grown(reading) && inst.heard == old(inst.heard) && (Quiet() ==> inst == old(inst))
      && (inst.talk ==> old(inst.talk))
      && KeepsPending() && (writeBusy ==> next == old(next))
    }

    /** A deferred status request stays pending. */
    twostate predicate KeepsPending()
      reads this
    {
      writeBusy && old(status.pending) ==> status.pending
    }

    /** A patient host makes a request only when none is outstanding. */
    ghost predicate MayAsk(r: Request)
      reads this
    {
      May(host, r) && (host.patient ==> Outstanding(trace) == [])
    }

    /** The invariants with a status request taken but not answered. */
    lemma Arrival(tag: byte)
      requires SplitInv(trace, split) && OutInv(trace, out) && JournalInv(world, first, trace, Book())
      requires MayAsk(ReadStatus(tag))
      ensures var t := Then(trace, Arrived(tag));
        && SplitInv(t, split) && OutInv(t, out) && JournalInv(world, first, t, Book()) && FromRead(t) == FromRead(trace)
        && Later(stream, trace, t) && InMessage(t) == InMessage(trace)
        && (ReadsUndisturbed(t) ==> ReadsUndisturbed(trace))
    {
      hide SplitInv, OutInv, JournalInv, FromRead, Later;
      ghost var e := Arrived(tag);
      ControlEventGrows(stream, trace, e);
      SplitUntouched(trace, e, split);
      OutUntouched(trace, e, out);
      JournalUntouched(world, first, trace, e, Book());
      LaterFacts(stream, trace, Then(trace, e));
    }

    method StatusRequest(tag: byte, reading: bool)
      requires Valid() && MayAsk(ReadStatus(tag))
      modifies this`split, this`status, this`requests, this`next, this`inst, this`trace
      ensures Yielded(reading) && split == old(split)
      ensures Took(ReadStatus(tag), reading, writeBusy, old(trace), trace)
      ensures writeBusy ==> status == old(status).(pending := true, tag := tag)
      ensures !writeBusy ==> !inst.talk && !(InMessage(trace) && ReadsUndisturbed(trace))
      ensures requests == if writeBusy then old(requests)
        else old(requests).(ren := true, notice := requests.notice)
    {
      hide SplitInv, OutInv, JournalInv, Designates, StatusInv, AwaitsReply, FromRead, Later;
      ghost var e := Arrived(tag);
      Arrival(tag);
      if !writeBusy {
        StatusArrives(trace, status, tag);
        status := status.(tag := tag);
        trace := Then(trace, e);
        AnswerStatusRequest();
        LaterTransitive(stream, old(trace), Then(old(trace), e), trace);
      } else {
        StatusDeferred(trace, status, tag);
        JournalPending(world, first, Then(trace, e), Book());
        status := status.(pending := true, tag := tag);
        trace := Then(trace, e);
      }
    }

    /** The answer on the control endpoint to anything but READ_STATUS_BYTE. */
    ghost method Answer(r: Request, answer: seq<byte>, reading: bool)
      requires Designates(config.addr, inst) && readBuffer.Length == READ_BUFFER
      requires SplitInv(Then(trace, Answered(r, answer, reading)), split)
      requires StatusInv(trace, status, writeBusy) && OutInv(trace, out) && JournalInv(world, first, trace, Book())
      requires MayAsk(r)
      modifies this`trace
      ensures Valid() && trace == Then(old(trace), Answered(r, answer, reading))
      ensures Later(stream, old(trace), trace)
    {
      hide SplitInv, OutInv, JournalInv, Designates, StatusInv, Later;
      ghost var e := Answered(r, answer, reading);
      ControlEventGrows(stream, trace, e);
      StatusUntouched(trace, e, status, writeBusy);
      OutUntouched(trace, e, out);
      JournalUntouched(world, first, trace, e, Book());
      trace := Then(trace, e);
    }

    method InitiateAbort(w: Split, transferTag: nat, reading: bool)
      requires Valid() && w != Clear && MayAsk(Initiate(w, transferTag))
      modifies this`split, this`trace
      ensures Yielded(reading)
      ensures Took(Initiate(w, transferTag), reading, writeBusy, old(trace), trace)
      ensures if w == AbortOut then split.outReset else split.inReset
    {
      hide OutInv, JournalInv, Designates, StatusInv, Later;
      var code := SUCCESS;
      if split.inProgress != 0 {
        code := SPLIT_IN_PROGRESS;
      } else if transferTag != split.currentTag {
        code := TRANSFER_NOT_IN_PROGRESS;
      }
      SplitAfterInitiate(trace, split, w, transferTag, [code, split.currentTag], reading);
      if code == SUCCESS { split := split.(inProgress := InitiateCode(w)); }
      // the flag is raised whether or not the request was accepted
      if w == AbortOut {
        split := split.(outReset := true);
      } else {
        split := split.(inReset := true);
      }
      Answer(Initiate(w, transferTag), [code, split.currentTag], reading);
    }

    method InitiateClear(transferTag: nat, reading: bool)
      requires Valid() && MayAsk(Initiate(Clear, transferTag))
      modifies this`split, this`trace
      ensures Yielded(reading)
      ensures Took(Initiate(Clear, transferTag), reading, writeBusy, old(trace), trace)
      ensures old(split.inProgress) == 0 ==>
        split == old(split).(inReset := true, outReset := true, handleSDC := true, inProgress := InitiateCode(Clear))
        && trace.ev.answer == [SUCCESS]
    {
      hide OutInv, JournalInv, Designates, StatusInv, Later;
      var answer: seq<byte> := if split.inProgress != 0 then [SPLIT_IN_PROGRESS, SUCCESS] else [SUCCESS];
      SplitAfterInitiate(trace, split, Clear, transferTag, answer, reading);
      if split.inProgress == 0 {
        split := split.(inReset := true, outReset := true, handleSDC := true, inProgress := InitiateCode(Clear));
      }
      Answer(Initiate(Clear, transferTag), answer, reading);
    }

    /** What a CHECK request waits for. */
    predicate CheckPending(w: Split)
      reads this`split
    {
      match w
      case AbortOut => split.outReset
      case AbortIn => split.inReset
      case Clear => split.inReset || split.outReset || split.handleSDC
    }

    method CheckRequest(w: Split, reading: bool)
      requires Valid() && MayAsk(Check(w))
      modifies this`split, this`trace
      ensures Yielded(reading)
      ensures Took(Check(w), reading, writeBusy, old(trace), trace)
      ensures old(split.inProgress == InitiateCode(w) && !CheckPending(w)) ==> Accepted(trace.ev.answer)
    {
      hide OutInv, JournalInv, Designates, StatusInv, Later;
      var code := SUCCESS;
      if split.inProgress != InitiateCode(w) {
        code := SPLIT_NOT_IN_PROGRESS;
      } else if CheckPending(w) {
        code := PENDING;
      }
      var answer: seq<byte> := if w == Clear then [code, 0] else [code, 0, 0, 0, 0, 0, 0, 0];
      SplitAfterCheck(trace, split, w, answer, reading);
      if code == SUCCESS { split := split.(inProgress := 0); }
      Answer(Check(w), answer, reading);
    }

    /** A request that is answered on the spot. */
    ghost method Acknowledge(r: Request, answer: seq<byte>, reading: bool)
      requires Valid() && MayAsk(r) && !r.ReadStatus? && !r.Initiate? && !r.Check?
      requires answer == if r.Capabilities? then CAPABILITIES else [SUCCESS]
      modifies this`trace
      ensures Yielded(reading)
      ensures Took(r, reading, writeBusy, old(trace), trace)
    {
      hide SplitInv, OutInv, JournalInv, Designates, StatusInv, Later;
      SplitUntouched(trace, Answered(r, answer, reading), split);
      Answer(r, answer, reading);
    }

    /** EVENT_USB_Device_ControlRequest. `reading`: the yield point lies in a bulk-IN read. */
    method ControlRequest(r: Request, reading: bool)
      requires Valid() && MayAsk(r)
      modifies this`split, this`status, this`requests, this`next, this`inst, this`trace
      ensures Yielded(reading)
      ensures Took(r, reading, writeBusy, old(trace), trace)
      ensures r.ReadStatus? ==> split == old(split) && (writeBusy ==> status.pending)
      ensures r.Initiate? && r.which != Clear ==> split.inReset || split.outReset
      ensures requests.mightBeParameter == (old(requests.mightBeParameter) || r.Pulse?)
      ensures requests.lockout == (old(requests.lockout) || r.LocalLockout?)
      ensures requests.goToLocal == (old(requests.goToLocal) || r.GoToLocal?)
      ensures requests.renControl == if r.RenControl? then Remote(r.value % 256 == 1) else old(requests.renControl)
    {
      hide SplitInv, OutInv, JournalInv, Designates, StatusInv, Later;
      match r {
        case ReadStatus(tag) => StatusRequest(tag, reading);
        case Initiate(w, transferTag) =>
          if w == Clear { InitiateClear(transferTag, reading); } else { InitiateAbort(w, transferTag, reading); }
        case Check(w) => CheckRequest(w, reading);
        case Capabilities => Acknowledge(r, CAPABILITIES, reading);
        case Pulse =>
          JournalPending(world, first, trace, Book());
          requests := requests.(mightBeParameter := true);
          Acknowledge(r, [SUCCESS], reading);
        case RenControl(value) =>
          requests := requests.(renControl := Remote(value % 256 == 1)); Acknowledge(r, [SUCCESS], reading);
        case LocalLockout => requests := requests.(lockout := true); Acknowledge(r, [SUCCESS], reading);
        case GoToLocal => requests := requests.(goToLocal := true); Acknowledge(r, [SUCCESS], reading);
      }
    }

    /** USB_USBTask at a yield point. A patient host that waits for an answer makes no request. */
    method UsbTask(v: Visit, reading: bool)
      requires Valid() && (v.Some? ==> May(host, v.value))
      modifies this`split, this`status, this`requests, this`next, this`inst, this`trace
      ensures Yielded(reading)
      ensures if v.Some? && !(host.patient && old(status.pending))
        then Took(v.value, reading, writeBusy, old(trace), trace)
          && (v.value.ReadStatus? ==> split == old(split) && (writeBusy ==> status.pending))
          && (v.value.Initiate? && v.value.which != Clear ==> split.inReset || split.outReset)
        else trace == old(trace) && split == old(split) && status == old(status)
    {
      hide SplitInv, OutInv, JournalInv, Designates, StatusInv, Took, Later;
      LaterItself(stream, trace);
      if v.Some? && !(host.patient && status.pending) {
        if !status.pending { NothingOutstanding(trace, status, writeBusy); }
        JournalFacts(world, first, trace, Book());
        ControlRequest(v.value, reading);
      }
    }

    // ---- The GPIB under the callbacks of the bulk transfers ------------------------------------

    /** All that comes is a READ_STATUS_BYTE request ... */
    predicate OnlyStatus(visits: seq<Visit>) { |visits| == 1 && visits[0].Some? && visits[0].value.ReadStatus? }

    /** ... or an abort. */
    predicate OnlyAbort(visits: seq<Visit>) {
      |visits| == 1 && visits[0].Some? && visits[0].value.Initiate? && visits[0].value.which != Clear
    }

    /** No control request comes during the handshakes from number `lo` up to `hi`, or from `lo` on. */
    ghost predicate NoVisits(lo: nat, hi: nat) { forall k | lo <= k < hi :: world.slots(k).visits == [] }

    ghost predicate NoVisitsFrom(lo: nat) { forall k | lo <= k :: world.slots(k).visits == [] }

    /** The timeout callback of the bulk transfers, as often as it happens to be polled. */
    method Polls(visits: seq<Visit>, reading: bool) returns (timedout: bool)
      requires Valid() && MayAll(host, visits)
      modifies this`split, this`status, this`requests, this`next, this`inst, this`trace
      ensures Yielded(reading)
      ensures timedout ==> split.inReset || split.outReset
      ensures visits == [] ==> !timedout && split == old(split) && trace == old(trace) && status == old(status)
      ensures !host.patient && OnlyStatus(visits) ==> split == old(split) && (writeBusy ==> status.pending)
      ensures !host.patient && OnlyAbort(visits) ==> split.inReset || split.outReset
    {
      hide SplitInv, OutInv, JournalInv, Designates, StatusInv, Took, Later, FromRead;
      LaterItself(stream, trace);
      timedout := false;
      var i := 0;
      while i < |visits| && !timedout
        invariant 0 <= i <= |visits|
        invariant Yielded(reading)
        invariant timedout ==> split.inReset || split.outReset
        invariant i == 0 ==> !timedout && split == old(split) && trace == old(trace) && status == old(status)
        invariant i == 1 && !host.patient && OnlyStatus(visits) ==>
          split == old(split) && (writeBusy ==> status.pending)
        invariant i == 1 && !host.patient && OnlyAbort(visits) ==> split.inReset || split.outReset
      {
        ghost var before := trace;
        UsbTask(visits[i], reading);
        LaterTransitive(stream, old(trace), before, trace);
        LaterFacts(stream, before, trace);
        timedout := split.inReset || split.outReset;
        i := i + 1;
      }
    }

    /** One handshake of gpib_tx_quick. `always`: the callback is polled in every wait loop, not only
        when the timer ticked. `before`: the instrument as the handshake ends, which is as it was at the
        beginning unless a status poll came in between. */
    method Handshake(m: Message, always: bool, reading: bool) returns (timedout: bool, ghost before: Device)
      requires Valid() && (m.Command? ==> !IsOrder(m.code))
      modifies this`split, this`status, this`requests, this`next, this`inst, this`trace
      ensures Grown(reading) && KeepsPending()
      ensures NoAborts(trace) ==> !timedout
      ensures always ==> timedout == (split.inReset || split.outReset)
      ensures !always && world.slots(old(next)).visits == [] ==> !timedout
      ensures world.slots(old(next)).visits == [] ==>
        split == old(split) && trace == old(trace) && status == old(status)
      ensures !host.patient && OnlyStatus(world.slots(old(next)).visits) ==>
        split == old(split) && (writeBusy ==> status.pending)
      ensures !host.patient && OnlyAbort(world.slots(old(next)).visits) ==> split.inReset || split.outReset
      ensures writeBusy ==> next == old(next) + 1
      ensures Carried(before, m, timedout, inst) && before.heard == old(inst.heard)
      ensures Quiet() ==> before == old(inst)
      ensures m.Command? ==> inst.heard == old(inst.heard)
      ensures m.Data? && inst.talk ==> old(inst.talk)
      ensures timedout ==> !inst.talk && !inst.listen
    {
      hide SplitInv, OutInv, JournalInv, Designates, StatusInv, Later, FromRead, Carried, LostClear;
      var s := NextSlot();
      timedout := Polls(s.visits, reading);
      if always { timedout := split.inReset || split.outReset; }
      before := inst;
      Carry(m, timedout, s.took);
      SplitFacts(trace, split);
    }

    /** Command bytes in sequence. They stop after the first that times out, except that a secondary address
        still follows its primary one; the flags that timed that out are still raised. */
    method SendPolled(codes: seq<byte>, reading: bool) returns (timedout: bool)
      requires Valid() && codes != [] && forall i | 0 <= i < |codes| :: !IsOrder(codes[i])
      modifies this`split, this`status, this`requests, this`next, this`inst, this`trace
      ensures Grown(reading) && KeepsPending() && inst.heard == old(inst.heard)
      ensures NoAborts(trace) ==> !timedout
      ensures timedout == (split.inReset || split.outReset)
      ensures !timedout && Quiet() ==> inst == HearAll(old(inst), codes)
      ensures timedout ==> !inst.talk && !inst.listen
      ensures writeBusy ==> next > old(next) && (!timedout ==> next == old(next) + |codes|)
      ensures writeBusy && NoVisits(old(next), old(next) + |codes|) ==>
        split == old(split) && trace == old(trace) && status == old(status)
      ensures !host.patient && OnlyAbort(world.slots(old(next)).visits) ==> timedout
    {
      hide SplitInv, OutInv, JournalInv, Designates, StatusInv, FromRead, Hear, Later;
      LaterItself(stream, trace);
      timedout := false;
      var i := 0;
      while i < |codes| && (!timedout || SentAnyway(codes[i]))
        invariant 0 <= i <= |codes|
        invariant Grown(reading) && KeepsPending() && inst.heard == old(inst.heard)
        invariant NoAborts(trace) ==> !timedout
        invariant i > 0 ==> timedout == (split.inReset || split.outReset)
        invariant timedout ==> i > 0 && !inst.talk && !inst.listen
        invariant !timedout && Quiet() ==> HearAll(inst, codes[i..]) == HearAll(old(inst), codes)
        invariant writeBusy ==> next == old(next) + i
        invariant i == 0 ==> next == old(next)
        invariant writeBusy && NoVisits(old(next), old(next) + |codes|) ==>
          split == old(split) && trace == old(trace) && status == old(status)
        invariant i > 0 && !host.patient && OnlyAbort(world.slots(old(next)).visits) ==> timedout
      {
        ghost var before;
        ghost var past := trace;
        timedout, before := Handshake(Command(codes[i]), true, reading);
        LaterTransitive(stream, old(trace), past, trace);
        LaterFacts(stream, past, trace);
        i := i + 1;
      }
    }

    /** gpib_make_listener. */
    method MakeListener() returns (timedout: bool)
      requires Valid()
      modifies this`split, this`status, this`requests, this`next, this`inst, this`trace
      ensures Grown(false) && KeepsPending() && inst.heard == old(inst.heard)
      ensures NoAborts(trace) ==> !timedout
      ensures timedout == (split.inReset || split.outReset)
      ensures !timedout && Quiet() ==> inst.listen
      ensures Quiet() ==> !inst.talk
      ensures timedout ==> !inst.listen && !inst.talk
      ensures var n := |ListenSequence(config.addr)|;
        && (writeBusy ==> next > old(next) && (!timedout ==> next == old(next) + n))
        && (writeBusy && NoVisits(old(next), old(next) + n) ==>
              split == old(split) && trace == old(trace) && status == old(status))
    {
      hide SplitInv, OutInv, JournalInv, StatusInv, FromRead, Later, HearAll;
      ListenSequenceAddresses(config.addr, inst);
      timedout := SendPolled(ListenSequence(config.addr), false);
    }

    /** gpib_untalk_unlisten. */
    method UntalkUnlisten(reading: bool) returns (timedout: bool)
      requires Valid()
      modifies this`split, this`status, this`requests, this`next, this`inst, this`trace
      ensures Grown(reading) && KeepsPending() && inst.heard == old(inst.heard)
      ensures NoAborts(trace) ==> !timedout
      ensures timedout == (split.inReset || split.outReset)
      ensures Quiet() ==> !inst.talk
      ensures writeBusy ==> next > old(next)
      ensures !host.patient && OnlyAbort(world.slots(old(next)).visits) ==> timedout
    {
      hide SplitInv, OutInv, JournalInv, Designates, StatusInv, FromRead, Later, HearAll;
      HearAddress(inst, [UNL, UNT]);
      timedout := SendPolled([UNL, UNT], reading);
    }

    /** gpib_make_talker. */
    method MakeTalker() returns (timedout: bool)
      requires Valid() && InMessage(trace)
      modifies this`split, this`status, this`requests, this`next, this`inst, this`trace
      ensures Grown(true) && inst.heard == old(inst.heard)
      ensures NoAborts(trace) ==> !timedout
      ensures !timedout && Quiet() ==> inst.talk
    {
      hide SplitInv, OutInv, JournalInv, StatusInv, FromRead, Later, HearAll;
      TalkSequenceAddresses(config.addr, inst);
      timedout := SendPolled(TalkSequence(config.addr), true);
    }

    // ---- Bulk-OUT: ProcessSentMessage ----------------------------------------------------------

    method ReadByte() returns (b: byte)
      requires outq != []
      modifies this`cursor
      ensures cursor == old(cursor) + 1 && b == At(outq[0], old(cursor))
    {
      b := At(outq[0], cursor);
      cursor := cursor + 1;
    }

    /** A deferred status request is served between two bytes: the instrument is unaddressed, polled
        and made listener again, unless a reset is owed by then. */
    method ServeStatusRequest() returns (timedout: bool)
      requires Valid() && status.pending && writeBusy
      modifies this`split, this`status, this`requests, this`next, this`inst, this`trace
      ensures Grown(false) && inst.heard == old(inst.heard) && Replied(old(trace), trace)
      ensures NoAborts(trace) ==> !timedout
      ensures timedout == (split.inReset || split.outReset)
      ensures inst.listen == !timedout && !inst.talk
      ensures next > old(next) && (NoVisitsFrom(old(next) + 1) ==> !status.pending)
      ensures !host.patient && OnlyAbort(world.slots(old(next)).visits) ==> timedout
    {
      hide SplitInv, OutInv, JournalInv, Designates, StatusInv, FromRead, Later;
      var ignored := UntalkUnlisten(false);
      StillPending(trace, status, writeBusy);
      Facts();
      ghost var t1 := trace;
      AnswerStatusRequest();
      ghost var t2 := trace;
      timedout := MakeListener();
      LaterFacts(stream, t2, trace);
      LaterTransitive(stream, old(trace), t1, t2);
      LaterTransitive(stream, old(trace), t2, trace);
      ReplyIsThere(stream, old(trace), t1, t2, trace);
    }

    /** A status request comes in the next handshake, and an abort in the one after it, which is the first of
        the poll. */
    ghost predicate AboutToBePolled()
      reads this`status, this`inst, this`split, this`next
    {
      && !host.patient && !status.pending && inst.listen && !split.inReset && !split.outReset
      && OnlyStatus(world.slots(next).visits) && OnlyAbort(world.slots(next + 1).visits) && NoVisitsFrom(next + 2)
    }

    /** The request is there, and the abort is to come. */
    ghost predicate AboutToBeAborted()
      reads this`status, this`next
    {
      !host.patient && status.pending && OnlyAbort(world.slots(next).visits) && NoVisitsFrom(next + 1)
    }

    /** Nobody listens, and nothing will change that. */
    ghost predicate Deaf()
      reads this`status, this`inst, this`next
    {
      !status.pending && !inst.listen && NoVisitsFrom(next)
    }

    /** One turn of the byte loop. Whether or not the instrument could be addressed again after a status
        poll, the byte is put on the bus: a timeout of that addressing goes unnoticed. `addressed` is the
        history when the addressing is over. The byte is lost, because nobody listens, if and only if
        there was a status poll and a reset is owed at that moment; in all other cases a handshake that
        ends means that the listener has the byte. */
    method SendByte(dat: byte, eoi: bool) returns (timedout: bool, ghost lost: bool, ghost addressed: Trace)
      requires Valid() && writeBusy
      requires Calm(trace) ==> inst.listen
      modifies this`split, this`status, this`requests, this`next, this`inst, this`trace, this`driven
      ensures Grown(false) && (inst.talk ==> old(inst.talk))
      ensures NoAborts(trace) ==> !timedout && !lost
      ensures driven == old(driven) + [(dat, eoi)]
      ensures Later(stream, old(trace), addressed) && Later(stream, addressed, trace)
      ensures if old(status.pending) then Replied(old(trace), addressed) else addressed == old(trace)
      ensures lost <==> old(status.pending) && (OwesIn(addressed) || OwesOut(addressed))
      ensures old(status.pending) && old(split.inReset || split.outReset) ==> lost
      ensures lost ==> (split.inReset || split.outReset) && inst.heard == old(inst.heard)
      ensures !timedout && !lost && (old(status.pending) || old(inst.listen)) ==>
        inst.listen && inst.heard == old(inst.heard) + [(dat, eoi)]
      ensures Calm(trace) ==> inst.listen && inst.heard == old(inst.heard) + [(dat, eoi)]
      ensures NoVisitsFrom(old(next)) ==> !timedout
      ensures timedout ==> split.inReset || split.outReset
      ensures lost || !old(status.pending || inst.listen) ==> inst.heard == old(inst.heard) && !inst.listen
      ensures old(status.pending) && !host.patient && OnlyAbort(world.slots(old(next)).visits) ==> lost
      ensures old(AboutToBePolled()) ==>
        AboutToBeAborted() && !timedout && inst.heard == old(inst.heard) + [(dat, eoi)]
      ensures old(AboutToBeAborted() || Deaf()) ==> Deaf() && !timedout && inst.heard == old(inst.heard)
    {
      hide Valid, SplitInv, OutInv, JournalInv, Designates, StatusInv, FromRead, Later, Replied, OnlyAbort,
        OnlyStatus;
      LaterItself(stream, trace);
      lost := false;
      if status.pending { lost := ServeStatusRequest(); }
      addressed := trace;
      Facts();
      driven := driven + [(dat, eoi)];
      ghost var before;
      timedout, before := Handshake(Data(dat, eoi), false, false);
      LaterFacts(stream, addressed, trace);
      LaterTransitive(stream, old(trace), addressed, trace);
      LaterFacts(stream, old(trace), trace);
      Facts();
    }

    /** Of the `n` bytes sent so far after such a beginning the first has arrived and no other. */
    ghost predicate RestIsLost(heard: seq<(byte, bool)>, wire: seq<(byte, bool)>, n: nat)
      reads this`status, this`inst, this`split, this`next
      requires n <= |wire|
    {
      if n == 0 then AboutToBePolled() && inst.heard == heard
      else inst.heard == heard + wire[..1] && if n == 1 then AboutToBeAborted() else Deaf()
    }

    /** The byte loop of ProcessSentMessage: `length` bytes from the packet, EOI on the last if asked. */
    method SendBytes(length: nat, first: byte, sendEom: bool) returns (timedout: bool)
      requires Valid() && writeBusy && outq != [] && cursor > 0 && first == At(outq[0], cursor - 1)
      requires Calm(trace) ==> inst.listen
      modifies this`split, this`status, this`requests, this`next, this`inst, this`trace, this`driven, this`cursor
      ensures Grown(false) && (inst.talk ==> old(inst.talk))
      ensures NoAborts(trace) ==> !timedout
      ensures Calm(trace) ==> inst.listen
      ensures Calm(trace) ==>
        inst.heard == old(inst.heard) + Mark(Bytes(outq[0], old(cursor) - 1, length), sendEom)
      ensures !timedout ==> driven == old(driven) + Mark(Bytes(outq[0], old(cursor) - 1, length), sendEom)
      ensures old(AboutToBePolled()) && length > 1 ==>
        && !timedout && inst.heard == old(inst.heard) + Mark(Bytes(outq[0], old(cursor) - 1, length), sendEom)[..1]
    {
      hide Valid, SplitInv, OutInv, JournalInv, Designates, StatusInv, FromRead, Later, Mark, Bytes, AboutToBePolled,
        AboutToBeAborted, Deaf, InMessage, Undisturbed, LostClear;
      LaterItself(stream, trace);
      timedout := false;
      var left, dat := length, first;
      ghost var wire := Mark(Bytes(outq[0], cursor - 1, length), sendEom);
      assert wire[..0] == [];
      while left > 0 && !timedout
        invariant 0 <= left <= length
        invariant Grown(false) && (inst.talk ==> old(inst.talk))
        invariant NoAborts(trace) ==> !timedout
        invariant Calm(trace) ==> inst.listen && inst.heard == old(inst.heard) + wire[..length - left]
        invariant driven == old(driven) + wire[..length - left]
        invariant old(AboutToBePolled()) ==> !timedout && RestIsLost(old(inst.heard), wire, length - left)
        invariant left > 0 ==> cursor == old(cursor) + (length - left) && dat == At(outq[0], cursor - 1)
      {
        left := left - 1;
        ghost var lost, addressed;
        ghost var before := trace;
        timedout, lost, addressed := SendByte(dat, left == 0 && sendEom);
        LaterTransitive(stream, old(trace), before, trace);
        LaterFacts(stream, before, trace);
        WireAt(outq[0], old(cursor) - 1, length, sendEom, length - left - 1);
        OneMoreSent(old(inst.heard), wire, length - left - 1);
        OneMoreSent(old(driven), wire, length - left - 1);
        if left > 0 { dat := ReadByte(); }
      }
    }

    /** The remote enable line; the listener of a new transfer; and a status request that waits. */
    method Address(isFirst: bool) returns (timedout: bool)
      requires Valid() && writeBusy
      requires !isFirst && Calm(trace) ==> inst.listen
      modifies this`split, this`status, this`requests, this`next, this`inst, this`trace
      ensures Valid() && Later(stream, old(trace), trace) && requests.ren && inst.heard == old(inst.heard)
      ensures old(!LostClear(trace, split)) ==> !LostClear(trace, split)
      ensures NoAborts(trace) ==> !timedout
      ensures (inst.talk ==> old(inst.talk)) && (Calm(trace) ==> inst.listen)
    {
      hide Valid, SplitInv, OutInv, JournalInv, Designates, StatusInv, FromRead, Later, LostClear;
      AssertRen();
      LaterItself(stream, trace);
      timedout := false;
      if isFirst { timedout := MakeListener(); }
      ghost var t := trace;
      LaterItself(stream, t);
      if status.pending && !timedout { timedout := ServeStatusRequest(); }
      LaterTransitive(stream, old(trace), t, trace);
      LaterFacts(stream, t, trace);
    }

    /** ProcessSentMessage for a packet that is not an internal command: address the instrument, send
        the bytes, release it after the last. */
    method ForwardChunk(length: nat, dat: byte, isFirst: bool, isLast: bool, sendEom: bool) returns (timedout: bool)
      requires Valid() && writeBusy && outq != [] && cursor > 0 && dat == At(outq[0], cursor - 1)
      requires !isFirst && Calm(trace) ==> inst.listen
      modifies this`split, this`status, this`requests, this`next, this`inst, this`trace, this`driven, this`cursor
      ensures Valid() && Later(stream, old(trace), trace) && requests.ren
      ensures old(!LostClear(trace, split)) ==> !LostClear(trace, split)
      ensures NoAborts(trace) ==> !timedout
      ensures inst.talk ==> old(inst.talk)
      ensures Calm(trace) && !isLast ==> inst.listen
      ensures Calm(trace) ==>
        inst.heard == old(inst.heard) + Mark(Bytes(outq[0], old(cursor) - 1, length), sendEom)
    {
      hide Valid, SplitInv, OutInv, JournalInv, Designates, StatusInv, FromRead, Mark, Bytes, Later, LostClear;
      timedout := Address(isFirst);
      ghost var t := trace;
      LaterItself(stream, t);
      if !timedout { timedout := SendBytes(length, dat, sendEom); }
      ghost var sent := trace;
      LaterTransitive(stream, old(trace), t, sent);
      LaterItself(stream, sent);
      LaterFacts(stream, t, sent);
      if isLast && !timedout { var ignored := UntalkUnlisten(false); }
      LaterTransitive(stream, old(trace), sent, trace);
      LaterFacts(stream, sent, trace);
    }

    /** The command parser on the characters of an internal command. At most one handler runs. */
    method ParseInternal(msg: seq<byte>) returns (ran: seq<nat>, addr: byte)
      ensures ran == Cmd.Handled(msg).ran && |ran| <= 1
      ensures addr == Cmd.NewAddress(Cmd.Handled(msg), world.memory, config.addr)
    {
      hide Cmd.Handled, Cmd.NewAddress;
      var parser := new Cmd.Parser(config.addr, world.memory);
      parser.Process(msg);
      Cmd.OneCommand(msg);
      ran, addr := parser.dispatched, parser.gpibAddr;
    }

    /** The invariants with the internal command `msg` run; `was` and `before` is what was before it. */
    lemma Commanded(msg: seq<byte>, was: Journal, before: Out, moved: bool, answer: seq<byte>)
      requires SplitInv(trace, split) && StatusInv(trace, status, writeBusy) && OutInv(trace, before)
      requires JournalInv(world, first, trace, was) && host.pulses
      requires var (d, a) := Internals.Obey(msg, world.memory, was.config);
        && moved == (d.addr != was.config.addr) && answer == a
        && Book() == was.(config := d, answered := inst.answered, obeyed := inst.obeyed)
      requires !moved ==> inst.answered == was.answered && inst.obeyed == was.obeyed
      requires |answer| < Internals.BUFFER
      ensures var t := Then(trace, Internal(msg, moved, answer));
        && SplitInv(t, split) && StatusInv(t, status, writeBusy) && OutInv(t, before.(answer := answer, pos := 0))
        && JournalInv(world, first, t, Book()) && FromRead(t) == FromRead(trace)
    {
      hide SplitInv, OutInv, JournalInv, StatusInv, FromRead, Internals.Obey;
      ghost var e := Internal(msg, moved, answer);
      SplitUntouched(trace, e, split);
      StatusUntouched(trace, e, status, writeBusy);
      OutAfterInternal(trace, before, msg, moved, answer);
      JournalAfterInternal(world, first, trace, was, msg, inst.answered, inst.obeyed);
    }

    /** What the parser and the handler make of the characters. */
    method Interpret(msg: seq<byte>) returns (c: Internals.Config, answer: seq<byte>)
      ensures (c, answer) == Internals.Obey(msg, world.memory, config) && |answer| < Internals.BUFFER
      ensures c.addr != config.addr ==> 1 <= c.addr % 32 <= 30
    {
      hide Cmd.Handled, Cmd.NewAddress, Internals.Handle;
      var ran, addr := ParseInternal(msg);
      Cmd.ChosenIsValid(Cmd.Handled(msg), world.memory, config.addr);
      c, answer := config.(addr := addr), [];
      if ran != [] {
        var (settings, term, response) := Internals.Handle(ran[0], config.settings, config.term);
        Internals.QueriesAnswer(ran[0], config.settings, config.term);
        c := c.(settings := settings, term := term);
        if |response| < Internals.BUFFER { answer := response; }
      }
    }

    /** ProcessInternalCommand: what the command parser makes of the characters is done, an answer is put
        into the buffer in place of any other, and a new address is adopted, at which another
        instrument is found. */
    method RunInternal(msg: seq<byte>)
      requires Valid() && host.pulses
      modifies this`out, this`config, this`inst, this`next, this`trace
      ensures Valid() && FromRead(trace) == FromRead(old(trace)) && out.sent == old(out.sent)
      ensures var (d, answer) := Internals.Obey(msg, world.memory, old(config));
        && config == d && out.answer == answer && out.pos == 0
        && trace == Then(old(trace), Internal(msg, d.addr != old(config.addr), answer))
      ensures config.addr == old(config.addr) ==> inst == old(inst) && next == old(next)
    {
      hide SplitInv, OutInv, JournalInv, StatusInv, FromRead, Designates, Internals.Obey, Readdressed;
      ghost var was, before := Book(), out;
      var oldAddr := config.addr;
      var c, answer := Interpret(msg);
      out := out.(answer := answer, pos := 0);
      config := c;
      if c.addr != oldAddr {
        var s := NextSlot();
        inst := Readdressed(s.other, c.addr);
      }
      Commanded(msg, was, before, c.addr != oldAddr, answer);
      trace := Then(trace, Internal(msg, c.addr != oldAddr, answer));
    }

    /** The packet in the bank begins an internal command. */
    predicate IsCommand(isFirst: bool)
      reads this`outq, this`cursor, this`requests
    {
      outq != [] && isFirst && requests.mightBeParameter && At(outq[0], cursor) == BANG
    }

    /** The internal command `msg` has run, and the history went on from there. */
    twostate predicate Executed(msg: seq<byte>)
      reads this
    {
      var (d, answer) := Internals.Obey(msg, world.memory, old(config));
      && config == d && out == Out(answer, 0, old(out.sent))
      && Later(stream, Then(Then(old(trace), ChunkBegun(true)), Internal(msg, d.addr != old(config.addr), answer)),
           trace)
    }

    /** The packet `p`, read from position `at` on, was run as an internal command and kept from the bus, or it
        was none. */
    twostate predicate Obeyed(isCommand: bool, p: Packet, at: nat, length: nat)
      reads this
    {
      if isCommand then Executed(Bytes(p, at + 1, length)) && driven == old(driven)
      else config == old(config) && out == old(out)
    }

    /** The first part of ProcessSentMessage: an internal command is kept from the bus and run. */
    method TakeChunk(length: nat, isFirst: bool, isLast: bool, sendEom: bool) returns (timedout: bool)
      requires Valid() && outq != [] && !LostClear(trace, split) && AtRest()
      requires !isFirst && Calm(trace) ==> inst.listen
      modifies this`split, this`status, this`requests, this`next, this`inst, this`trace, this`driven, this`cursor
      modifies this`writeBusy, this`out, this`config
      ensures Valid() && !LostClear(trace, split) && writeBusy
      ensures LaterByChunk(stream, old(trace), trace)
      ensures NoAborts(trace) ==> !timedout
      ensures Undisturbed(trace) && inst.talk ==> old(inst.talk)
      ensures Calm(trace) && !isLast ==> inst.listen
      ensures Calm(trace) ==>
        inst.heard == old(inst.heard) + Mark(Bytes(outq[0], old(cursor), length), sendEom)
      ensures Obeyed(old(IsCommand(isFirst)), outq[0], old(cursor), length)
      ensures !requests.mightBeParameter
    {
      hide Valid, SplitInv, OutInv, JournalInv, StatusInv, FromRead, Designates, Mark, Bytes, Later, LaterByChunk,
        Internals.Obey, NoAborts, Undisturbed, Calm, Partial, AtRest;
      timedout := false;
      Facts();
      var isInternal := IsCommand(isFirst);
      var dat := ReadByte();
      BeginChunk(isInternal);
      ghost var begun := trace;
      if isInternal {
        var msg := Bytes(outq[0], cursor, length);
        cursor := cursor + length;
        RunInternal(msg);
        Commanding(old(trace), begun, msg);
      } else {
        timedout := ForwardChunk(length, dat, isFirst, isLast, sendEom);
        ChunkThenControl(stream, old(trace), begun, trace);
      }
      ForgetPulse();
    }

    /** What the history of an internal command is. */
    lemma Commanding(before: Trace, begun: Trace, msg: seq<byte>)
      requires trace.Then? && trace.ev.Internal? && trace.ev.msg == msg && trace.past == begun
      requires LaterByChunk(stream, before, begun)
      ensures LaterByChunk(stream, before, trace) && Later(stream, trace, trace) && !Calm(trace)
      ensures Undisturbed(trace) ==> !trace.ev.moved
    {
      hide LaterByChunk, Later;
      InternalGrows(stream, before, begun, msg, trace.ev.moved, trace.ev.answer);
      LaterItself(stream, trace);
      NotCalm(trace);
      Unmoved(trace);
    }

    /** Only the first write after an indicator pulse can be an internal command. */
    method ForgetPulse()
      requires Valid()
      modifies this`requests
      ensures Valid() && requests == old(requests).(mightBeParameter := false)
    {
      hide SplitInv, OutInv, JournalInv, StatusInv, Designates;
      JournalPending(world, first, trace, Book());
      requests := requests.(mightBeParameter := false);
    }

    method BeginChunk(isInternal: bool)
      requires Valid() && AtRest() && (isInternal ==> host.pulses)
      modifies this`trace, this`writeBusy
      ensures Valid() && writeBusy && FromRead(trace) == FromRead(old(trace))
      ensures trace == Then(old(trace), ChunkBegun(isInternal))
      ensures LaterByChunk(stream, old(trace), trace) && (Calm(trace) ==> Calm(old(trace)) && !isInternal)
    {
      hide SplitInv, OutInv, JournalInv, StatusInv, FromRead, Designates, LaterByChunk;
      ghost var e := ChunkBegun(isInternal);
      StatusWhileBusy(trace, status, writeBusy);
      writeBusy := true;
      Recorded(e);
      JournalUntouched(world, first, trace, e, Book());
      ChunkGrows(stream, trace, isInternal);
      trace := Then(trace, e);
    }

    /** ProcessSentMessage for the packet in the bank. */
    method ProcessSentMessage(length: nat, isFirst: bool, isLast: bool, sendEom: bool)
      requires Valid() && outq != [] && !LostClear(trace, split) && AtRest()
      requires !isFirst && Calm(trace) ==> inst.listen
      modifies this`split, this`status, this`requests, this`next, this`inst, this`trace, this`driven, this`cursor
      modifies this`writeBusy, this`out, this`config
      ensures Valid() && !LostClear(trace, split)
      ensures LaterByChunk(stream, old(trace), trace)
      ensures writeBusy == !isLast && (Calm(trace) && !isLast ==> inst.listen)
      ensures Undisturbed(trace) && inst.talk ==> old(inst.talk)
      ensures Calm(trace) ==>
        inst.heard == old(inst.heard) + Mark(Bytes(outq[0], old(cursor), length), sendEom)
      ensures Obeyed(old(IsCommand(isFirst)), outq[0], old(cursor), length)
    {
      hide Valid, SplitInv, OutInv, JournalInv, StatusInv, FromRead, Designates, Mark, Bytes, Later, LaterByChunk,
        Internals.Obey;
      var timedout := TakeChunk(length, isFirst, isLast, sendEom);
      ghost var taken := trace;
      FinishChunk(isLast, timedout);
      ChunkThenControl(stream, old(trace), taken, trace);
      if old(IsCommand(isFirst)) {
        ghost var (d, answer) := Internals.Obey(Bytes(outq[0], old(cursor) + 1, length), world.memory, old(config));
        LaterTransitive(stream, Then(Then(old(trace), ChunkBegun(true)),
          Internal(Bytes(outq[0], old(cursor) + 1, length), d.addr != old(config.addr), answer)), taken, trace);
      }
    }

    /** The end of ProcessSentMessage: a request that is still deferred is answered now, and if more
        of the transfer is to come the instrument is made listener again. */
    method FinishChunk(isLast: bool, timedout: bool)
      requires Valid() && writeBusy
      requires NoAborts(trace) ==> !timedout
      requires Calm(trace) && !isLast ==> inst.listen
      modifies this`split, this`status, this`requests, this`next, this`inst, this`trace, this`writeBusy
      ensures Valid() && (old(!LostClear(trace, split)) ==> !LostClear(trace, split))
      ensures Later(stream, old(trace), trace) && inst.heard == old(inst.heard)
      ensures writeBusy == !isLast && (inst.talk ==> old(inst.talk))
      ensures Calm(trace) && !isLast ==> inst.listen
    {
      hide SplitInv, OutInv, JournalInv, FromRead, Designates, Later;
      LaterItself(stream, trace);
      Facts();
      writeBusy := !isLast;
      if status.pending && !timedout {
        if isLast {
          StillPending(trace, status, true);
          AnswerStatusRequest();
        } else {
          var ignored := ServeStatusRequest();
        }
      }
      LaterFacts(stream, old(trace), trace);
      ghost var answered := trace;
      LaterItself(stream, answered);
      if isLast { EndOfWrite(timedout); }
      LaterTransitive(stream, old(trace), answered, trace);
    }

    ghost method EndOfWrite(timedout: bool)
      requires readBuffer.Length == READ_BUFFER && Designates(config.addr, inst)
      requires SplitInv(trace, split) && OutInv(trace, out) && StatusInv(trace, status, true)
      requires JournalInv(world, first, trace, Book())
      requires NoAborts(trace) ==> !timedout
      requires status.pending ==> timedout
      requires !writeBusy
      modifies this`trace
      ensures Valid() && trace == Then(old(trace), WriteDone) && Later(stream, old(trace), trace)
      ensures FromRead(trace) == FromRead(old(trace))
    {
      hide SplitInv, OutInv, JournalInv, FromRead, Designates, Later;
      SplitUntouched(trace, WriteDone, split);
      OutUntouched(trace, WriteDone, out);
      JournalUntouched(world, first, trace, WriteDone, Book());
      StatusAfterChunk(trace, WriteDone, status, true);
      DoneGrows(stream, trace);
      trace := Then(trace, WriteDone);
    }

    // ---- Bulk-IN: GetNextMessage ---------------------------------------------------------------

    function Term(): Option<byte>
      reads this`config, this`terminatorEnabled
    {
      if terminatorEnabled then Some(config.term) else None
    }

    /** What comes of one read handshake. */
    method TakeByte(timedout: bool, took: bool) returns (c: byte, eoi: bool)
      requires Valid()
      modifies this`inst, this`requests, this`spoken, this`stuck
      ensures Valid() && inst.heard == old(inst.heard)
      ensures inst.answered == old(inst.answered) && inst.obeyed == old(inst.obeyed)
      ensures stuck == (old(stuck) || (!timedout && !old(inst.talk)))
      ensures inst.talk == (!timedout && old(inst.talk)) && (!old(inst.talk) ==> spoken == old(spoken))
      ensures !timedout ==> inst == old(inst)
      ensures requests == Recovered(timedout)
      ensures !timedout && old(inst.talk) ==>
        spoken == old(spoken) + 1 && c == stream(old(spoken)).0 && eoi == Ends(stream(old(spoken)), Term())
    {
      hide SplitInv, OutInv, JournalInv, StatusInv;
      c, eoi := 0, false;
      if !timedout && !inst.talk {
        stuck := true;
      } else if !timedout || (took && inst.talk) {
        c, eoi := stream(spoken).0, stream(spoken).1;
        spoken := spoken + 1;
      }
      eoi := eoi || (terminatorEnabled && c == config.term);
      if timedout {
        inst := InterfaceClear(inst);
        requests := requests.(ren := true);
      }
    }

    /** gpib_readdat_quick. A talker that has been unaddressed says nothing: unless an abort comes the
        adapter waits for ever, which ends the run (`stuck`). */
    method ReadData() returns (c: byte, eoi: bool, timedout: bool)
      requires Valid()
      modifies this`split, this`status, this`requests, this`next, this`inst, this`trace, this`spoken, this`stuck
      ensures Grown(true) && inst.heard == old(inst.heard)
      ensures NoAborts(trace) ==> !timedout
      ensures stuck ==> old(stuck) || (!timedout && !(Quiet() && old(inst.talk)))
      ensures !old(inst.talk) ==> (stuck <==> old(stuck) || !timedout) && !inst.talk && spoken == old(spoken)
      ensures !timedout && Quiet() && old(inst.talk) ==>
        && inst == old(inst) && spoken == old(spoken) + 1
        && c == stream(old(spoken)).0 && eoi == Ends(stream(old(spoken)), Term())
    {
      hide Valid, SplitInv, OutInv, JournalInv, StatusInv, FromRead, Designates, Later;
      var s := NextSlot();
      timedout := Polls(s.visits, true);
      c, eoi := TakeByte(timedout, s.took);
      Facts();
    }

    /** The read loop of GetNextMessage, filling the read buffer. Without a talker the first byte never
        comes. */
    method FillBuffer(maxlen: nat) returns (count: nat, eoi: bool, timedout: bool)
      requires Valid() && !stuck && maxlen <= READ_BUFFER
      modifies this`split, this`status, this`requests, this`next, this`inst, this`trace, this`spoken, this`stuck
      modifies readBuffer
      ensures Grown(true) && inst.heard == old(inst.heard)
      ensures NoAborts(trace) ==> !timedout
      ensures count <= maxlen
      ensures !old(inst.talk) ==> !inst.talk && spoken == old(spoken)
      ensures !old(inst.talk) && NoAborts(trace) ==> (stuck <==> maxlen > 0) && (!stuck ==> count == 0 && !eoi)
      ensures Undisturbed(trace) && InMessage(trace) && old(inst.talk) ==>
        && !stuck && inst.talk && spoken == old(spoken) + count
        && CutSound(stream, old(spoken), maxlen, Term(), readBuffer[..count], eoi)
    {
      hide Valid, SplitInv, OutInv, JournalInv, StatusInv, FromRead, Designates, Ends, Spoken, HaveRead, CutSound,
        Later, NoAborts, ReadsUndisturbed, InMessage, Buffered;
      count, eoi, timedout := 0, false, false;
      Facts();
      LaterItself(stream, trace);
      assert readBuffer[..0] == [];
      OneMoreRead(stream, spoken, [], Term());
      while !eoi && count < maxlen && !timedout
        invariant !stuck && count <= maxlen
        invariant Grown(true) && inst.heard == old(inst.heard)
        invariant NoAborts(trace) ==> !timedout
        invariant !old(inst.talk) ==> !inst.talk && spoken == old(spoken) && (count > 0 ==> timedout)
        invariant count == 0 ==> !eoi && inst == old(inst)
        invariant Undisturbed(trace) && InMessage(trace) && old(inst.talk) ==>
          && inst.talk && spoken == old(spoken) + count
          && HaveRead(stream, old(spoken), readBuffer[..count], Term(), eoi)
      {
        ghost var before, past := readBuffer[..count], trace;
        OneMoreRead(stream, old(spoken), before, Term());
        SpokenAt(stream, old(spoken), count);
        var c: byte;
        c, eoi, timedout := ReadData();
        LaterTransitive(stream, old(trace), past, trace);
        LaterFacts(stream, past, trace);
        if stuck { return; }
        assert readBuffer[..count] == before;
        readBuffer[count] := c;
        count := count + 1;
        assert readBuffer[..count] == before + [c];
      }
      if !timedout { ReadToLimit(stream, old(spoken), maxlen, Term(), readBuffer[..count], eoi); }
    }

    /** The beginning of GetNextMessage. */
    method OpenMessage(isFirst: bool) returns (timedout: bool)
      requires Valid() && !split.handleSDC && out.answer == []
      requires Undisturbed(trace) ==> inst.talk == InMessage(trace)
      modifies this`split, this`status, this`requests, this`next, this`inst, this`trace
      ensures Valid() && (split.handleSDC ==> FromRead(trace)) && inst.heard == old(inst.heard) && requests.ren
      ensures LaterByTalk(stream, old(trace), trace, isFirst) && split.currentTag == old(split.currentTag)
      ensures (Calm(trace) ==> Calm(old(trace))) && (NoAborts(trace) ==> NoAborts(old(trace)) && !timedout)
      ensures Undisturbed(trace) ==> Undisturbed(old(trace)) && inst.talk == InMessage(trace)
      ensures !isFirst ==> !timedout && trace == old(trace) && inst == old(inst)
    {
      hide Valid, SplitInv, OutInv, JournalInv, StatusInv, FromRead, Designates, Later, LaterByTalk, NoAborts,
        NoInternal, ReadsUndisturbed, InMessage;
      AssertRen();
      Facts();
      TalkerGrows(stream, trace);
      timedout := false;
      if isFirst {
        NoteTalker();
        timedout := MakeTalker();
        TalkerThenControl(stream, old(trace), Then(old(trace), TalkerAddressed), trace, isFirst);
      }
    }

    /** GetNextMessage: make the instrument talker if a new message begins, read until its end or the
        buffer limit, release it after the end. An abort counts as the end of the message. In an
        undisturbed history the adapter waits for ever if and only if bytes are wanted, the message is
        taken for one begun, and the instrument has none begun. */
    method GetNextMessage(maxlen: nat, isFirst: bool) returns (count: nat, last: bool)
      requires Valid() && !stuck && maxlen <= READ_BUFFER && !split.handleSDC && out.answer == []
      requires Undisturbed(trace) ==> inst.talk == InMessage(trace) && (isFirst ==> !InMessage(trace))
      modifies this`split, this`status, this`requests, this`next, this`inst, this`trace, this`spoken, this`stuck
      modifies readBuffer
      ensures Valid() && (split.handleSDC ==> FromRead(trace)) && inst.heard == old(inst.heard) && requests.ren
      ensures LaterByTalk(stream, old(trace), trace, isFirst) && (Calm(trace) ==> Calm(old(trace)))
      ensures NoAborts(trace) ==> NoAborts(old(trace))
      ensures count <= maxlen && split.currentTag == old(split.currentTag)
      ensures !isFirst && !old(inst.talk) && NoAborts(trace) ==> (stuck <==> maxlen > 0)
      ensures Undisturbed(trace) ==> (stuck <==> !isFirst && !old(InMessage(trace)) && maxlen > 0)
      ensures Undisturbed(trace) && stuck ==> !inst.talk && spoken == old(spoken)
      ensures Undisturbed(trace) && !stuck ==>
        && inst.talk == (InMessage(trace) && !last) && (InMessage(trace) || count == 0) && spoken == old(spoken) + count
        && CutSound(stream, old(spoken), maxlen, Term(), readBuffer[..count], last)
    {
      hide Valid, SplitInv, OutInv, JournalInv, StatusInv, FromRead, Designates, CutSound, Later, LaterByTalk,
        NoAborts, NoInternal, ReadsUndisturbed, InMessage;
      var timedout := OpenMessage(isFirst);
      ghost var t1 := trace;
      LaterItself(stream, t1);
      count, last := 0, false;
      CutNothing(stream, spoken, Term(), readBuffer[..0]);
      if !timedout { count, last, timedout := FillBuffer(maxlen); }
      TalkerThenControl(stream, old(trace), t1, trace, isFirst);
      CutNothing(stream, spoken, Term(), readBuffer[..0]);
      if stuck { return; }
      ghost var t2 := trace;
      LaterItself(stream, t2);
      if last && !timedout { var ignored := UntalkUnlisten(true); }
      TalkerThenControl(stream, old(trace), t2, trace, isFirst);
      if timedout { last := true; }
    }

    // ---- TMC_Task ------------------------------------------------------------------------------

    /** A write to the notification endpoint, which may run the USB task. */
    method Notify(visits: seq<Visit>)
      requires Settled() && MayAll(host, visits)
      modifies this`split, this`status, this`requests, this`next, this`inst, this`trace
      ensures Settled() && inst.heard == old(inst.heard) && Later(stream, old(trace), trace) && FlagsStay()
    {
      hide Valid, SplitInv, StatusInv, OutInv, JournalInv, FromRead, Designates, Took;
      LaterItself(stream, trace);
      var i := 0;
      while i < |visits|
        invariant Settled() && inst.heard == old(inst.heard) && Later(stream, old(trace), trace) && FlagsStay()
      {
        ghost var before := trace;
        UsbTask(visits[i], false);
        LaterTransitive(stream, old(trace), before, trace);
        i := i + 1;
      }
    }

    /** The invariants after an SRQ poll. */
    lemma AutoPolled(polled: bv8, before: seq<bv8>)
      requires SplitInv(trace, split) && StatusInv(trace, status, writeBusy) && OutInv(trace, out)
      requires JournalInv(world, first, trace, Book().(answered := before)) && AtRest()
      requires inst.answered == before + [polled] || (polled == 0 && inst.answered == before)
      ensures var t := Then(trace, AutoPoll(polled));
        && SplitInv(t, split) && StatusInv(t, status.(srq := WithNew(status.srq, polled)), writeBusy) && OutInv(t, out)
        && JournalInv(world, first, t, Book().(interrupts := interrupts + [Interrupt(0x81, WithRqs(polled))]))
        && FromRead(t) == FromRead(trace)
    {
      hide SplitInv, StatusInv, OutInv, JournalInv, FromRead, WithNew, WithRqs;
      ghost var e := AutoPoll(polled);
      SplitUntouched(trace, e, split);
      OutUntouched(trace, e, out);
      JournalAfterPoll(world, first, trace, Book().(answered := before), polled, inst.answered);
      StatusAfterAutoPoll(trace, polled, status, writeBusy);
    }

    /** SRQ is asserted: poll, keep the bits for the next status reply, notify the host. */
    method PollForSrq() returns (polled: bv8)
      requires Valid() && AtRest()
      modifies this`next, this`inst, this`trace, this`status, this`requests, this`interrupts
      ensures Valid() && inst.heard == old(inst.heard) && !inst.talk
      ensures trace == Then(old(trace), AutoPoll(polled)) && Polled(old(inst), inst, polled)
      ensures status == old(status).(srq := WithNew(old(status.srq), polled))
      ensures requests == old(requests) || requests == old(requests).(ren := true)
      ensures interrupts == old(interrupts) + [Interrupt(0x81, WithRqs(polled))]
      ensures FromRead(trace) == FromRead(old(trace))
    {
      hide SplitInv, StatusInv, OutInv, JournalInv, FromRead, Designates, WithNew, WithRqs;
      ghost var before := inst.answered;
      polled := ReadStatusByte();
      AutoPolled(polled, before);
      status := status.(srq := WithNew(status.srq, polled));
      trace := Then(trace, AutoPoll(polled));
      interrupts := interrupts + [Interrupt(0x81, WithRqs(polled))];
    }

    /** ... while control requests come in. */
    method ServeSrq(visits: seq<Visit>) returns (polled: bv8)
      requires Settled() && remaining == 0 && MayAll(host, visits)
      modifies this`split, this`status, this`requests, this`next, this`inst, this`trace, this`interrupts
      ensures Settled() && inst.heard == old(inst.heard)
      ensures Since(old(trace), trace) && Served(trace) == Served(old(trace))
      ensures interrupts == old(interrupts) + [Interrupt(0x81, WithRqs(polled))]
      ensures Later(stream, Then(old(trace), AutoPoll(polled)), trace)
    {
      hide Valid, SplitInv, StatusInv, OutInv, JournalInv, FromRead, Designates, Later;
      polled := PollForSrq();
      ghost var t := trace;
      SinceOne(old(trace), AutoPoll(polled));
      assert Settled() by { hide Since; }
      Notify(visits);
      SinceLater(stream, t, trace);
      SinceTransitive(old(trace), t, trace);
    }

    /** The device clear of an accepted INITIATE_CLEAR. */
    method ServeClear() returns (timedout: bool)
      requires Valid() && split.handleSDC && !FromRead(trace)
      modifies this`next, this`inst, this`trace, this`split, this`requests
      ensures trace == Then(old(trace), SdcCalled(timedout))
      ensures !timedout ==> inst.obeyed == old(inst.obeyed) + [SDC]
      ensures Valid() && split == old(split).(handleSDC := false) && inst.heard == old(inst.heard)
      ensures requests == old(requests).(ren := true)
      ensures !FromRead(trace) && !NoAborts(trace)
    {
      hide SplitInv, StatusInv, OutInv, JournalInv, FromRead, Designates;
      SplitFacts(trace, split);
      JournalFacts(world, first, trace, Book());
      requests := requests.(ren := true);
      ghost var before := inst;
      timedout := SelectedDeviceClear();
      ghost var e := SdcCalled(timedout);
      SplitAfterSdc(trace, split, timedout);
      StatusUntouched(trace, e, status, writeBusy);
      OutUntouched(trace, e, out);
      JournalOrdered(world, first, trace, Book().(obeyed := before.obeyed), e, inst.obeyed);
      split := split.(handleSDC := false);
      trace := Then(trace, e);
    }

    method ServeLockout() returns (timedout: bool)
      requires Settled() && remaining == 0
      modifies this`next, this`inst, this`trace, this`requests
      ensures Settled() && inst.heard == old(inst.heard) && trace == Then(old(trace), LockedOut(timedout))
      ensures !timedout ==> inst.obeyed == old(inst.obeyed) + [LLO]
      ensures requests == old(requests).(lockout := false, ren := old(requests.ren) || timedout)
    {
      hide SplitInv, StatusInv, OutInv, JournalInv, FromRead, Designates, HearAll, Orders, AtRest;
      ghost var before := inst;
      OneOrder(config.addr, LLO);
      LockoutObeyed(inst);
      timedout := SendCommands([LLO]);
      requests := requests.(lockout := false);
      NoteOrder(LockedOut(timedout), before.obeyed);
    }

    method ServeGoToLocal() returns (timedout: bool)
      requires Settled() && remaining == 0 && inLastComplete
      modifies this`next, this`inst, this`trace, this`requests
      ensures Settled() && inst.heard == old(inst.heard) && trace == Then(old(trace), WentLocal(timedout))
      ensures !timedout ==> inst.obeyed == old(inst.obeyed) + [GTL]
      ensures requests == old(requests).(goToLocal := false, ren := old(requests.ren) || timedout) && !inst.listen
    {
      hide SplitInv, StatusInv, OutInv, JournalInv, FromRead, Designates;
      ghost var before := inst;
      timedout := SendOrder(GTL);
      requests := requests.(goToLocal := false);
      NoteOrder(WentLocal(timedout), before.obeyed);
    }

    /** What waits for the end of both transfer directions: go to local, then the remote enable line as
        the last REN_CONTROL request wants it. */
    method ServeAtRest()
      requires Settled() && remaining == 0 && inLastComplete
      modifies this`next, this`inst, this`trace, this`requests
      ensures Settled() && inst.heard == old(inst.heard) && split == old(split)
      ensures !requests.goToLocal && requests.renControl == AsIs
      ensures old(requests.renControl).Remote? ==> requests.ren == old(requests.renControl).on
      ensures Since(old(trace), trace) && Served(trace) == Served(old(trace))
    {
      hide SplitInv, StatusInv, OutInv, JournalInv, FromRead, Designates;
      SinceItself(trace);
      if requests.goToLocal {
        var timedout := ServeGoToLocal();
        SinceOne(old(trace), WentLocal(timedout));
      }
      if requests.renControl.Remote? {
        requests := requests.(ren := requests.renControl.on, renControl := AsIs);
      }
    }

    /** A device clear or a lockout that waits. */
    method ServeOrders()
      requires Settled() && remaining == 0
      modifies this`split, this`requests, this`next, this`inst, this`trace
      ensures Settled() && !split.handleSDC && inst.heard == old(inst.heard)
      ensures Since(old(trace), trace) && Served(trace) == Served(old(trace))
    {
      hide Valid, SplitInv, StatusInv, OutInv, JournalInv, FromRead, Designates, Since;
      SinceItself(trace);
      if split.handleSDC {
        NotFromRead(trace, split);
        Facts();
        var timedout := ServeClear();
        StillSettled(trace, writeBusy, remaining, inst.listen, talk, inLastComplete, inst.talk, spoken);
        SinceOne(old(trace), SdcCalled(timedout));
      }
      ghost var t := trace;
      SinceItself(t);
      if requests.lockout {
        var timedout := ServeLockout();
        SinceOne(t, LockedOut(timedout));
      }
      SinceTransitive(old(trace), t, trace);
    }

    /** What TMC_Task does between transfers before it looks for a header. */
    method ServeRequests(p: Pass)
      requires Settled() && remaining == 0 && MayPass(host, p)
      modifies this`split, this`status, this`requests, this`next, this`inst, this`trace, this`interrupts
      ensures Settled() && !split.handleSDC && inst.heard == old(inst.heard)
      ensures Since(old(trace), trace) && Served(trace) == Served(old(trace))
      ensures |interrupts| == |old(interrupts)| + if p.srq then 1 else 0
      ensures inLastComplete && !(p.seenEarly && outq != []) ==> !requests.goToLocal && requests.renControl == AsIs
    {
      hide Valid, SplitInv, StatusInv, OutInv, JournalInv, FromRead, Designates, Later, Since;
      SinceItself(trace);
      if p.srq {
        var ignored := ServeSrq(p.whileNotifying);
      }
      ghost var t1 := trace;
      ServeOrders();
      SinceTransitive(old(trace), t1, trace);
      ghost var t3 := trace;
      SinceItself(t3);
      if lastComplete && inLastComplete && !(p.seenEarly && outq != []) { ServeAtRest(); }
      SinceTransitive(old(trace), t3, trace);
    }

    /** TMC_resetstates. */
    method ResetStates()
      requires Designates(config.addr, inst)
      modifies this`split, this`status, this`requests, this`out, this`lastComplete, this`inLastComplete
      modifies this`remaining, this`inst
      ensures split == old(split).(handleSDC := false) && status == old(status).(pending := false)
      ensures requests == old(requests).(lockout := false, goToLocal := false, renControl := AsIs)
      ensures out == Out([], 0, old(out.sent))
      ensures lastComplete && inLastComplete && remaining == 0
      ensures inst == InterfaceClear(old(inst)) && Designates(config.addr, inst)
    {
      out := out.(answer := [], pos := 0);
      requests := requests.(renControl := AsIs, goToLocal := false);
      split := split.(handleSDC := false);
      requests := requests.(lockout := false);
      status := status.(pending := false);
      lastComplete, inLastComplete, remaining := true, true, 0;
      inst := InterfaceClear(inst);
    }

    method ClearOut()
      requires outq != []
      modifies this`outq, this`cursor
      ensures outq == old(outq)[1..] && cursor == 0
    {
      outq, cursor := outq[1..], 0;
    }

    /** Hand the packet in the bank to ProcessSentMessage and give the bank back. `remaining` and `eom`
        already speak of what follows it. */
    method ForwardPacket(curlen: nat, isFirst: bool, ghost before: nat)
      requires Valid() && !stuck && outq != [] && !LostClear(trace, split) && AtRest()
      requires !isFirst && Calm(trace) ==> inst.listen
      requires ReadInv(stream, trace, inLastComplete, inst.talk, before, spoken)
      modifies this`split, this`status, this`requests, this`next, this`inst, this`trace, this`driven, this`cursor
      modifies this`writeBusy, this`out, this`config, this`outq, this`lastComplete
      ensures Settled() && Since(old(trace), trace) && Served(trace) == Served(old(trace))
      ensures outq == old(outq)[1..] && cursor == 0 && writeBusy == (remaining > 0)
      ensures Calm(trace) ==>
        inst.heard == old(inst.heard) + Mark(Bytes(old(outq)[0], old(cursor), curlen), eom && remaining == 0)
    {
      hide Valid, SplitInv, StatusInv, OutInv, JournalInv, LaterByChunk, ReadInv, Mark, Bytes, FromRead, Designates,
        PollInv, Since, Later, Obeyed, IsCommand, NoAborts, NoInternal, ReadsUndisturbed, InMessage, Served,
        LostClear;
      var lastMessage := remaining == 0;
      ProcessSentMessage(curlen, isFirst, lastMessage, eom && lastMessage);
      ReadAfterChunk(stream, old(trace), trace, inLastComplete, old(inst.talk), before,
                     inst.talk, remaining, spoken);
      SinceChunk(stream, old(trace), trace);
      ClearOut();
      lastComplete := lastMessage;
    }

    /** DEV_DEP_MSG_OUT: the header's transfer size and EOM bit open a transfer, whose first bytes
        follow the header in the same packet. */
    method HandleMsgOut(size: nat, last: bool)
      requires Settled() && remaining == 0 && outq != []
      modifies this`split, this`status, this`requests, this`next, this`inst, this`trace, this`driven, this`cursor
      modifies this`writeBusy, this`out, this`config, this`outq, this`lastComplete, this`remaining, this`eom
      ensures Settled() && Since(old(trace), trace) && Served(trace) == Served(old(trace))
      ensures writeBusy == (remaining > 0)
      ensures var n := Min(EPSIZE - HEADER, size);
        && outq == old(outq)[1..] && cursor == 0 && remaining == size - n && eom == last
        && (Calm(trace) ==>
              inst.heard == old(inst.heard) + Mark(Bytes(old(outq)[0], old(cursor), n), last && n == size))
    {
      hide Valid, SplitInv, StatusInv, OutInv, JournalInv, ReadInv, Mark, Bytes, FromRead, Designates;
      var curlen := Min(EPSIZE - HEADER, size);
      remaining := size - curlen;
      eom := last;
      ForwardPacket(curlen, lastComplete, 0);
    }

    /** A further packet of an open transfer. */
    method HandleMoreBytes()
      requires Settled() && remaining > 0 && outq != []
      modifies this`split, this`status, this`requests, this`next, this`inst, this`trace, this`driven, this`cursor
      modifies this`writeBusy, this`out, this`config, this`outq, this`lastComplete, this`remaining
      ensures Settled() && Since(old(trace), trace) && Served(trace) == Served(old(trace))
      ensures var n := Min(EPSIZE, old(remaining));
        && outq == old(outq)[1..] && cursor == 0 && remaining == old(remaining) - n
        && (Calm(trace) ==>
              inst.heard == old(inst.heard) + Mark(Bytes(old(outq)[0], old(cursor), n), eom && n == old(remaining)))
    {
      hide Valid, SplitInv, StatusInv, OutInv, JournalInv, ReadInv, Mark, Bytes, FromRead, Designates;
      var curlen := EPSIZE;
      if remaining < EPSIZE { curlen := remaining; }
      remaining := remaining - curlen;
      ForwardPacket(curlen, false, old(remaining));
    }

    // ---- Bulk-IN responses ---------------------------------------------------------------------

    /** The read termination a bulk-IN request carries. */
    method SetTermination(enabled: bool, endChar: byte)
      requires Settled() && !split.handleSDC
      modifies this`config, this`terminatorEnabled, this`trace
      ensures Settled() && config.addr == old(config.addr) && config.settings == old(config.settings)
      ensures Term() == if enabled then Some(endChar) else None
      ensures trace == if enabled then Then(old(trace), EndChar(endChar)) else old(trace)
    {
      hide SplitInv, StatusInv, OutInv, JournalInv, ReadInv, FromRead, Designates;
      if enabled {
        ghost var e := EndChar(endChar);
        SplitUntouched(trace, e, split);
        StatusUntouched(trace, e, status, writeBusy);
        OutUntouched(trace, e, out);
        JournalAfterEndChar(world, first, trace, Book(), endChar);
        ReadAfterEndChar(stream, trace, endChar, inLastComplete, inst.talk, remaining, spoken);
        config := config.(term := endChar);
        trace := Then(trace, e);
      }
      terminatorEnabled := enabled;
    }

    /** The response to the host: header and payload as one transfer, or empty packets after an abort. */
    method Transmit(count: nat, eom: bool, mark: byte)
      requires count <= READ_BUFFER == readBuffer.Length
      modifies this`out
      ensures out.answer == old(out.answer) && out.pos == old(out.pos)
      ensures !split.inReset ==>
        out.sent == old(out.sent)
          + Usb.Packetise(Usb.Data(Usb.Reply(split.currentTag, (eom, mark), readBuffer[..count])))
    {
      hide Usb.Packetise, Usb.Flat;
      var endpoint := new Usb.Endpoint(None);
      ghost var n := endpoint.SendResponse(split.currentTag, (eom, mark), readBuffer[..count], split.inReset);
      out := out.(sent := out.sent + endpoint.sent);
    }

    /** The next part of the answer of an internal command, as far as the host asks for it. The instrument
        is left alone, unless the read is aborted. */
    method ReadAnswer(want: nat, mark: byte)
      requires Valid() && !stuck && !split.handleSDC && out.answer != []
      requires remaining == 0 && lastComplete && WriteReady() && ReadReady() && AtRest()
      modifies this`split, this`status, this`requests, this`inst, this`trace, this`out, readBuffer
      modifies this`inLastComplete, this`lastComplete, this`remaining
      ensures Settled() && remaining == 0 && inst.heard == old(inst.heard)
      ensures Since(old(trace), trace)
      ensures if old(split.inReset) then trace == Then(old(trace), Abandoned) && !NoAborts(trace)
        else
          var b := old(out.answer)[old(out.pos)..]; var last := want >= |b|;
          inst == old(inst) && inLastComplete == last && split == old(split) && requests == old(requests)
          && out.answer == (if last then [] else old(out.answer))
          && out.pos == (if last then 0 else old(out.pos) + want)
          && trace == Then(old(trace), InternalResponse(old(split.currentTag), want, Term(), mark,
                        if want < |b| then b[..want] else b, last))
    {
      hide SplitInv, StatusInv, OutInv, JournalInv, ReadInv, FromRead, Designates, Usb.Packetise, Usb.Data, Since,
        InMessage;
      AnswerFits(trace, out);
      var n := Min(|out.answer| - out.pos, want);
      CopyAnswer(n);
      var last := out.pos + n >= |out.answer|;
      SplitFacts(trace, split);
      ghost var before := out;
      Transmit(n, last, mark);
      if !split.inReset {
        AnswerSent(before, want, n, last, mark);
        out := Out(if last then [] else out.answer, if last then 0 else out.pos + n, out.sent);
        inLastComplete := last;
      } else {
        AbandonRead(before);
      }
    }

    /** The history records the response from the answer `o`. */
    ghost method AnswerSent(o: Out, want: nat, n: nat, last: bool, mark: byte)
      requires readBuffer.Length == READ_BUFFER && Designates(config.addr, inst)
      requires JournalInv(world, first, trace, Book())
      requires SplitInv(trace, split) && StatusInv(trace, status, writeBusy) && OutInv(trace, o) && o.answer != []
      requires o.pos <= |o.answer| && n == Min(|o.answer| - o.pos, want) && last == (o.pos + n >= |o.answer|)
      requires ReadInv(stream, trace, inLastComplete, inst.talk, 0, spoken) && split.currentTag == CurrentTag(trace)
      modifies this`trace
      ensures var payload := o.answer[o.pos..o.pos + n]; var b := o.answer[o.pos..];
        && trace == Then(old(trace), InternalResponse(split.currentTag, want, Term(), mark, payload, last))
        && payload == (if want < |b| then b[..want] else b) && last == (want >= |b|)
        && SplitInv(trace, split) && StatusInv(trace, status, writeBusy) && JournalInv(world, first, trace, Book())
        && OutInv(trace, Out(if last then [] else o.answer, if last then 0 else o.pos + n,
             o.sent + Usb.Packetise(Usb.Data(Usb.Reply(split.currentTag, (last, mark), payload)))))
        && ReadInv(stream, trace, last, inst.talk, 0, spoken)
        && FromRead(trace) == FromRead(old(trace)) && InMessage(trace) == InMessage(old(trace))
      ensures Since(old(trace), trace)
    {
      hide SplitInv, StatusInv, OutInv, JournalInv, ReadInv, FromRead, Designates, Usb.Packetise, Usb.Data;
      ghost var payload := o.answer[o.pos..o.pos + n];
      ghost var e := InternalResponse(split.currentTag, want, Term(), mark, payload, last);
      OutAfterAnswer(trace, o, want, Term(), mark);
      BufferedIs(trace, o);
      SplitUntouched(trace, e, split);
      StatusUntouched(trace, e, status, writeBusy);
      JournalUntouched(world, first, trace, e, Book());
      ReadAfterAnswer(stream, trace, inLastComplete, inst.talk, spoken, split.currentTag, want, Term(), mark, payload,
                      last);
      SinceOne(trace, e);
      trace := Then(trace, e);
    }

    method CopyAnswer(n: nat)
      requires out.pos + n <= |out.answer| && n <= readBuffer.Length
      modifies readBuffer
      ensures readBuffer[..n] == out.answer[out.pos..out.pos + n]
    {
      var i := 0;
      while i < n
        invariant i <= n && readBuffer[..i] == out.answer[out.pos..out.pos + i]
      {
        readBuffer[i] := out.answer[out.pos + i];
        i := i + 1;
      }
    }

    /** A host that reads whole messages asks for enough. */
    ghost predicate Enough(want: nat) { host.window.Some? ==> host.window.value <= want }

    /** DEV_DEP_MSG_IN: the next part of a buffered answer, or what the instrument says up to its end,
        the size asked for or the buffer size, becomes the response, unless the read is aborted. In an
        undisturbed history the adapter waits for ever if and only if bytes are wanted and the rest of a
        half-read answer is gone. */
    method HandleMsgIn(want: nat, termEnabled: bool, termChar: byte)
      requires Settled() && remaining == 0 && outq != [] && !split.handleSDC && Enough(want)
      modifies this`split, this`status, this`requests, this`next, this`inst, this`trace, this`cursor, this`outq
      modifies this`config, this`terminatorEnabled, this`spoken, this`stuck, this`out
      modifies this`inLastComplete, this`lastComplete, this`remaining, readBuffer
      ensures SettledOrStuck() && inst.heard == old(inst.heard)
      ensures outq == old(outq)[1..] && cursor == 0 && remaining == 0
      ensures Since(old(trace), trace)
      ensures Undisturbed(trace) ==> (stuck <==> old(Orphaned(trace)) && want > 0)
      ensures old(out.answer) != [] ==> !stuck
      ensures old(out.answer == [] && !inLastComplete && !inst.talk) && NoAborts(trace) ==> (stuck <==> want > 0)
      ensures old(out.answer) != [] && !old(split.inReset) ==>
        var b := old(out.answer)[old(out.pos)..]; var last := want >= |b|;
        inst == old(inst) && inLastComplete == last && split == old(split)
        && out.answer == (if last then [] else old(out.answer)) && out.pos == if last then 0 else old(out.pos) + want
      ensures !stuck && NoAborts(trace) ==>
        && trace.Then? && Served(trace.past) == Served(old(trace))
        && (if old(out.answer) != [] then trace.ev.InternalResponse? else trace.ev.Response?)
        && trace.ev.mark == termChar && Served(trace) == Served(old(trace)) +
             [Ask(old(split.currentTag), want, if termEnabled then Some(termChar) else None)]
    {
      hide Settled, Valid, ReadReady, Stopped, Since, Undisturbed, Orphaned, NoAborts, Served, Enough;
      ClearOut();
      SetTermination(termEnabled, termChar);
      ghost var asked := trace;
      AskedFor(old(trace), asked);
      SinceCalm(old(trace), asked);
      Respond(want, termChar);
      SinceTransitive(old(trace), asked, trace);
    }

    /** The response, from the answer or from the instrument. */
    method Respond(want: nat, mark: byte)
      requires Settled() && remaining == 0 && !split.handleSDC && Enough(want)
      modifies this`split, this`status, this`requests, this`next, this`inst, this`trace
      modifies this`spoken, this`stuck, this`out, this`inLastComplete, this`lastComplete, this`remaining, readBuffer
      ensures SettledOrStuck() && inst.heard == old(inst.heard)
      ensures remaining == 0 && Since(old(trace), trace)
      ensures Undisturbed(trace) ==> (stuck <==> old(Orphaned(trace)) && want > 0)
      ensures old(out.answer) != [] ==> !stuck
      ensures old(out.answer == [] && !inLastComplete && !inst.talk) && NoAborts(trace) ==> (stuck <==> want > 0)
      ensures old(out.answer) != [] && !old(split.inReset) ==>
        var b := old(out.answer)[old(out.pos)..]; var last := want >= |b|;
        inst == old(inst) && inLastComplete == last && split == old(split)
        && out.answer == (if last then [] else old(out.answer)) && out.pos == if last then 0 else old(out.pos) + want
      ensures !stuck && NoAborts(trace) ==>
        && trace.Then? && Served(trace.past) == Served(old(trace))
        && (if old(out.answer) != [] then trace.ev.InternalResponse? else trace.ev.Response?) && trace.ev.mark == mark
        && Served(trace) == Served(old(trace)) + [Ask(old(split.currentTag), want, Term())]
    {
      hide Valid, SplitInv, StatusInv, OutInv, JournalInv, FromRead, Designates, ReadInv, WriteInv, Since,
        Undisturbed, Orphaned, NoAborts, InMessage, Served;
      Facts();
      if out.answer != [] { ReadAnswer(want, mark); } else { ReadInstrument(want, mark); }
      if !stuck && NoAborts(trace) { OneMoreServed(trace); }
      Facts();
    }

    /** The instrument is made talker only if the response before ended its message. So if a half-read answer
        is gone, nobody talks, and without an abort the adapter waits for ever. */
    method ReadInstrument(want: nat, mark: byte)
      requires Settled() && remaining == 0 && !split.handleSDC && out.answer == [] && Enough(want)
      modifies this`split, this`status, this`requests, this`next, this`inst, this`trace
      modifies this`spoken, this`stuck, this`out, this`inLastComplete, this`lastComplete, this`remaining, readBuffer
      ensures SettledOrStuck()
      ensures inst.heard == old(inst.heard) && remaining == 0
      ensures Since(old(trace), trace)
      ensures !old(inLastComplete) && !old(inst.talk) && NoAborts(trace) ==> (stuck <==> want > 0)
      ensures Undisturbed(trace) ==> (stuck <==> old(Orphaned(trace)) && want > 0)
      ensures !stuck && NoAborts(trace) ==>
        trace.Then? && Served(trace.past) == Served(old(trace)) && trace.ev.Response?
        && trace.ev.tag == old(split.currentTag) && trace.ev.want == want && trace.ev.mark == mark
        && trace.ev.term == Term()
    {
      hide SplitInv, StatusInv, OutInv, JournalInv, FromRead, Designates, CutSound, LaterByTalk, ReadInv, Since,
        InMessage, Partial, Buffered;
      AnswerRead(trace, out);
      WhoTalks(stream, trace, inLastComplete, inst.talk, remaining, spoken);
      var count, last := GetNextMessage(Limit(want), inLastComplete);
      SplitFacts(trace, split);
      SinceTalk(stream, old(trace), trace, inLastComplete);
      if stuck {
        StillOrphaned(stream, old(trace), trace, inLastComplete, old(inst.talk), inst.talk, old(spoken), spoken);
      } else {
        ghost var read := trace;
        FinishRead(want, count, last, mark, old(trace), old(inst.talk), old(spoken));
        SinceTransitive(old(trace), read, trace);
      }
    }

    /** The invariants with one more response from the instrument; those about responses say what is to be sent
        for it. */
    lemma Responded(e: Event, before: Trace, talking: bool, from: nat)
      requires Valid() && WriteReady() && out.answer == [] && remaining == 0
      requires e.Response? && e.tag == split.currentTag && |e.payload| <= READ_BUFFER && Enough(e.want)
      requires ReadInv(stream, before, inLastComplete, talking, 0, from) && Buffered(before) == []
      requires LaterByTalk(stream, before, trace, inLastComplete)
      requires Undisturbed(trace) ==>
        && inst.talk == (InMessage(trace) && !e.eom) && (InMessage(trace) || e.payload == [])
        && spoken == from + |e.payload| && CutSound(stream, from, Limit(e.want), e.term, e.payload, e.eom)
      ensures var t := Then(trace, e);
        && SplitInv(t, split) && StatusInv(t, status, writeBusy) && JournalInv(world, first, t, Book())
        && OutInv(t, out.(sent := out.sent
             + Usb.Packetise(Usb.Data(Usb.Reply(split.currentTag, (e.eom, e.mark), e.payload)))))
        && WriteInv(t, writeBusy, 0, inst.listen) && ReadInv(stream, t, e.eom, inst.talk, 0, spoken)
        && FromRead(t) == FromRead(trace) && Since(trace, t) && (host.window.Some? ==> !InMessage(t))
        && (!split.inReset ==> !split.handleSDC) && (Undisturbed(t) ==> Undisturbed(trace))
    {
      hide SplitInv, StatusInv, OutInv, JournalInv, FromRead, LaterByTalk, ReadInv, CutSound, Usb.Packetise, Usb.Data;
      SplitFacts(trace, split);
      WholeRead(e.want, e.term, e.payload, e.eom, from);
      OutAfterResponse(trace, out, e.want, e.term, e.mark, e.payload, e.eom);
      ReadAfterResponse(stream, before, trace, inLastComplete, talking, inst.talk, from, spoken, e.tag, e.want, e.term,
                        e.mark, e.payload, e.eom);
      SplitUntouched(trace, e, split);
      StatusUntouched(trace, e, status, writeBusy);
      JournalUntouched(world, first, trace, e, Book());
      SinceOne(trace, e);
    }

    /** The response, or after an abort during the read none: then TMC_resetstates runs at once, and
        with it a device clear that was asked for during the read is dropped. */
    method FinishRead(want: nat, count: nat, last: bool, mark: byte,
        ghost before: Trace, ghost talking: bool, ghost from: nat)
      requires Valid() && !stuck && (split.handleSDC ==> FromRead(trace)) && count <= READ_BUFFER && Enough(want)
      requires remaining == 0 && lastComplete && WriteReady() && out.answer == []
      requires ReadInv(stream, before, inLastComplete, talking, 0, from) && Buffered(before) == []
      requires LaterByTalk(stream, before, trace, inLastComplete)
      requires Undisturbed(trace) ==>
        && inst.talk == (InMessage(trace) && !last) && (InMessage(trace) || count == 0) && spoken == from + count
        && CutSound(stream, from, Limit(want), Term(), readBuffer[..count], last)
      modifies this`split, this`status, this`requests, this`out
      modifies this`lastComplete, this`inLastComplete, this`remaining, this`inst, this`trace
      ensures Settled() && inst.heard == old(inst.heard) && remaining == 0
      ensures Since(old(trace), trace) && (Undisturbed(trace) ==> Undisturbed(old(trace)))
      ensures if old(split.inReset) then
          trace == Then(old(trace), Abandoned) && !split.handleSDC && !NoAborts(trace)
          && split == old(split).(handleSDC := false)
        else trace == Then(old(trace), Response(old(split.currentTag), want, Term(), mark, readBuffer[..count], last))
    {
      hide SplitInv, StatusInv, OutInv, JournalInv, ReadInv, WriteInv, CutSound, LaterByTalk, FromRead, Designates,
        Usb.Packetise, Usb.Data, Since, NoAborts, NoInternal, ReadsUndisturbed, InMessage, Enough, Buffered;
      ghost var e := Response(split.currentTag, want, Term(), mark, readBuffer[..count], last);
      Responded(e, before, talking, from);
      ghost var o := out;
      Transmit(count, last, mark);
      inLastComplete := last;
      if !split.inReset {
        trace := Then(trace, e);
      } else {
        AbandonRead(o);
      }
    }

    /** A read of a host that reads whole messages has come to an end. */
    lemma WholeRead(want: nat, term: Option<byte>, payload: seq<byte>, last: bool, from: nat)
      requires JournalInv(world, first, trace, Book()) && Enough(want)
      requires Undisturbed(trace) ==> CutSound(stream, from, Limit(want), term, payload, last)
      ensures host.window.Some? ==> last
    {
      hide JournalInv, CutSound;
      JournalFacts(world, first, trace, Book());
      if host.window.Some? {
        assert EndsFrom(stream, from, host.window.value);
        WholeMessage(stream, from, host.window.value, Limit(want), term, payload, last);
      }
    }

    /** The invariants after a read was aborted. */
    lemma AfterAbandon(o: Out)
      requires SplitInv(trace, split) && StatusInv(trace, status, writeBusy) && OutInv(trace, o)
      requires JournalInv(world, first, trace, Book()) && split.inReset && (split.handleSDC ==> FromRead(trace))
      ensures var t := Then(trace, Abandoned); var v := split.(handleSDC := false);
        && SplitInv(t, v) && StatusInv(t, status.(pending := false), writeBusy) && OutInv(t, Out([], 0, out.sent))
        && JournalInv(world, first, t, Book().(pending := false))
        && WriteInv(t, writeBusy, 0, false) && ReadInv(stream, t, true, false, 0, spoken)
        && host.window.None? && !LostClear(t, v) && !NoAborts(t) && Since(trace, t)
    {
      hide SplitInv, StatusInv, OutInv, JournalInv, FromRead, WriteInv, ReadInv;
      ghost var t := Then(trace, Abandoned);
      SplitFacts(trace, split);
      JournalFacts(world, first, trace, Book());
      SplitAfterAbandon(trace, split);
      StatusAfterReset(trace, Abandoned, status, writeBusy);
      OutAfterReset(trace, Abandoned, o, out.sent);
      JournalUntouched(world, first, trace, Abandoned, Book());
      JournalPending(world, first, t, Book());
      SinceOne(trace, Abandoned);
      StillSettled(t, writeBusy, 0, false, stream, true, false, spoken);
    }

    method AbandonRead(ghost o: Out)
      requires readBuffer.Length == READ_BUFFER && Designates(config.addr, inst) && SplitInv(trace, split)
      requires StatusInv(trace, status, writeBusy) && OutInv(trace, o) && JournalInv(world, first, trace, Book())
      requires split.inReset && (split.handleSDC ==> FromRead(trace)) && !stuck
      modifies this`split, this`status, this`requests, this`out
      modifies this`lastComplete, this`inLastComplete, this`remaining, this`inst, this`trace
      ensures Settled() && inst.heard == old(inst.heard) && remaining == 0
      ensures split == old(split).(handleSDC := false)
      ensures trace == Then(old(trace), Abandoned) && !NoAborts(trace) && Since(old(trace), trace)
    {
      hide SplitInv, StatusInv, OutInv, JournalInv, WriteInv, ReadInv, FromRead, Designates, LostClear, NoAborts,
        Since;
      AfterAbandon(o);
      ResetStates();
      trace := Then(trace, Abandoned);
    }

    /** The dispatch on the message identifier of the header read from `p` at `c`. Any other identifier
        stalls the endpoint and leaves the rest of the packet to be read as a header. */
    method Dispatch(p: Packet, c: nat)
      requires Settled() && remaining == 0 && outq != [] && !split.handleSDC && p == outq[0] && cursor == c + HEADER
      requires At(p, c) == MSG_IN ==> Enough(TransferSize(p, c))
      modifies this`split, this`status, this`requests, this`next, this`inst, this`trace, this`driven, this`cursor
      modifies this`writeBusy, this`out, this`config, this`outq, this`lastComplete, this`remaining, this`eom
      modifies this`terminatorEnabled, this`spoken, this`stuck, this`inLastComplete, readBuffer
      ensures SettledOrStuck()
      ensures Since(old(trace), trace)
      ensures Calm(trace) ==>
        inst.heard + Owed(outq, cursor, remaining, eom) == old(inst.heard) + Owed(old(outq), c, 0, old(eom))
      ensures outq == old(outq)[1..] || (outq == old(outq) && cursor == c + HEADER)
      ensures At(p, c) == MSG_IN ==> outq == old(outq)[1..] && cursor == 0 && remaining == 0
      ensures At(p, c) == MSG_IN && !stuck && NoAborts(trace) ==>
        Served(trace) == Served(old(trace)) + [Ask(old(split.currentTag), TransferSize(p, c), AskAt(p, c).term)]
      ensures At(p, c) == MSG_OUT || At(p, c) == MSG_TRIGGER ==>
        && !stuck && outq == old(outq)[1..] && cursor == 0 && Served(trace) == Served(old(trace))
        && remaining == if At(p, c) == MSG_TRIGGER then 0
             else TransferSize(p, c) - Min(EPSIZE - HEADER, TransferSize(p, c))
    {
      hide Valid, SplitInv, StatusInv, OutInv, JournalInv, ReadInv, FromRead, Designates, HearAll, Mark, Bytes,
        TransferSize, Since, Undisturbed, NoAborts, NoInternal, Served;
      SinceItself(trace);
      SinceCalm(trace, trace);
      var id := At(p, c);
      if id == MSG_TRIGGER {
        var timedout := TriggerInstrument();
        SinceOne(old(trace), Triggered(timedout));
        SameServed(old(trace), trace);
      } else if id == MSG_OUT {
        HandleMsgOut(TransferSize(p, c), At(p, c + 8) != 0);
      } else if id == MSG_IN {
        HandleMsgIn(TransferSize(p, c), At(p, c + 8) / 2 % 2 == 1, At(p, c + 9));
      }
      SinceCalm(old(trace), trace);
    }

    method TriggerInstrument() returns (timedout: bool)
      requires Settled() && remaining == 0 && outq != []
      modifies this`next, this`inst, this`trace, this`outq, this`cursor, this`requests
      ensures Settled() && inst.heard == old(inst.heard) && trace == Then(old(trace), Triggered(timedout))
      ensures !timedout ==> inst.obeyed == old(inst.obeyed) + [GET]
      ensures requests == old(requests).(ren := true) && !inst.listen
      ensures outq == old(outq)[1..] && cursor == 0
    {
      hide SplitInv, StatusInv, OutInv, JournalInv, ReadInv, WriteInv, FromRead, Designates, InMessage;
      requests := requests.(ren := true);
      timedout := Trigger();
      ClearOut();
    }

    /** gpib_trigger. */
    method Trigger() returns (timedout: bool)
      requires Settled() && remaining == 0 && requests.ren
      modifies this`next, this`inst, this`trace, this`requests
      ensures Settled() && inst.heard == old(inst.heard) && trace == Then(old(trace), Triggered(timedout))
      ensures !timedout ==> inst.obeyed == old(inst.obeyed) + [GET]
      ensures requests == old(requests) && !inst.listen
    {
      hide SplitInv, StatusInv, OutInv, JournalInv, ReadInv, WriteInv, FromRead, Designates, InMessage, Orders,
        OrdersOf, HearAll;
      ghost var before := inst;
      timedout := SendOrder(GET);
      WriteAtRest(trace, Triggered(timedout), writeBusy, before.listen, inst.listen);
      ReadAfterTrigger(stream, trace, timedout, inLastComplete, before.talk, inst.talk, remaining, spoken);
      NoteOrder(Triggered(timedout), before.obeyed);
    }

    /** The packets are in their places. */
    ghost predicate PacketsInPlace()
      reads this`cursor, this`outq, this`remaining
    {
      cursor == 0 && InPlace(outq, remaining, host.window)
    }

    /** A host that reads whole messages sends nothing else. */
    ghost predicate KeepsPlaces()
      reads this`cursor, this`outq, this`remaining
    {
      host.window.Some? ==> PacketsInPlace()
    }

    /** The read requests answered, and those still to be served. */
    ghost function Due(): seq<Ask>
      reads this`trace, this`outq, this`remaining
    {
      Served(trace) + Asks(outq, remaining)
    }

    /** A header is at hand: ReadTMCHeader, and the dispatch unless a bulk-OUT abort is due. */
    method HandleHeader()
      requires Settled() && remaining == 0 && outq != [] && !split.handleSDC && KeepsPlaces()
      modifies this`split, this`status, this`requests, this`next, this`inst, this`trace, this`driven, this`cursor
      modifies this`writeBusy, this`out, this`config, this`outq, this`lastComplete, this`remaining, this`eom
      modifies this`terminatorEnabled, this`spoken, this`stuck, this`inLastComplete, readBuffer
      ensures SettledOrStuck()
      ensures Since(old(trace), trace)
      ensures Calm(trace) ==>
        inst.heard + Owed(outq, cursor, remaining, eom) == old(inst.heard + Owed(outq, cursor, remaining, eom))
      ensures NoAborts(trace) ==> outq == old(outq)[1..] || cursor == old(cursor) + HEADER
      ensures outq == old(outq)[1..] || outq == old(outq)
      ensures NoAborts(trace) && old(PacketsInPlace()) ==>
        && PacketsInPlace() && outq == old(outq)[1..] && (!stuck ==> Due() == old(Due()))
        && (stuck ==> old(Asks(outq, remaining)) != [] && host.window.None?)
    {
      hide SplitInv, StatusInv, OutInv, JournalInv, ReadInv, WriteInv, FromRead, Designates, Owed, TransferSize,
        Since, Undisturbed, NoAborts, NoInternal, Served, Orphaned;
      var p, c := outq[0], cursor;
      TakeHeader(At(p, c + 1));
      ghost var taken := trace;
      SinceOne(old(trace), Header(At(p, c + 1)));
      SinceCalm(old(trace), taken);
      cursor := cursor + HEADER;
      Facts();
      if !split.outReset { Dispatch(p, c); } else { SinceItself(trace); }
      SinceTransitive(old(trace), taken, trace);
      SinceCalm(taken, trace);
      NotStuck();
      SameServed(old(trace), taken);
    }

    /** A host that reads whole messages never makes the adapter wait for ever. */
    lemma NotStuck()
      requires Valid() && (stuck ==> Stopped())
      ensures host.window.Some? ==> !stuck
    {
      hide SplitInv, StatusInv, OutInv, JournalInv, Designates, Undisturbed, Orphaned;
      if host.window.Some? { NeverOrphaned(world, first, trace, Book(), out); }
    }

    /** CurrentTransferTag is stored even if the transfer is then dropped. */
    method TakeHeader(tag: byte)
      requires Settled() && !split.handleSDC
      modifies this`split, this`trace
      ensures Settled() && split == old(split).(currentTag := tag) && trace == Then(old(trace), Header(tag))
    {
      hide SplitInv, StatusInv, OutInv, JournalInv, ReadInv, FromRead, Designates;
      ghost var e := Header(tag);
      SplitAfterHeader(trace, split, tag);
      StatusUntouched(trace, e, status, writeBusy);
      OutUntouched(trace, e, out);
      JournalUntouched(world, first, trace, e, Book());
      ReadAfterHeader(stream, trace, tag, inLastComplete, inst.talk, remaining, spoken);
      split := split.(currentTag := tag);
      trace := Then(trace, e);
    }

    /** A status reply is repeated on the notification endpoint: the last one, if there were several since
        the last notice. */
    method ReportStatus(visits: seq<Visit>)
      requires Settled() && MayAll(host, visits)
      modifies this`split, this`status, this`requests, this`next, this`inst, this`trace, this`interrupts
      ensures Settled() && inst.heard == old(inst.heard)
      ensures match old(requests.notice)
        case Copy(tag, value) =>
          interrupts == old(interrupts) + [Interrupt(OnInterrupt(tag), value)]
          && Later(stream, Then(old(trace), Noticed(tag, value)), trace)
        case NoCopy => interrupts == old(interrupts) && trace == old(trace)
      ensures Since(old(trace), trace) && Served(trace) == Served(old(trace))
    {
      hide Valid, SplitInv, StatusInv, OutInv, JournalInv, ReadInv, WriteInv, FromRead, Designates, Later, Since,
        Served, InMessage, NoAborts, NoInternal;
      SinceItself(trace);
      if requests.notice.Copy? {
        SendNotice();
        ghost var sent := trace;
        SinceOne(old(trace), sent.ev);
        SameServed(old(trace), sent);
        Notify(visits);
        SinceLater(stream, sent, trace);
        SinceTransitive(old(trace), sent, trace);
      }
    }

    method SendNotice()
      requires Settled() && requests.notice.Copy?
      modifies this`requests, this`trace, this`interrupts
      ensures Settled() && requests == old(requests).(notice := NoCopy)
      ensures var Copy(tag, value) := old(requests.notice);
        && trace == Then(old(trace), Noticed(tag, value))
        && interrupts == old(interrupts) + [Interrupt(OnInterrupt(tag), value)]
    {
      hide SplitInv, StatusInv, OutInv, JournalInv, ReadInv, WriteInv, FromRead, Designates, InMessage, OnInterrupt;
      AfterNotice();
      var Copy(tag, value) := requests.notice;
      requests := requests.(notice := NoCopy);
      interrupts := interrupts + [Interrupt(OnInterrupt(tag), value)];
      trace := Then(trace, Noticed(tag, value));
    }

    /** The invariants after a notice. */
    lemma AfterNotice()
      requires Settled() && requests.notice.Copy?
      ensures var Copy(tag, value) := requests.notice; var t := Then(trace, Noticed(tag, value));
        && SplitInv(t, split) && StatusInv(t, status, writeBusy) && OutInv(t, out)
        && JournalInv(world, first, t,
             Book().(notice := NoCopy, interrupts := interrupts + [Interrupt(OnInterrupt(tag), value)]))
        && FromRead(t) == FromRead(trace) && InMessage(t) == InMessage(trace)
        && WriteInv(t, writeBusy, remaining, inst.listen)
        && ReadInv(stream, t, inLastComplete, inst.talk, remaining, spoken)
    {
      hide SplitInv, StatusInv, OutInv, JournalInv, ReadInv, WriteInv, FromRead, InMessage, OnInterrupt;
      ghost var e := Noticed(requests.notice.tag, requests.notice.value);
      SplitUntouched(trace, e, split);
      StatusUntouched(trace, e, status, writeBusy);
      OutUntouched(trace, e, out);
      JournalAfterNotice(world, first, trace, Book());
      NoticeKeeps(stream, trace, e, writeBusy, remaining, inst.listen, inLastComplete, inst.talk, spoken);
    }

    /** The end of a pass: if an abort or clear was asked for, the endpoints are flushed, a device clear
        that still waits is sent, and the transfer state is reset. Then the flags go down. */
    method Epilogue(flush: nat)
      requires Settled()
      modifies this`next, this`inst, this`trace, this`split, this`status, this`requests, this`out, this`outq, this`cursor
      modifies this`lastComplete, this`inLastComplete, this`remaining, this`stream, this`spoken, this`base, this`taken
      ensures Settled() && inst.heard == old(inst.heard) && NoAborts(trace)
      ensures old(split.inReset || split.outReset) ==> Restarted() && cursor == 0 && Suffix(outq, old(outq))
      ensures !old(split.inReset || split.outReset) ==>
        trace == old(trace) && outq == old(outq) && cursor == old(cursor) && remaining == old(remaining)
        && split == old(split) && stream == old(stream) && base == old(base) && taken == old(taken)
    {
      hide Settled, NoAborts;
      NothingOwed();
      if split.outReset || split.inReset {
        var dropped := if cursor > 0 && flush == 0 then 1 else flush;
        outq, cursor := outq[Min(dropped, |outq|)..], 0;
        AbortPendingIn();
        Flush();
      }
      NothingOwed();
    }

    lemma NothingOwed()
      requires Settled()
      ensures NoAborts(trace) <==> !split.inReset && !split.outReset
    {
      hide SplitInv, StatusInv, OutInv, JournalInv, Designates;
      SplitFacts(trace, split);
    }

    /** Endpoint_AbortPendingIN: what the host has not taken yet is dropped. */
    method AbortPendingIn()
      requires Settled() && (split.inReset || split.outReset)
      modifies this`out
      ensures Settled() && out == old(out).(sent := [])
    {
      hide SplitInv, StatusInv, JournalInv, Designates, NoAborts, ReadInv, WriteInv;
      SplitFacts(trace, split);
      out := out.(sent := []);
    }

    /** The endpoints have been flushed: the transfer state is that after start-up, except that `writeBusy` is
        left as it is; a status request that waited is gone; and what was left then is recorded. */
    twostate predicate Restarted()
      reads this
    {
      && host.aborts && trace.Then? && trace.ev == Flushed
      && remaining == 0 && lastComplete && inLastComplete && !status.pending
      && split == old(split).(inReset := false, outReset := false, handleSDC := false)
      && out == Out([], 0, []) && !requests.lockout && !requests.goToLocal && requests.renControl == AsIs
      && !inst.listen && !inst.talk
      && stream == From(old(stream), old(spoken)) && spoken == 0 && base == Base(inst.heard, outq, eom) && taken == 0
      && if old(split.handleSDC) then trace.past.Then? && trace.past.ev.SdcCalled? && trace.past.past == old(trace)
         else trace.past == old(trace)
    }

    method Flush()
      requires Settled() && (split.inReset || split.outReset) && out.sent == []
      modifies this`next, this`inst, this`trace, this`split, this`status, this`requests, this`out
      modifies this`lastComplete, this`inLastComplete, this`remaining, this`stream, this`spoken, this`base, this`taken
      ensures Settled() && Restarted() && inst.heard == old(inst.heard)
    {
      hide SplitInv, StatusInv, OutInv, JournalInv, ReadInv, WriteInv, FromRead, Designates, NoAborts, InMessage;
      if split.handleSDC {
        NotFromRead(trace, split);
        var timedout := ServeClear();
      }
      DropAll();
    }

    method DropAll()
      requires Valid() && (split.inReset || split.outReset) && !split.handleSDC && !stuck && out.sent == []
      modifies this`inst, this`trace, this`split, this`status, this`requests, this`out
      modifies this`lastComplete, this`inLastComplete, this`remaining, this`stream, this`spoken, this`base, this`taken
      ensures Settled() && Wiped() && host.aborts
    {
      hide SplitInv, StatusInv, OutInv, JournalInv, ReadInv, WriteInv, FromRead, Designates, NoAborts, InMessage;
      AfterFlush();
      Wipe();
    }

    /** TMC_resetstates, and the end of the flags. */
    method Wipe()
      requires Designates(config.addr, inst) && out.sent == []
      modifies this`inst, this`trace, this`split, this`status, this`requests, this`out
      modifies this`lastComplete, this`inLastComplete, this`remaining, this`stream, this`spoken, this`base, this`taken
      ensures Wiped() && Designates(config.addr, inst)
    {
      hide Designates;
      ResetStates();
      Restart();
    }

    twostate predicate Wiped()
      reads this
    {
      && inst == InterfaceClear(old(inst)) && trace == Then(old(trace), Flushed)
      && remaining == 0 && lastComplete && inLastComplete
      && split == old(split).(inReset := false, outReset := false, handleSDC := false)
      && status == old(status).(pending := false) && out == Out([], 0, [])
      && requests == old(requests).(lockout := false, goToLocal := false, renControl := AsIs)
      && stream == From(old(stream), old(spoken)) && spoken == 0 && base == Base(inst.heard, outq, eom) && taken == 0
    }

    /** The flags go down, and what the flush left is recorded. */
    method Restart()
      modifies this`trace, this`split, this`stream, this`spoken, this`base, this`taken
      ensures trace == Then(old(trace), Flushed) && split == old(split).(inReset := false, outReset := false)
      ensures stream == From(old(stream), old(spoken)) && spoken == 0 && base == Base(inst.heard, outq, eom)
      ensures taken == 0
    {
      stream, spoken := From(stream, spoken), 0;
      base, taken := Base(inst.heard, outq, eom), 0;
      trace := Then(trace, Flushed);
      split := split.(inReset := false, outReset := false);
    }

    /** The invariants after a flush. */
    lemma AfterFlush()
      requires Valid() && (split.inReset || split.outReset) && !split.handleSDC
      ensures var t := Then(trace, Flushed);
        && SplitInv(t, split.(inReset := false, outReset := false))
        && StatusInv(t, status.(pending := false), writeBusy)
        && OutInv(t, Out([], 0, []))
        && JournalInv(world, first, t, Book().(pending := false, stream := From(stream, spoken)))
        && WriteInv(t, writeBusy, 0, false) && ReadInv(From(stream, spoken), t, true, false, 0, 0) && !InMessage(t)
        && host.aborts
    {
      hide SplitInv, StatusInv, OutInv, JournalInv, ReadInv, WriteInv, FromRead, Designates, InMessage;
      SplitFacts(trace, split);
      SplitAfterFlush(trace, split);
      StatusAfterReset(trace, Flushed, status, writeBusy);
      OutAfterReset(trace, Flushed, out, []);
      JournalFacts(world, first, trace, Book());
      JournalUntouched(world, first, trace, Flushed, Book());
      JournalRestarts(world, first, Then(trace, Flushed), Book(), From(stream, spoken));
      FreshAfterFlush(From(stream, spoken), trace, writeBusy);
    }

    /** What the instrument has received and what the bulk-OUT stream still owes it. */
    ghost function Account(): seq<(byte, bool)>
      reads this
    {
      inst.heard + Owed(outq, cursor, remaining, eom)
    }

    /** The middle of TMC_Task: serve what is due between transfers and take a header, or take a
        further packet of the open transfer. */
    method TransferStep(p: Pass)
      requires Settled() && MayPass(host, p) && KeepsPlaces()
      modifies this`split, this`status, this`requests, this`next, this`inst, this`trace, this`driven, this`cursor
      modifies this`writeBusy, this`out, this`config, this`outq, this`lastComplete, this`remaining, this`eom
      modifies this`terminatorEnabled, this`spoken, this`stuck, this`inLastComplete, readBuffer
      modifies this`interrupts
      ensures SettledOrStuck()
      ensures Since(old(trace), trace)
      ensures outq == old(outq) || (p.seen && old(outq) != [] && outq == old(outq)[1..])
      ensures Calm(trace) ==> Account() == old(Account())
      ensures p.seen && old(outq) != [] && NoAborts(trace) ==> |outq| < |old(outq)| || cursor > old(cursor)
      ensures NoAborts(trace) && old(PacketsInPlace()) ==>
        && PacketsInPlace() && (!stuck ==> Due() == old(Due()))
        && (stuck ==> old(Asks(outq, remaining)) != [] && host.window.None?)
        && outq == if p.seen && old(outq) != [] then old(outq)[1..] else old(outq)
    {
      hide Valid, SplitInv, StatusInv, OutInv, JournalInv, ReadInv, WriteInv, FromRead, Designates, TransferSize,
        InPlace, Since, NoAborts, NoInternal, Served, Undisturbed, Asks, Owed;
      SinceItself(trace);
      if remaining == 0 {
        ServeRequests(p);
        ghost var served := trace;
        SinceItself(served);
        if p.seen && outq != [] { HandleHeader(); }
        SinceTransitive(old(trace), served, trace);
        SinceCalm(served, trace);
      } else if p.seen && outq != [] {
        if PacketsInPlace() { InPlaceTail(outq, remaining, host.window); }
        AfterChunk(outq, cursor, remaining, eom);
        HandleMoreBytes();
      }
      SinceCalm(old(trace), trace);
    }

    /** Since the last flush: what the instrument has received and the packets still owe is what it had received
        and they owed then; and if the packets that were left then were in their places, they are worked off
        one by one, and each read request among them answered once. */
    ghost predicate Kept()
      reads this
    {
      && Suffix(outq, base.outq)
      && (Calm(trace) ==> Account() == base.heard + Owed(base.outq, 0, 0, base.eom))
      && (NoAborts(trace) && InPlace(base.outq, 0, host.window) ==>
            && PacketsInPlace() && |outq| == (if taken < |base.outq| then |base.outq| - taken else 0)
            && (!stuck ==> Due() == Asks(base.outq, 0))
            && (stuck ==> Asks(base.outq, 0) != [] && host.window.None?))
    }

    /** The middle of a pass, in terms of the last flush. */
    method Step(p: Pass)
      requires Settled() && MayPass(host, p) && KeepsPlaces() && Kept()
      modifies this, readBuffer
      ensures SettledOrStuck()
      ensures Since(old(trace), trace) && KeepsPlaces() && Kept()
      ensures base == old(base) && stream == old(stream) && taken == old(taken) + if p.seen then 1 else 0
      ensures p.seen && old(outq) != [] && NoAborts(trace) ==> |outq| < |old(outq)| || cursor > old(cursor)
    {
      hide Valid, SplitInv, StatusInv, OutInv, JournalInv, ReadInv, WriteInv, FromRead, Designates, Owed, InPlace,
        NoAborts, NoInternal, Served, Asks, Undisturbed, Orphaned;
      TransferStep(p);
      taken := taken + if p.seen then 1 else 0;
      SinceCalm(old(trace), trace);
      Facts();
      SuffixTail(old(outq), base.outq);
    }

    /** At first, and after a flush. */
    lemma KeptAtFirst()
      requires cursor == 0 && remaining == 0 && !stuck && Served(trace) == []
      requires base == Base(inst.heard, outq, eom) && taken == 0
      ensures Kept()
    {
      SuffixItself(outq);
    }

    /** The end of a pass, in terms of the last flush. */
    method Conclude(flush: nat)
      requires Settled() && KeepsPlaces() && Kept()
      modifies this`next, this`inst, this`trace, this`split, this`status, this`requests, this`out, this`outq, this`cursor
      modifies this`lastComplete, this`inLastComplete, this`remaining, this`stream, this`spoken, this`base, this`taken
      ensures Settled() && NoAborts(trace) && Extends(trace, old(trace)) && KeepsPlaces() && Kept()
      ensures if Flushes(trace) == Flushes(old(trace)) then
          && base == old(base) && stream == old(stream) && taken == old(taken) && outq == old(outq)
          && cursor == old(cursor) && NoAborts(old(trace))
        else Suffix(base.outq, old(base.outq)) && host.aborts
    {
      hide Valid, SplitInv, StatusInv, OutInv, JournalInv, ReadInv, WriteInv, FromRead, Designates, Owed, InPlace,
        NoAborts, NoInternal, Served, Asks, Undisturbed, Orphaned, Extends, Flushes, InMessage, AtRest, WriteReady,
        ReadReady;
      ghost var owing := split.inReset || split.outReset;
      SuffixTransitive(outq, outq, base.outq);
      ExtendsItself(trace);
      Epilogue(flush);
      Facts();
      if owing {
        FlushCounted(old(trace), trace);
        SuffixTransitive(outq, old(outq), old(base.outq));
        KeptAtFirst();
      }
    }

    /** The notice of a status reply, in terms of the last flush. */
    method Report(visits: seq<Visit>)
      requires Settled() && MayAll(host, visits) && KeepsPlaces() && Kept()
      modifies this`split, this`status, this`requests, this`next, this`inst, this`trace, this`interrupts
      ensures Settled() && KeepsPlaces() && Kept()
      ensures Extends(trace, old(trace)) && Flushes(trace) == Flushes(old(trace))
      ensures NoAborts(trace) ==> NoAborts(old(trace))
    {
      hide Settled, Valid, Owed, InPlace, NoAborts, NoInternal, Served, Asks, Later, Since, Extends, Flushes;
      ReportStatus(visits);
      SinceCalm(old(trace), trace);
      SinceNoFlush(old(trace), trace);
    }

    /** The end of a pass. */
    method Finish(p: Pass)
      requires Settled() && MayPass(host, p) && KeepsPlaces() && Kept()
      modifies this
      ensures Settled() && NoAborts(trace) && Extends(trace, old(trace)) && KeepsPlaces() && Kept()
      ensures if Flushes(trace) == Flushes(old(trace)) then
          && base == old(base) && stream == old(stream) && taken == old(taken) && outq == old(outq)
          && cursor == old(cursor) && NoAborts(old(trace))
        else Suffix(base.outq, old(base.outq)) && host.aborts
    {
      hide Settled, Kept, KeepsPlaces, NoAborts, Extends, Flushes, Suffix;
      Report(p.whileReporting);
      ghost var reported := trace;
      Conclude(p.flush);
      ExtendsTransitive(trace, reported, old(trace));
    }

    /** TMC_Task of a configured device. */
    method TmcTask(p: Pass)
      requires Settled() && MayPass(host, p) && KeepsPlaces() && Kept()
      modifies this, readBuffer
      ensures SettledOrStuck() && (!stuck ==> NoAborts(trace))
      ensures Extends(trace, old(trace)) && KeepsPlaces() && Kept()
      ensures p.seen && old(outq) != [] && NoAborts(trace) && Flushes(trace) == Flushes(old(trace)) ==>
        |outq| < |old(outq)| || cursor > old(cursor)
      ensures if Flushes(trace) == Flushes(old(trace)) then
          base == old(base) && stream == old(stream) && taken == old(taken) + if p.seen then 1 else 0
        else Suffix(base.outq, old(base.outq)) && host.aborts
    {
      hide Valid, SplitInv, StatusInv, OutInv, JournalInv, ReadInv, WriteInv, FromRead, Designates, Owed, InPlace,
        NoAborts, NoInternal, Served, Asks, Undisturbed, Orphaned, Later, Since, Extends, Flushes, Kept;
      Step(p);
      ghost var stepped := trace;
      SinceNoFlush(old(trace), stepped);
      ExtendsItself(stepped);
      if !stuck { Finish(p); }
      ExtendsTransitive(trace, stepped, old(trace));
    }

    /** The main loop: TMC_Task and the USB task in turn, until the script ends or the adapter waits
        for a talker that says nothing. */
    method Run(passes: seq<Pass>)
      requires Settled() && MayPasses(host, passes) && KeepsPlaces() && Kept()
      modifies this, readBuffer
      ensures SettledOrStuck()
      ensures Extends(trace, old(trace)) && Behaved(host, trace) && Kept()
      ensures if Flushes(trace) == Flushes(old(trace)) then
          base == old(base) && stream == old(stream) && (!stuck ==> taken == old(taken) + Seen(passes))
        else Suffix(base.outq, old(base.outq)) && host.aborts
      ensures SplitsSound(trace) && StatusConserved(trace) && AnswersSound(trace)
      ensures OneAtATime(trace) ==> AnsweredOnce(trace) && (status.pending && NoAborts(trace) ==> writeBusy)
      ensures Undisturbed(trace) ==> ReadsSound(stream, trace) && spoken == |Delivered(trace)|
      ensures Internals.CommandsSound(trace, world.memory, first.config)
      ensures config == Internals.ConfigAfter(trace, world.memory, first.config)
      ensures AnswersOf(trace, first.device.answered, inst.answered)
      ensures OrdersOf(trace, first.device.obeyed, inst.obeyed)
      ensures interrupts == InterruptsOf(trace) && NoticesSound(trace) && requests.notice == ToNotice(trace)
      ensures NoAborts(trace) ==> Usb.Short(Usb.RepliesOf(trace)) && out.sent == Usb.Sent(Usb.RepliesOf(trace))
    {
      hide Valid, Settled, SettledOrStuck, ReadReady, Stopped, SplitInv, StatusInv, OutInv, JournalInv, ReadInv,
        WriteInv, FromRead, Designates, Owed, InPlace, NoAborts, NoInternal, Served, Asks, Undisturbed, Orphaned,
        Later, Since, Extends, Flushes, Kept, Seen, SplitsSound, StatusConserved, AnswersSound, AnsweredOnce,
        OneAtATime, NoticesSound, AnswersOf, OrdersOf, ReadsSound, KeepsPlaces, MayPass, InterruptsOf, ToNotice,
        Internals.CommandsSound, Internals.ConfigAfter, Usb.Short, Usb.Sent, Behaved, Suffix;
      var i := 0;
      SeenAtFirst(passes);
      ExtendsItself(trace);
      SuffixItself(base.outq);
      NotStuckYet();
      while i < |passes| && !stuck
        invariant 0 <= i <= |passes|
        invariant SettledOrStuck() && Extends(trace, old(trace)) && KeepsPlaces() && Kept()
        invariant Suffix(base.outq, old(base.outq))
        invariant if Flushes(trace) == Flushes(old(trace)) then
            base == old(base) && stream == old(stream) && (!stuck ==> taken == old(taken) + Seen(passes[..i]))
          else host.aborts
      {
        ghost var before := trace;
        ghost var base0 := base.outq;
        Standing();
        TurnOnce(passes[i]);
        Onwards(old(trace), before, trace);
        SuffixItself(base0);
        SuffixTransitive(base.outq, base0, old(base.outq));
        SeenOneMore(passes, i);
        i := i + 1;
      }
      Standing();
      Promises();
    }

    /** What the invariants promise. */
    lemma Promises()
      requires Valid() && ReadReady()
      ensures Behaved(host, trace)
      ensures SplitsSound(trace) && StatusConserved(trace) && AnswersSound(trace)
      ensures OneAtATime(trace) ==> AnsweredOnce(trace) && (status.pending && NoAborts(trace) ==> writeBusy)
      ensures Undisturbed(trace) ==> ReadsSound(stream, trace) && spoken == |Delivered(trace)|
      ensures Internals.CommandsSound(trace, world.memory, first.config)
      ensures config == Internals.ConfigAfter(trace, world.memory, first.config)
      ensures AnswersOf(trace, first.device.answered, inst.answered)
      ensures OrdersOf(trace, first.device.obeyed, inst.obeyed)
      ensures interrupts == InterruptsOf(trace) && NoticesSound(trace) && requests.notice == ToNotice(trace)
      ensures NoAborts(trace) ==> Usb.Short(Usb.RepliesOf(trace)) && out.sent == Usb.Sent(Usb.RepliesOf(trace))
    {
      hide Behaved, SplitsSound, StatusConserved, AnswersSound, AnsweredOnce, Designates, Undisturbed;
    }

    /** One turn of the main loop. */
    method TurnOnce(p: Pass)
      requires Settled() && MayPass(host, p) && KeepsPlaces() && Kept()
      modifies this, readBuffer
      ensures SettledOrStuck()
      ensures Extends(trace, old(trace)) && KeepsPlaces() && Kept()
      ensures if Flushes(trace) == Flushes(old(trace)) then
          base == old(base) && stream == old(stream) && taken == old(taken) + if p.seen then 1 else 0
        else Suffix(base.outq, old(base.outq)) && host.aborts
    {
      hide Valid, SplitInv, StatusInv, OutInv, JournalInv, ReadInv, WriteInv, FromRead, Designates, Owed, InPlace,
        NoAborts, NoInternal, Served, Asks, Undisturbed, Orphaned, Later, Since, Extends, Flushes;
      TmcTask(p);
      ghost var done := trace;
      SinceItself(done);
      if !stuck {
        Notify([p.after]);
        SinceLater(stream, done, trace);
      }
      SinceNoFlush(done, trace);
      SinceCalm(done, trace);
      ExtendsTransitive(trace, done, old(trace));
      Facts();
    }
  }
}

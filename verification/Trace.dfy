/** What a USB host and the GPIB can observe of the adapter, in order, and the promises the
    adapter makes about such a history. Nothing here mentions the adapter's own variables. */
module Trace {
  import opened Gpib

  const SUCCESS: byte := 0x01
  const PENDING: byte := 0x02
  const TRANSFER_NOT_IN_PROGRESS: byte := 0x81
  const SPLIT_NOT_IN_PROGRESS: byte := 0x82
  const SPLIT_IN_PROGRESS: byte := 0x83

  /** Size of a bulk endpoint bank and of a USBTMC message header. */
  const EPSIZE := 64
  const HEADER := 12

  /** Longest payload of one bulk-IN response: the read buffer of 1024 - 12 bytes. */
  const READ_BUFFER := 1012

  type Packet = seq<byte>

  datatype Split = AbortOut | AbortIn | Clear

  /** The USBTMC and USB488 control requests. */
  datatype Request =
    | ReadStatus(tag: byte)
    | Initiate(which: Split, transferTag: nat)
    | Check(which: Split)
    | Capabilities
    | Pulse
    | RenControl(value: nat)
    | LocalLockout
    | GoToLocal

  /** The answer to GET_CAPABILITIES: version 1.00 of both standards, the pulse request, aborts on match,
      trigger, remote control and service request supported. */
  const CAPABILITIES: seq<byte> := [SUCCESS, 0, 0, 1, 4, 1, 0, 0, 0, 0, 0, 0, 0, 1, 7, 7, 0, 0, 0, 0, 0, 0, 0, 0]

  datatype Event =
    | Header(tag: byte)                                   // a bulk-OUT header with this transfer tag was read
    | Arrived(tag: byte)                                  // READ_STATUS_BYTE taken from the host
    | StatusReply(tag: byte, polled: bv8, reply: bv8)     // ... and its answer
    | Answered(r: Request, answer: seq<byte>, reading: bool) // any other request; reading: in a bulk-IN read
    | AutoPoll(polled: bv8)                               // serial poll caused by SRQ
    | SdcCalled(recovered: bool)                          // selected device clear; recovered: it timed out
    | Flushed                                             // endpoints flushed, transfer state reset
    | Abandoned                                           // a read was aborted: transfer state reset
    | ChunkBegun(isInternal: bool)                        // a bulk-OUT packet is being processed
    | Internal(msg: seq<byte>, moved: bool, answer: seq<byte>) // it was this internal command: the adapter
                                                          // addresses another device now, or has an answer
    | WriteDone                                           // it was the last packet of its transfer
    | Triggered(recovered: bool)                          // recovered: it timed out
    | WentLocal(recovered: bool)                          // go to local
    | LockedOut(recovered: bool)                          // local lockout
    | Noticed(tag: byte, value: bv8)                      // a status reply is repeated on the interrupt endpoint
    | EndChar(c: byte)                                    // a read request set the termination character
    | TalkerAddressed                                     // the instrument is made talker
    | Response(tag: byte, want: nat, term: Option<byte>, mark: byte, payload: seq<byte>, eom: bool)
                                                          // a bulk-IN message read from the instrument
    | InternalResponse(tag: byte, want: nat, term: Option<byte>, mark: byte, payload: seq<byte>, eom: bool)
                                                          // ... or taken from the answer of an internal command

  /** A history, newest event outermost. */
  datatype Trace = Start | Then(past: Trace, ev: Event)

  ghost predicate Extends(t: Trace, base: Trace) {
    t == base || (t.Then? && Extends(t.past, base))
  }

  lemma {:induction false} ExtendsTransitive(a: Trace, b: Trace, c: Trace)
    requires Extends(a, b) && Extends(b, c)
    ensures Extends(a, c)
  {
    if a != b { ExtendsTransitive(a.past, b, c); }
  }

  // ---- Split transactions, aborts and clear -----------------------------------------------

  /** The transfer the host is told about: the tag of the last header. */
  function CurrentTag(t: Trace): byte {
    if t.Start? then 0 else if t.ev.Header? then t.ev.tag else CurrentTag(t.past)
  }

  predicate Accepted(answer: seq<byte>) { answer != [] && answer[0] == SUCCESS }

  /** The split transaction the host has open: whether the endpoints were flushed since, how many
      device clears were sent since, and whether it was opened during a bulk-IN read. */
  datatype SplitState = NoSplit | Open(which: Split, flushed: bool, sdcs: nat, inRead: bool)

  function OpenSplit(t: Trace): SplitState {
    if t.Start? then NoSplit else
      var s := OpenSplit(t.past);
      match t.ev
      case Answered(Initiate(w, _), a, reading) => if Accepted(a) then Open(w, false, 0, reading) else s
      case Answered(Check(_), a, _) => if Accepted(a) then NoSplit else s
      case SdcCalled(_) => if s.Open? then s.(sdcs := s.sdcs + 1) else s
      case Flushed => if s.Open? then s.(flushed := true) else s
      case _ => s
  }

  /** The open split is a clear that arrived during a bulk-IN read. */
  predicate FromRead(t: Trace) { OpenSplit(t).Open? && OpenSplit(t).inRead }

  /** A reset of the bulk-IN (bulk-OUT) side has been asked for and no flush has happened since. */
  predicate OwesIn(t: Trace) {
    t.Then? &&
    match t.ev
    case Answered(Initiate(w, _), a, _) =>
      w == AbortIn || (w == Clear && Accepted(a)) || OwesIn(t.past)
    case Flushed => false
    case _ => OwesIn(t.past)
  }

  predicate OwesOut(t: Trace) {
    t.Then? &&
    match t.ev
    case Answered(Initiate(w, _), a, _) =>
      w == AbortOut || (w == Clear && Accepted(a)) || OwesOut(t.past)
    case Flushed => false
    case _ => OwesOut(t.past)
  }

  /** The answers USBTMC 1.0 section 4.2.1 asks for, from the history alone: an INITIATE is refused
      while a split is open or, for an abort, if it names another transfer than the current one; a
      CHECK is refused unless that split is open, and pending while a reset is owed. (A clear
      refused for an open split is answered by two bytes.) */
  predicate AnswerSound(past: Trace, r: Request, answer: seq<byte>) {
    var s := OpenSplit(past);
    match r
    case Initiate(Clear, _) => answer == if s.Open? then [SPLIT_IN_PROGRESS, SUCCESS] else [SUCCESS]
    case Initiate(_, transferTag) =>
      answer == [if s.Open? then SPLIT_IN_PROGRESS
                 else if transferTag != CurrentTag(past) then TRANSFER_NOT_IN_PROGRESS
                 else SUCCESS,
                 CurrentTag(past)]
    case Check(w) =>
      && |answer| == (if w == Clear then 2 else 8)
      && answer[0] == (if !(s.Open? && s.which == w) then SPLIT_NOT_IN_PROGRESS
                       else if (w != AbortOut && OwesIn(past)) || (w != AbortIn && OwesOut(past)) then PENDING
                       else SUCCESS)
    case Capabilities => answer == CAPABILITIES
    case _ => answer == [SUCCESS]
  }

  /** Every request is answered as it should be; moreover a CHECK answered SUCCESS comes after a
      flush, and a clear has by then called for exactly one device clear, except that one opened
      during a bulk-IN read has called for none. */
  predicate SplitsSound(t: Trace) {
    t.Then? ==>
      && SplitsSound(t.past)
      && (t.ev.Answered? ==> AnswerSound(t.past, t.ev.r, t.ev.answer))
      && (t.ev.Answered? && t.ev.r.Check? && Accepted(t.ev.answer) ==>
            var s := OpenSplit(t.past);
            && s.Open? && s.which == t.ev.r.which && s.flushed
            && (s.which == Clear ==> s.sdcs == if s.inRead then 0 else 1))
  }

  // ---- Status bytes -----------------------------------------------------------------------

  /** The status bits, RQS excepted, seen by SRQ polls since the last status reply. */
  function Unreported(t: Trace): bv8 {
    if t.Start? then 0 else
      match t.ev
      case AutoPoll(b) => Unreported(t.past) | (b & 0xBF)
      case StatusReply(_, _, _) => 0
      case _ => Unreported(t.past)
  }

  predicate StatusConserved(t: Trace) {
    t.Then? ==>
      && StatusConserved(t.past)
      && (t.ev.StatusReply? ==> t.ev.reply == t.ev.polled | Unreported(t.past))
  }

  /** The transfer state is reset, and with it a request that waits is forgotten. */
  predicate Reset(e: Event) { e.Flushed? || e.Abandoned? }

  /** READ_STATUS_BYTE requests neither answered nor dropped, oldest first. */
  function Outstanding(t: Trace): seq<byte> {
    if t.Start? then [] else
      var o := Outstanding(t.past);
      match t.ev
      case Arrived(tag) => o + [tag]
      case StatusReply(_, _, _) => if o == [] then [] else o[1..]
      case Flushed => []
      case Abandoned => []
      case _ => o
  }

  /** Every reply answers the one outstanding request, and the end of a bulk-OUT transfer that was not
      aborted leaves none outstanding. */
  predicate AnsweredOnce(t: Trace) {
    t.Then? ==>
      && AnsweredOnce(t.past)
      && (t.ev.StatusReply? ==> Outstanding(t.past) == [t.ev.tag])
      && (t.ev.WriteDone? && NoAborts(t.past) ==> Outstanding(t.past) == [])
  }

  /** What became of the request that the history `u` ends with: it waits, it was answered, or a reset came
      first and it was dropped. */
  datatype Fate = Waiting | RepliedTo(tag: byte) | Dropped

  function FateOf(t: Trace, u: Trace): Fate
    decreases t
  {
    if t == u || t.Start? then Waiting
    else
      match FateOf(t.past, u)
      case Waiting =>
        if t.ev.StatusReply? then RepliedTo(t.ev.tag) else if Reset(t.ev) then Dropped else Waiting
      case RepliedTo(tag) => RepliedTo(tag)
      case Dropped => Dropped
  }

  /** Of a host that waits for answers: a request is answered under its own tag, unless a reset comes before
      the reply, and as long as neither has come it is the one outstanding. */
  lemma {:induction false} RequestIsAnswered(t: Trace, u: Trace)
    requires OneAtATime(t) && AnsweredOnce(t) && Extends(t, u) && u.Then? && u.ev.Arrived?
    ensures FateOf(t, u).Waiting? ==> Outstanding(t) == [u.ev.tag]
    ensures FateOf(t, u).RepliedTo? ==> FateOf(t, u).tag == u.ev.tag
    decreases t
  {
    if t != u { RequestIsAnswered(t.past, u); }
  }

  /** A status reply to be repeated on the interrupt endpoint. */
  datatype Copy = NoCopy | Copy(tag: byte, value: bv8)

  /** The one that is still to be repeated. */
  function ToNotice(t: Trace): Copy {
    if t.Start? then NoCopy
    else
      match t.ev
      case StatusReply(tag, _, reply) => Copy(tag, reply)
      case Noticed(_, _) => NoCopy
      case _ => ToNotice(t.past)
  }

  /** What is repeated is the last reply that was not. */
  predicate NoticesSound(t: Trace) {
    t.Then? ==> NoticesSound(t.past) && (t.ev.Noticed? ==> ToNotice(t.past) == Copy(t.ev.tag, t.ev.value))
  }

  /** What became of the notice of the reply that the history `u` ends with: it is still to be sent, it was
      sent, or another reply came first. */
  datatype Notice = ToCome | Repeated(tag: byte, value: bv8) | Overwritten

  function NoticeOf(t: Trace, u: Trace): Notice
    decreases t
  {
    if t == u || t.Start? then ToCome
    else
      match NoticeOf(t.past, u)
      case ToCome =>
        if t.ev.Noticed? then Repeated(t.ev.tag, t.ev.value) else if t.ev.StatusReply? then Overwritten else ToCome
      case Repeated(tag, value) => Repeated(tag, value)
      case Overwritten => Overwritten
  }

  /** A reply is repeated, with its tag and value, if and only if no other reply comes before its notice. */
  lemma {:induction false} ReplyIsNoticed(t: Trace, u: Trace)
    requires NoticesSound(t) && Extends(t, u) && u.Then? && u.ev.StatusReply?
    ensures NoticeOf(t, u).ToCome? ==> ToNotice(t) == Copy(u.ev.tag, u.ev.reply)
    ensures NoticeOf(t, u).Repeated? ==> NoticeOf(t, u) == Repeated(u.ev.tag, u.ev.reply)
    decreases t
  {
    if t != u { ReplyIsNoticed(t.past, u); }
  }

  // ---- Bulk-IN ----------------------------------------------------------------------------

  type Talk = nat -> (byte, bool)

  predicate Ends(b: (byte, bool), term: Option<byte>) {
    b.1 || (term.Some? && b.0 == term.value)
  }

  /** What the talker says `i` bytes after position `pos`. */
  function Spoken(talk: Talk, pos: nat, i: nat): (byte, bool) { talk(pos + i) }

  /** The instrument has been made talker and its message has not been delivered to its end. A response to
      a request for no bytes changes nothing. */
  predicate InMessage(t: Trace) {
    t.Then? &&
    match t.ev
    case TalkerAddressed => true
    case Response(_, _, _, _, payload, eom) => !eom && (payload != [] || InMessage(t.past))
    case Flushed => false
    case _ => InMessage(t.past)
  }

  /** What the instrument was read, since the last flush. */
  function Delivered(t: Trace): seq<byte> {
    if t.Start? || t.ev.Flushed? then []
    else if t.ev.Response? then Delivered(t.past) + t.ev.payload else Delivered(t.past)
  }

  /** A request to read: its tag, the size it asks for and the termination character it sets. */
  datatype Ask = Ask(tag: byte, want: nat, term: Option<byte>)

  /** The requests answered since the last flush. */
  function Served(t: Trace): seq<Ask> {
    if t.Start? then []
    else
      match t.ev
      case Response(tag, want, term, _, _, _) => Served(t.past) + [Ask(tag, want, term)]
      case InternalResponse(tag, want, term, _, _, _) => Served(t.past) + [Ask(tag, want, term)]
      case Flushed => []
      case _ => Served(t.past)
  }

  /** The part of an internal command's answer that the host has not been given yet. */
  function Buffered(t: Trace): seq<byte> {
    if t.Start? then [] else
      match t.ev
      case Internal(_, _, answer) => answer
      case InternalResponse(_, _, _, _, payload, eom) =>
        var b := Buffered(t.past);
        if eom || |payload| > |b| then [] else b[|payload|..]
      case Flushed => []
      case Abandoned => []
      case _ => Buffered(t.past)
  }

  /** The last response was part of such an answer and did not end it. */
  predicate Partial(t: Trace) {
    t.Then? &&
    match t.ev
    case InternalResponse(_, _, _, _, _, eom) => !eom
    case Response(_, _, _, _, payload, eom) => payload == [] && !eom && Partial(t.past)
    case Flushed => false
    case Abandoned => false
    case _ => Partial(t.past)
  }

  /** Which responses come from where: as long as an answer of an internal command is buffered a response
      is its next part, and ends it exactly if all of it fits; otherwise, and only then, the instrument
      is addressed and read. Responses carry the tag of the request. */
  predicate AnswersSound(t: Trace) {
    t.Then? ==>
      && AnswersSound(t.past)
      && (t.ev.InternalResponse? ==>
            var b := Buffered(t.past);
            && b != [] && t.ev.tag == CurrentTag(t.past)
            && t.ev.payload == (if t.ev.want < |b| then b[..t.ev.want] else b)
            && t.ev.eom == (t.ev.want >= |b|))
      && (t.ev.Response? ==> Buffered(t.past) == [] && t.ev.tag == CurrentTag(t.past))
      && (t.ev.TalkerAddressed? ==> Buffered(t.past) == [])
  }

  /** The rest of a half-read answer is gone: the host still waits for it. */
  predicate Orphaned(t: Trace) { Partial(t) && Buffered(t) == [] }

  function Limit(want: nat): nat { if want < READ_BUFFER then want else READ_BUFFER }

  /** `payload` is what the talker says from position `pos`, cut at the first end or at the limit. */
  predicate CutSound(talk: Talk, pos: nat, want: nat, term: Option<byte>, payload: seq<byte>, eom: bool) {
    && |payload| <= Limit(want)
    && (forall i | 0 <= i < |payload| :: payload[i] == Spoken(talk, pos, i).0)
    && (forall i | 0 <= i < |payload| - 1 :: !Ends(Spoken(talk, pos, i), term))
    && (eom <==> payload != [] && Ends(Spoken(talk, pos, |payload| - 1), term))
    && (!eom ==> |payload| == Limit(want))
  }

  /** Everything read since the last flush is what the talker says, from where it was then. */
  predicate ReadsSound(talk: Talk, t: Trace) {
    t.Then? && !t.ev.Flushed? ==>
      && ReadsSound(talk, t.past)
      && (t.ev.TalkerAddressed? ==> !InMessage(t.past))
      && (t.ev.Response? ==>
            && (InMessage(t.past) || t.ev.payload == [])
            && CutSound(talk, |Delivered(t.past)|, t.ev.want, t.ev.term, t.ev.payload, t.ev.eom))
  }

  // ---- What the instrument was asked for -----------------------------------------------------

  /** The status byte of a serial poll. */
  function PollOf(e: Event): Option<bv8> {
    match e
    case StatusReply(_, polled, _) => Some(polled)
    case AutoPoll(polled) => Some(polled)
    case _ => None
  }

  /** A device that had given the status bytes `before` has given `now`: one for each poll, in order,
      except that a poll recorded as 0 may have found no answer. (At a new address there is another
      device.) */
  predicate AnswersOf(t: Trace, before: seq<bv8>, now: seq<bv8>) {
    if t.Start? then now == before
    else if t.ev.Internal? && t.ev.moved then true
    else
      match PollOf(t.ev)
      case None => AnswersOf(t.past, before, now)
      case Some(b) =>
        (now != [] && now[|now| - 1] == b && AnswersOf(t.past, before, now[..|now| - 1]))
        || (b == 0 && AnswersOf(t.past, before, now))
  }

  /** The order an event gives, and whether it timed out. */
  function OrderOf(e: Event): Option<(byte, bool)> {
    match e
    case SdcCalled(recovered) => Some((SDC, recovered))
    case Triggered(recovered) => Some((GET, recovered))
    case WentLocal(recovered) => Some((GTL, recovered))
    case LockedOut(recovered) => Some((LLO, recovered))
    case _ => None
  }

  /** A device that had obeyed the orders `before` has obeyed `now`: each device clear, trigger, go to local
      and lockout of the history exactly once and in order, except that one that timed out may not have
      reached it. */
  predicate OrdersOf(t: Trace, before: seq<byte>, now: seq<byte>) {
    if t.Start? then now == before
    else if t.ev.Internal? && t.ev.moved then true
    else
      match OrderOf(t.ev)
      case None => OrdersOf(t.past, before, now)
      case Some((order, recovered)) =>
        (now != [] && now[|now| - 1] == order && OrdersOf(t.past, before, now[..|now| - 1]))
        || (recovered && OrdersOf(t.past, before, now))
  }

  /** No order was given, at one address all the time. */
  predicate NoOrders(t: Trace) {
    t.Then? ==> NoOrders(t.past) && OrderOf(t.ev).None? && !t.ev.Internal?
  }

  lemma {:induction false} NothingObeyed(t: Trace, before: seq<byte>, now: seq<byte>)
    requires NoOrders(t) && OrdersOf(t, before, now)
    ensures now == before
  {
    if t.Then? { NothingObeyed(t.past, before, now); }
  }

  // ---- The runs a promise is made for -----------------------------------------------------

  /** A request that asks for a reset: an abort, accepted or not, and an accepted clear. */
  predicate AsksForReset(e: Event) {
    e.Answered? && e.r.Initiate? && (e.r.which != Clear || Accepted(e.answer))
  }

  /** No reset was asked for since the last flush. */
  predicate NoAborts(t: Trace) {
    t.Then? ==> t.ev.Flushed? || (NoAborts(t.past) && !AsksForReset(t.ev))
  }

  /** No internal command came since then. */
  predicate NoInternal(t: Trace) {
    t.Then? ==> t.ev.Flushed? || (NoInternal(t.past) && t.ev != ChunkBegun(true) && !t.ev.Internal?)
  }

  /** How often the endpoints were flushed. */
  function Flushes(t: Trace): nat {
    if t.Start? then 0 else Flushes(t.past) + if t.ev.Flushed? then 1 else 0
  }

  /** The host lets the control pipe finish one request before it sends the next. */
  predicate OneAtATime(t: Trace) {
    t.Then? ==> OneAtATime(t.past) && (t.ev.Answered? || t.ev.Arrived? ==> Outstanding(t.past) == [])
  }

  /** Since the last flush nothing but reads addressed the instrument while one of its messages was being read,
      and no internal command made the adapter address another device. */
  predicate ReadsUndisturbed(t: Trace) {
    t.Then? && !t.ev.Flushed? ==>
      && ReadsUndisturbed(t.past)
      && (t.ev.Internal? ==> !t.ev.moved)
      && (InMessage(t.past) ==> !Disturbs(t.ev))
  }

  /** It may take the talker's role away. */
  predicate Disturbs(e: Event) {
    e.StatusReply? || e.AutoPoll? || e.ChunkBegun? || e.Internal? || e.Triggered? || e.WentLocal? || e.SdcCalled?
    || e == LockedOut(true)
  }

  /** Every response read from the instrument ended its message. */
  predicate WholeReads(t: Trace) {
    t.Then? ==> WholeReads(t.past) && (t.ev.Response? ==> t.ev.eom)
  }

  predicate Calm(t: Trace) { NoAborts(t) && NoInternal(t) }
  predicate Undisturbed(t: Trace) { NoAborts(t) && ReadsUndisturbed(t) }

  /** No reset is owed if and only if none was asked for since the last flush; then a split that is open has
      been flushed. */
  lemma {:induction false} NoAbortsOweNothing(t: Trace)
    ensures NoAborts(t) <==> !OwesIn(t) && !OwesOut(t)
    ensures NoAborts(t) && OpenSplit(t).Open? ==> OpenSplit(t).flushed
  {
    if t.Then? { NoAbortsOweNothing(t.past); }
  }

  // ---- What the promises mean, event by event ---------------------------------------------

  /** An INITIATE or CHECK that was accepted. */
  predicate SplitEvent(e: Event) {
    e.Answered? && (e.r.Initiate? || e.r.Check?) && Accepted(e.answer)
  }

  /** The history between `base` and `t` holds no accepted INITIATE or CHECK. */
  predicate NoSplitSince(t: Trace, base: Trace) {
    t == base || (t.Then? && !SplitEvent(t.ev) && NoSplitSince(t.past, base))
  }

  /** How many device clears were called for between `base` and `t`. */
  function SdcsSince(t: Trace, base: Trace): nat {
    if t == base || t.Start? then 0 else SdcsSince(t.past, base) + if t.ev.SdcCalled? then 1 else 0
  }

  predicate Initiates(t: Trace, w: Split) {
    t.Then? && t.ev.Answered? && t.ev.r.Initiate? && t.ev.r.which == w && Accepted(t.ev.answer)
  }

  /** A CHECK answered SUCCESS has its causes in the history, in this order: the INITIATE of the same
      kind, accepted; a flush; and no other split since the former. In between a clear has called for
      one device clear, or for none if it came during a bulk-IN read. */
  lemma SuccessHasCause(t: Trace, w: Split) returns (initiated: Trace, flush: Trace)
    requires SplitsSound(t) && t.Then? && t.ev.Answered? && t.ev.r == Check(w) && Accepted(t.ev.answer)
    ensures Extends(t.past, flush) && flush.Then? && flush.ev == Flushed
    ensures Extends(flush, initiated) && Initiates(initiated, w) && NoSplitSince(t.past, initiated)
    ensures w == Clear ==> SdcsSince(t.past, initiated) == if initiated.ev.reading then 0 else 1
  {
    initiated := InitiationOf(t.past);
    flush := FlushOf(t.past, initiated);
  }

  /** The split that is open was opened by its INITIATE, and no other split event came since. */
  lemma {:induction false} InitiationOf(t: Trace) returns (initiated: Trace)
    requires OpenSplit(t).Open?
    ensures Extends(t, initiated) && Initiates(initiated, OpenSplit(t).which) && NoSplitSince(t, initiated)
    ensures initiated.ev.reading == OpenSplit(t).inRead
    ensures SdcsSince(t, initiated) == OpenSplit(t).sdcs
  {
    if t.ev.Answered? && t.ev.r.Initiate? && Accepted(t.ev.answer) {
      initiated := t;
    } else {
      initiated := InitiationOf(t.past);
      NotLonger(t.past, initiated);
      assert Length(t) > Length(initiated);
    }
  }

  function Length(t: Trace): nat { if t.Start? then 0 else Length(t.past) + 1 }

  lemma {:induction false} NotLonger(t: Trace, base: Trace)
    requires Extends(t, base)
    ensures Length(base) <= Length(t)
    decreases t
  {
    if t != base { NotLonger(t.past, base); }
  }

  lemma {:induction false} FlushOf(t: Trace, initiated: Trace) returns (flush: Trace)
    requires OpenSplit(t).Open? && OpenSplit(t).flushed
    requires Extends(t, initiated) && NoSplitSince(t, initiated)
    requires initiated.Then? && initiated.ev.Answered? && initiated.ev.r.Initiate? && Accepted(initiated.ev.answer)
    ensures Extends(t, flush) && flush.Then? && flush.ev == Flushed && Extends(flush, initiated)
  {
    if t.ev == Flushed { flush := t; } else { flush := FlushOf(t.past, initiated); }
  }

  /** A clear that the host is told has succeeded, but that came during a bulk-IN read, has called for no
      device clear. */
  lemma ClearInReadIsLost(t: Trace) returns (initiated: Trace)
    requires SplitsSound(t) && t.Then? && t.ev.Answered? && t.ev.r == Check(Clear) && Accepted(t.ev.answer)
    requires OpenSplit(t.past).inRead
    ensures Extends(t.past, initiated) && Initiates(initiated, Clear) && SdcsSince(t.past, initiated) == 0
  {
    initiated := InitiationOf(t.past);
  }

  /** The history between `base` and `t` holds no status reply. */
  predicate NoReplySince(t: Trace, base: Trace) {
    t == base || (t.Then? && !t.ev.StatusReply? && NoReplySince(t.past, base))
  }

  /** A bit seen by an SRQ poll is in the next status reply: none is lost on the way. */
  lemma {:induction false} PolledBitsReachTheReply(t: Trace, seen: Trace)
    requires t.Then? && t.ev.StatusReply? && StatusConserved(t)
    requires seen.Then? && seen.ev.AutoPoll? && NoReplySince(t.past, seen)
    ensures t.ev.reply & seen.ev.polled & 0xBF == seen.ev.polled & 0xBF
  {
    UnreportedGrows(t.past, seen);
    BitsStay(Unreported(seen.past), seen.ev.polled & 0xBF, Unreported(t.past), t.ev.polled);
  }

  lemma BitsStay(before: bv8, bits: bv8, later: bv8, polled: bv8)
    requires (before | bits) & later == before | bits
    ensures (polled | later) & bits == bits
  {
  }

  lemma {:induction false} UnreportedGrows(t: Trace, base: Trace)
    requires NoReplySince(t, base)
    ensures Unreported(base) & Unreported(t) == Unreported(base)
  {
    if t != base { UnreportedGrows(t.past, base); }
  }

  /** ... and none is reported twice: apart from what it polls itself, a status reply tells only bits
      that SRQ polls saw after the previous reply. */
  lemma {:induction false} ReplyTellsOnlyNewBits(t: Trace, previous: Trace, bit: bv8) returns (seen: Trace)
    requires previous.Then? && previous.ev.StatusReply? && NoReplySince(t, previous)
    requires Unreported(t) & bit != 0
    ensures Extends(t, seen) && NoReplySince(seen, previous) && seen != previous
    ensures seen.Then? && seen.ev.AutoPoll? && seen.ev.polled & bit != 0
  {
    if t.ev.AutoPoll? && t.ev.polled & bit != 0 {
      seen := t;
    } else {
      if t.ev.AutoPoll? { BitFromEither(Unreported(t.past), t.ev.polled, bit); }
      seen := ReplyTellsOnlyNewBits(t.past, previous, bit);
    }
  }

  lemma BitFromEither(a: bv8, b: bv8, bit: bv8)
    ensures (a | (b & 0xBF)) & bit != 0 ==> a & bit != 0 || b & bit != 0
  {
  }

  /** What was delivered since the last flush is what the talker said from there on, none lost or repeated. */
  lemma {:induction false} DeliveredIsSpoken(talk: Talk, t: Trace)
    requires ReadsSound(talk, t)
    ensures forall i | 0 <= i < |Delivered(t)| :: Delivered(t)[i] == Spoken(talk, 0, i).0
  {
    if t.Then? && !t.ev.Flushed? {
      DeliveredIsSpoken(talk, t.past);
      if t.ev.Response? {
        var from := |Delivered(t.past)|;
        forall i | from <= i < |Delivered(t)| ensures Delivered(t)[i] == Spoken(talk, 0, i).0 {
          assert Delivered(t)[i] == t.ev.payload[i - from];
          assert t.ev.payload[i - from] == Spoken(talk, from, i - from).0;
        }
      }
    }
  }

  /** The answer of the last internal command, unless a reset came since. */
  function LastAnswer(t: Trace): seq<byte> {
    if t.Start? then []
    else
      match t.ev
      case Internal(_, _, answer) => answer
      case Flushed => []
      case Abandoned => []
      case _ => LastAnswer(t.past)
  }

  /** What the host has been given of it. */
  function GivenOfAnswer(t: Trace): seq<byte> {
    if t.Start? then []
    else
      match t.ev
      case Internal(_, _, _) => []
      case InternalResponse(_, _, _, _, payload, _) => GivenOfAnswer(t.past) + payload
      case Flushed => []
      case Abandoned => []
      case _ => GivenOfAnswer(t.past)
  }

  lemma PartsOfAnswer(given: seq<byte>, rest: seq<byte>, want: nat, payload: seq<byte>, eom: bool)
    requires rest != [] && payload == (if want < |rest| then rest[..want] else rest) && eom == (want >= |rest|)
    ensures |payload| <= |rest|
    ensures given + payload + (if eom then [] else rest[|payload|..]) == given + rest
    ensures eom <==> given + payload == given + rest
  {
    if !eom {
      assert rest == payload + rest[want..];
      assert |given + payload| < |given + rest|;
    }
  }

  /** However the host cuts it, an answer is given from its first byte on, nothing lost or repeated, and
      the end-of-message flag comes with its last byte. */
  lemma {:induction false} AnswerArrives(t: Trace)
    requires AnswersSound(t)
    ensures GivenOfAnswer(t) + Buffered(t) == LastAnswer(t)
    ensures t.Then? && t.ev.InternalResponse? ==> (t.ev.eom <==> GivenOfAnswer(t) == LastAnswer(t))
  {
    if t.Then? {
      AnswerArrives(t.past);
      if t.ev.InternalResponse? {
        PartsOfAnswer(GivenOfAnswer(t.past), Buffered(t.past), t.ev.want, t.ev.payload, t.ev.eom);
      }
    }
  }

  /** How a read comes to be orphaned: an internal command without an answer, when the answer before it had
      been read in part; and no command with an answer since. */
  lemma {:induction false} OrphanedBy(t: Trace) returns (u: Trace)
    requires AnswersSound(t) && Orphaned(t)
    ensures Extends(t, u) && u.Then? && u.ev.Internal? && u.ev.answer == [] && Partial(u.past)
    ensures NoAnswerSince(t, u)
  {
    if t.ev.Internal? { u := t; } else { u := OrphanedBy(t.past); }
  }

  predicate NoAnswerSince(t: Trace, base: Trace) {
    t == base || (t.Then? && (t.ev.Internal? ==> t.ev.answer == []) && NoAnswerSince(t.past, base))
  }

  /** Without internal commands there are no answers to read. */
  lemma {:induction false} NoInternalNoAnswer(t: Trace)
    requires NoInternal(t) && AnswersSound(t)
    ensures Buffered(t) == [] && !Partial(t)
  {
    if t.Then? && !t.ev.Flushed? { NoInternalNoAnswer(t.past); }
  }

  /** Where in the talker's stream the message being read, or last read, began. */
  function Began(t: Trace): nat {
    if t.Start? || t.ev.Flushed? then 0
    else if t.ev.TalkerAddressed? then |Delivered(t.past)|
    else Began(t.past)
  }

  /** All requests ask for the same termination. */
  predicate SameTerm(t: Trace, term: Option<byte>) {
    t.Then? ==> SameTerm(t.past, term) && (t.ev.Response? ==> t.ev.term == term)
  }

  /** A message is cut at its first end: none of its bytes delivered so far is an end, except the last
      one when the message is complete. */
  lemma {:induction false} MessageCutAtFirstEnd(talk: Talk, t: Trace, term: Option<byte>)
    requires ReadsSound(talk, t) && SameTerm(t, term)
    ensures Began(t) <= |Delivered(t)|
    ensures InMessage(t) ==> forall i | Began(t) <= i < |Delivered(t)| :: !Ends(Spoken(talk, 0, i), term)
    ensures !InMessage(t) ==> forall i | Began(t) <= i < |Delivered(t)| - 1 :: !Ends(Spoken(talk, 0, i), term)
    ensures !InMessage(t) && Delivered(t) != [] ==> Ends(Spoken(talk, 0, |Delivered(t)| - 1), term)
  {
    if t.Then? && !t.ev.Flushed? {
      MessageCutAtFirstEnd(talk, t.past, term);
      if t.ev.Response? {
        var from := |Delivered(t.past)|;
        forall i | from <= i < |Delivered(t)| ensures Spoken(talk, 0, i) == Spoken(talk, from, i - from) {
        }
      }
    }
  }
}

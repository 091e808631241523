/** Bulk-IN responses on the wire: the chunked stream writer, the byte-wise one it replaces, and the
    rule that ends a transfer with a short packet (USB 2.0 section 5.8.3). */
module UsbPackets {
  import opened Gpib
  import opened Trace

  function Flat(packets: seq<Packet>): seq<byte> {
    if packets == [] then [] else packets[0] + Flat(packets[1..])
  }

  // ---- What a transfer should look like ------------------------------------------------------

  /** The packets of one transfer: full ones, then one that is short, if need be empty. */
  function Packetise(data: seq<byte>): seq<Packet> {
    if |data| < EPSIZE then [data] else [data[..EPSIZE]] + Packetise(data[EPSIZE..])
  }

  /** How a host cuts a stream of packets back into transfers; an unfinished transfer is dropped. */
  function Transfers(packets: seq<Packet>, open: seq<byte>): seq<seq<byte>> {
    if packets == [] then []
    else if |packets[0]| < EPSIZE then [open + packets[0]] + Transfers(packets[1..], [])
    else Transfers(packets[1..], open + packets[0])
  }

  /** Full packets followed by one short one. */
  ghost predicate OneTransfer(packets: seq<Packet>) {
    && packets != []
    && (forall i | 0 <= i < |packets| - 1 :: |packets[i]| == EPSIZE)
    && |packets[|packets| - 1]| < EPSIZE
  }

  lemma {:induction false} PacketiseIsOneTransfer(data: seq<byte>)
    ensures OneTransfer(Packetise(data)) && Flat(Packetise(data)) == data
    decreases |data|
  {
    var p := Packetise(data);
    if |data| < EPSIZE {
      assert p[1..] == [];
    } else {
      PacketiseIsOneTransfer(data[EPSIZE..]);
      assert p[1..] == Packetise(data[EPSIZE..]);
    }
  }

  /** There is no other way to send the data: a well-terminated transfer is its packetisation. */
  lemma {:induction false} OneTransferIsPacketise(packets: seq<Packet>)
    requires OneTransfer(packets)
    ensures packets == Packetise(Flat(packets))
    decreases |packets|
  {
    if |packets| == 1 {
      assert packets[1..] == [] && Flat(packets) == packets[0];
    } else {
      assert OneTransfer(packets[1..]) by {
        forall i | 0 <= i < |packets| - 2 ensures |packets[1..][i]| == EPSIZE {
          assert packets[1..][i] == packets[i + 1];
        }
      }
      OneTransferIsPacketise(packets[1..]);
      var d := Flat(packets);
      assert d[..EPSIZE] == packets[0] && d[EPSIZE..] == Flat(packets[1..]);
      assert packets == [packets[0]] + packets[1..];
    }
  }

  /** A host reads back exactly the transfers that were sent, whatever their lengths. */
  lemma {:induction false} HostReadsTransfer(data: seq<byte>, open: seq<byte>, rest: seq<Packet>)
    ensures Transfers(Packetise(data) + rest, open) == [open + data] + Transfers(rest, [])
    decreases |data|
  {
    var q := Packetise(data) + rest;
    if |data| < EPSIZE {
      assert q[0] == data && q[1..] == rest;
    } else {
      assert q[0] == data[..EPSIZE] && q[1..] == Packetise(data[EPSIZE..]) + rest;
      HostReadsTransfer(data[EPSIZE..], open + q[0], rest);
      assert open + q[0] + data[EPSIZE..] == open + data;
    }
  }

  // ---- Streaming into the bank ---------------------------------------------------------------

  /** The endpoint after `data` was streamed into it: a bank is committed only when a further byte has
      to be written and it is full. */
  datatype Stream = Stream(sent: seq<Packet>, bank: Packet)

  function Put(s: Stream, b: byte): Stream {
    if |s.bank| >= EPSIZE then Stream(s.sent + [s.bank], [b]) else Stream(s.sent, s.bank + [b])
  }

  function PutAll(s: Stream, data: seq<byte>): Stream
    decreases |data|
  {
    if data == [] then s else PutAll(Put(s, data[0]), data[1..])
  }

  lemma {:induction false} PutAllSplits(s: Stream, a: seq<byte>, b: seq<byte>)
    ensures PutAll(s, a + b) == PutAll(PutAll(s, a), b)
    decreases |a|
  {
    if a == [] {
      assert a + b == b;
    } else {
      assert (a + b)[1..] == a[1..] + b;
      PutAllSplits(Put(s, a[0]), a[1..], b);
    }
  }

  /** As long as it fits, streaming only fills the bank. */
  lemma {:induction false} PutAllFits(s: Stream, data: seq<byte>)
    requires |s.bank| + |data| <= EPSIZE
    ensures PutAll(s, data) == Stream(s.sent, s.bank + data)
    decreases |data|
  {
    if data == [] {
      assert s.bank + data == s.bank;
    } else {
      PutAllFits(Put(s, data[0]), data[1..]);
      assert s.bank + [data[0]] + data[1..] == s.bank + data;
    }
  }

  /** The final commit, and the empty packet after a transfer that ends on a packet boundary. */
  function Finish(s: Stream, length: nat): seq<Packet> {
    s.sent + [s.bank] + if length % EPSIZE == 0 then [[]] else []
  }

  /** Streaming into an empty bank, committing, and adding the empty packet when the length is a
      multiple of 64 gives exactly the packets of one transfer. */
  lemma {:induction false} StreamingPacketises(sent: seq<Packet>, data: seq<byte>)
    requires data != []
    ensures Finish(PutAll(Stream(sent, []), data), |data|) == sent + Packetise(data)
    decreases |data|
  {
    var s := Stream(sent, []);
    if |data| < EPSIZE {
      PutAllFits(s, data);
      assert [] + data == data && sent + [data] + [] == sent + [data];
    } else {
      var first, rest := data[..EPSIZE], data[EPSIZE..];
      assert data == first + rest;
      PutAllSplits(s, first, rest);
      PutAllFits(s, first);
      if rest == [] {
        assert first == data && Packetise(rest) == [[]];
        assert Packetise(data) == [data] + [[]];
      } else {
        assert [] + first == first;
        FullBankIsCommitted(sent, first, rest);
        StreamingPacketises(sent + [first], rest);
        assert |data| == EPSIZE + |rest|;
        assert sent + [first] + Packetise(rest) == sent + Packetise(data);
      }
    }
  }

  lemma FullBankIsCommitted(sent: seq<Packet>, full: Packet, rest: seq<byte>)
    requires |full| == EPSIZE && rest != []
    ensures PutAll(Stream(sent, full), rest) == PutAll(Stream(sent + [full], []), rest)
  {
    assert Put(Stream(sent, full), rest[0]) == Put(Stream(sent + [full], []), rest[0]);
  }

  // ---- The writers ---------------------------------------------------------------------------

  /** A stream cut short: `n` bytes of `data` were written before the endpoint failed. */
  ghost predicate CutShort(before: Stream, data: seq<byte>, after: Stream) {
    exists n | 0 <= n <= |data| :: CutAt(before, data, n, after)
  }

  ghost predicate CutAt(before: Stream, data: seq<byte>, n: nat, after: Stream)
    requires n <= |data|
  {
    var p := PutAll(before, data[..n]);
    after == p || (n < |data| && |p.bank| == EPSIZE && after == Stream(p.sent + [p.bank], []))
  }

  /** The bulk-IN endpoint. `lifetime`: for how many more banks the host is there; None: always. */
  class Endpoint {
    var sent: seq<Packet>
    var bank: Packet
    var lifetime: Option<nat>

    constructor (lifetime: Option<nat>)
      ensures Value() == Stream([], []) && this.lifetime == lifetime
    {
      sent, bank, this.lifetime := [], [], lifetime;
    }

    function Value(): Stream
      reads this
    {
      Stream(sent, bank)
    }

    /** Endpoint_WaitUntilReady: an error code once the host is gone. */
    method WaitUntilReady() returns (failed: bool)
      modifies this`lifetime
      ensures failed == (old(lifetime) == Some(0))
      ensures lifetime == if old(lifetime).None? || failed then old(lifetime) else Some(old(lifetime).value - 1)
    {
      failed := lifetime == Some(0);
      if lifetime.Some? && !failed { lifetime := Some(lifetime.value - 1); }
    }

    /** Endpoint_ClearIN commits the bank. */
    method ClearIn()
      modifies this`sent, this`bank
      ensures sent == old(sent) + [old(bank)] && bank == []
    {
      sent, bank := sent + [bank], [];
    }

    /** Endpoint_Write_8. Writing to a full bank would lose the byte. */
    method Write8(b: byte)
      requires |bank| < EPSIZE
      modifies this`bank
      ensures bank == old(bank) + [b]
    {
      bank := bank + [b];
    }

    /** Endpoint_Write_Stream_LE_noUsbTask: one byte at a time. */
    method WriteBytewise(data: seq<byte>) returns (failed: bool)
      requires |bank| <= EPSIZE
      modifies this
      ensures |bank| <= EPSIZE
      ensures !failed ==> Value() == PutAll(old(Value()), data)
      ensures failed ==> lifetime == Some(0) && CutShort(old(Value()), data, Value())
      ensures old(lifetime).None? ==> !failed && lifetime.None?
    {
      ghost var start := Value();
      NothingCut(start, data);
      failed := WaitUntilReady();
      if failed { return; }
      var i := 0;
      while i < |data|
        invariant 0 <= i <= |data| && |bank| <= EPSIZE && CutAt(start, data, i, Value())
        invariant old(lifetime).None? ==> lifetime.None?
        decreases |data| - i, |bank|
      {
        if |bank| >= EPSIZE {
          ClearIn();
          assert CutAt(start, data, i, Value());
          failed := WaitUntilReady();
          if failed { return; }
        } else {
          PutOne(start, data, i);
          Write8(data[i]);
          i := i + 1;
        }
      }
      assert data[..i] == data;
    }

    method WriteChunk(data: seq<byte>)
      requires |bank| + |data| <= EPSIZE
      modifies this`bank
      ensures bank == old(bank) + data
    {
      var i := 0;
      while i < |data|
        invariant 0 <= i <= |data| && bank == old(bank) + data[..i]
      {
        Write8(data[i]);
        i := i + 1;
      }
      assert data[..i] == data;
    }

    /** Endpoint_Write_Stream_LE_quick: a first chunk that fills the bank, then bank-sized chunks,
        without looking at the bank within a chunk. It never overfills it, and what it does to the
        endpoint is what the byte-wise writer does. */
    method WriteQuick(data: seq<byte>, firstChunk: nat, chunk: nat) returns (failed: bool)
      requires |bank| <= EPSIZE && 0 < firstChunk && chunk == EPSIZE
      requires |bank| + firstChunk == EPSIZE || lifetime == Some(0)
      modifies this
      ensures |bank| <= EPSIZE
      ensures !failed ==> Value() == PutAll(old(Value()), data)
      ensures failed ==> lifetime == Some(0) && CutShort(old(Value()), data, Value())
      ensures old(lifetime).None? ==> !failed && lifetime.None?
      ensures old(lifetime) == Some(0) ==> failed && Value() == old(Value())
    {
      ghost var start := Value();
      NothingCut(start, data);
      failed := WaitUntilReady();
      if failed { return; }
      var i, chunkLength := 0, firstChunk;
      while i < |data|
        invariant 0 <= i <= |data| && |bank| <= EPSIZE && 0 < chunkLength && CutAt(start, data, i, Value())
        invariant i < |data| ==> chunkLength == if |bank| == EPSIZE then EPSIZE else EPSIZE - |bank|
        invariant old(lifetime).None? ==> lifetime.None?
        decreases |data| - i, |bank|
      {
        if |bank| >= EPSIZE {
          ClearIn();
          assert CutAt(start, data, i, Value());
          failed := WaitUntilReady();
          if failed { return; }
        } else {
          if chunkLength > |data| - i { chunkLength := |data| - i; }
          PutPart(start, data, i, chunkLength, Value());
          WriteChunk(data[i..i + chunkLength]);
          i := i + chunkLength;
          chunkLength := chunk;
        }
      }
      assert data[..i] == data;
    }

    /** The response part of TMC_Task: header byte-wise, payload in chunks, commit, and an empty packet
        if the length is a multiple of 64. An aborted read skips header and payload but commits. The error
        codes of the writers are ignored: if the host leaves, what was sent is the response cut off
        behind its first `n` bytes. */
    method SendResponse(tag: byte, attributes: (bool, byte), payload: seq<byte>, aborted: bool) returns (ghost n: nat)
      requires bank == [] && |payload| <= READ_BUFFER
      modifies this
      ensures bank == [] && (old(lifetime).None? ==> lifetime.None?)
      ensures !aborted && old(lifetime).None? ==>
        sent == old(sent) + Packetise(ResponseHeader(tag, |payload|, attributes) + payload)
      ensures !aborted ==>
        && n <= HEADER + |payload|
        && Flat(sent) == Flat(old(sent)) + (ResponseHeader(tag, |payload|, attributes) + payload)[..n]
      ensures aborted ==>
        sent == old(sent) + [[]] + if (|payload| + HEADER) % EPSIZE == 0 then [[]] else []
    {
      hide ResponseHeader, Packetise, PutAll, Flat;
      n := 0;
      ghost var before := sent;
      assert Written(Value()) == Flat(before);
      if !aborted { n := WriteParts(ResponseHeader(tag, |payload|, attributes), payload); }
      Committed(Value());
      ClearIn();
      if (|payload| + HEADER) % EPSIZE == 0 {
        Committed(Value());
        var ignored := WaitUntilReady();
        ClearIn();
      }
      assert Written(Value()) == Flat(sent);
    }

    /** Header and payload into the empty bank. */
    method WriteParts(header: seq<byte>, payload: seq<byte>) returns (ghost n: nat)
      requires bank == [] && |header| == HEADER
      modifies this
      ensures |bank| <= EPSIZE && (old(lifetime).None? ==> lifetime.None?)
      ensures n <= |header + payload| && Written(Value()) == Written(old(Value())) + (header + payload)[..n]
      ensures old(lifetime).None? ==>
        Finish(Value(), |payload| + HEADER) == old(sent) + Packetise(header + payload)
    {
      hide Packetise, PutAll, Flat;
      ghost var start := Value();
      PutAllFits(start, header);
      var failed := WriteBytewise(header);
      n := Reached(start, header, Value(), failed);
      assert (header + payload)[..n] == header[..n];
      ghost var middle, gone := Value(), failed;
      failed := WriteQuick(payload, EPSIZE - HEADER, EPSIZE);
      if !gone {
        n := Reached(middle, payload, Value(), failed);
        assert (header + payload)[..HEADER + n] == header + payload[..n];
        n := HEADER + n;
      }
      if !failed {
        PutAllSplits(start, header, payload);
        StreamingPacketises(start.sent, header + payload);
      }
    }
  }

  /** All the bytes streamed so far. */
  ghost function Written(s: Stream): seq<byte> { Flat(s.sent) + s.bank }

  lemma {:induction false} FlatAppend(a: seq<Packet>, p: Packet)
    ensures Flat(a + [p]) == Flat(a) + p
    decreases |a|
  {
    if a == [] {
      assert a + [p] == [p] && [p][1..] == [];
    } else {
      assert (a + [p])[1..] == a[1..] + [p];
      FlatAppend(a[1..], p);
    }
  }

  lemma Committed(s: Stream)
    ensures Written(Stream(s.sent + [s.bank], [])) == Written(s)
  {
    FlatAppend(s.sent, s.bank);
  }

  lemma {:induction false} PutAllWrites(s: Stream, data: seq<byte>)
    ensures Written(PutAll(s, data)) == Written(s) + data
    decreases |data|
  {
    if data != [] {
      Committed(s);
      PutAllWrites(Put(s, data[0]), data[1..]);
    }
  }

  /** How many bytes of `data` a writer got out. */
  lemma Reached(before: Stream, data: seq<byte>, after: Stream, failed: bool) returns (n: nat)
    requires if failed then CutShort(before, data, after) else after == PutAll(before, data)
    ensures n <= |data| && (!failed ==> n == |data|) && Written(after) == Written(before) + data[..n]
  {
    n := |data|;
    if failed { n :| 0 <= n <= |data| && CutAt(before, data, n, after); }
    assert failed || data[..n] == data;
    PutAllWrites(before, data[..n]);
    Committed(PutAll(before, data[..n]));
  }

  lemma NothingCut(start: Stream, data: seq<byte>)
    ensures CutAt(start, data, 0, start) && CutShort(start, data, start)
  {
    assert data[..0] == [];
    assert CutAt(start, data, 0, start);
  }

  lemma PutOne(start: Stream, data: seq<byte>, i: nat)
    requires i < |data|
    ensures PutAll(start, data[..i + 1]) == Put(PutAll(start, data[..i]), data[i])
  {
    assert data[..i + 1] == data[..i] + [data[i]];
    PutAllSplits(start, data[..i], [data[i]]);
    var p := PutAll(start, data[..i]);
    assert PutAll(p, [data[i]]) == PutAll(Put(p, data[i]), [data[i]][1..]);
  }

  /** A part that fits into what is left of the bank. */
  lemma PutPart(start: Stream, data: seq<byte>, i: nat, n: nat, now: Stream)
    requires i + n <= |data| && 0 < n && CutAt(start, data, i, now) && |now.bank| < EPSIZE && |now.bank| + n <= EPSIZE
    ensures PutAll(start, data[..i + n]) == Stream(now.sent, now.bank + data[i..i + n])
  {
    var part, p := data[i..i + n], PutAll(start, data[..i]);
    assert data[..i + n] == data[..i] + part;
    PutAllSplits(start, data[..i], part);
    PutAllFits(now, part);
    if now != p { FullBankIsCommitted(p.sent, p.bank, part); }
  }

  /** The 12 bytes of WriteTMCHeader: identifier, tag and its complement, transfer size little endian,
      end-of-message flag and termination character. */
  function ResponseHeader(tag: byte, size: nat, attributes: (bool, byte)): (h: seq<byte>)
    requires size <= READ_BUFFER
    ensures |h| == HEADER
  {
    [0x02, tag, 255 - tag, 0, size % 0x100, size / 0x100, 0, 0,
     if attributes.0 then 1 else 0, attributes.1, 0, 0]
  }

  /** What a host makes of one transfer: tag, payload cut to the announced size, end of message. */
  function Decode(data: seq<byte>): Option<(byte, seq<byte>, bool)> {
    if |data| < HEADER || data[0] != 0x02 || (data[1] as int) + (data[2] as int) != 255 then None
    else
      var size := (data[4] as int) + 0x100 * (data[5] as int) + 0x1_0000 * (data[6] as int) + 0x100_0000 * (data[7] as int);
      if size > |data| - HEADER then None
      else Some((data[1], data[HEADER..HEADER + size], data[8] % 2 == 1))
  }

  /** Responses sent one after the other, as tag, end-of-message flag, termination and payload. */
  datatype Reply = Reply(tag: byte, attributes: (bool, byte), payload: seq<byte>)

  predicate Short(replies: seq<Reply>) {
    forall i | 0 <= i < |replies| :: |replies[i].payload| <= READ_BUFFER
  }

  ghost function Sent(replies: seq<Reply>): seq<Packet>
    requires Short(replies)
  {
    if replies == [] then []
    else Packetise(Data(replies[0])) + Sent(replies[1..])
  }

  ghost function Data(r: Reply): seq<byte>
    requires |r.payload| <= READ_BUFFER
  {
    ResponseHeader(r.tag, |r.payload|, r.attributes) + r.payload
  }

  lemma {:induction false} SentAppend(replies: seq<Reply>, r: Reply)
    requires Short(replies) && |r.payload| <= READ_BUFFER
    ensures Short(replies + [r]) && Sent(replies + [r]) == Sent(replies) + Packetise(Data(r))
    decreases |replies|
  {
    if replies == [] {
      assert replies + [r] == [r] && [r][1..] == [];
    } else {
      assert (replies + [r])[1..] == replies[1..] + [r];
      SentAppend(replies[1..], r);
    }
  }

  /** The responses of a history since the last flush, oldest first. */
  function RepliesOf(t: Trace): seq<Reply> {
    if t.Start? then []
    else
      match t.ev
      case Response(tag, _, _, mark, payload, eom) => RepliesOf(t.past) + [Reply(tag, (eom, mark), payload)]
      case InternalResponse(tag, _, _, mark, payload, eom) => RepliesOf(t.past) + [Reply(tag, (eom, mark), payload)]
      case Flushed => []
      case _ => RepliesOf(t.past)
  }

  lemma DecodeReply(r: Reply)
    requires |r.payload| <= READ_BUFFER
    ensures Decode(Data(r)) == Some((r.tag, r.payload, r.attributes.0))
  {
    var data := Data(r);
    assert data[HEADER..HEADER + |r.payload|] == r.payload;
    assert data[..HEADER] == ResponseHeader(r.tag, |r.payload|, r.attributes);
  }

  /** Round trip: from the packets of any responses the host gets back, transfer by transfer, exactly
      their tags, payloads and end-of-message flags. */
  lemma {:induction false} HostDecodesReplies(replies: seq<Reply>)
    requires Short(replies)
    ensures var ts := Transfers(Sent(replies), []);
      && |ts| == |replies|
      && forall i | 0 <= i < |replies| ::
           Decode(ts[i]) == Some((replies[i].tag, replies[i].payload, replies[i].attributes.0))
    decreases |replies|
  {
    if replies != [] {
      hide Decode, ResponseHeader;
      HostReadsTransfer(Data(replies[0]), [], Sent(replies[1..]));
      assert [] + Data(replies[0]) == Data(replies[0]);
      HostDecodesReplies(replies[1..]);
      DecodeReply(replies[0]);
      var ts := Transfers(Sent(replies), []);
      assert ts[0] == Data(replies[0]) && ts[1..] == Transfers(Sent(replies[1..]), []);
      forall i | 0 < i < |replies|
        ensures Decode(ts[i]) == Some((replies[i].tag, replies[i].payload, replies[i].attributes.0))
      {
        assert ts[i] == ts[1..][i - 1] && replies[1..][i - 1] == replies[i];
      }
    }
  }
}

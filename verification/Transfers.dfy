/** Bulk-OUT transfers as a host sends them, and what a whole run delivers. */
module Transfers {
  import opened Gpib
  import opened Trace
  import opened Bridge
  import Internals = InternalCommands

  /** A DEV_DEP_MSG_OUT transfer (USBTMC 1.0 section 3.2); `padding` fills its last packet. */
  datatype Transfer = Transfer(tag: byte, payload: seq<byte>, eom: bool, padding: seq<byte>)

  const SIZE_LIMIT := 0x1_0000_0000

  function HeaderBytes(t: Transfer): (h: seq<byte>)
    requires |t.payload| < SIZE_LIMIT
    ensures |h| == HEADER
  {
    var n := |t.payload|;
    [MSG_OUT, t.tag, 255 - t.tag, 0,
     n % 0x100, n / 0x100 % 0x100, n / 0x1_0000 % 0x100, n / 0x100_0000,
     if t.eom then 1 else 0, 0, 0, 0]
  }

  function Chunks(payload: seq<byte>, padding: seq<byte>): seq<Packet> {
    if |payload| <= EPSIZE then [payload + padding]
    else [payload[..EPSIZE]] + Chunks(payload[EPSIZE..], padding)
  }

  /** The packets of one transfer: 52 bytes after the header, then 64 at a time. */
  function Packets(t: Transfer): seq<Packet>
    requires |t.payload| < SIZE_LIMIT
  {
    if |t.payload| <= EPSIZE - HEADER then [HeaderBytes(t) + t.payload + t.padding]
    else [HeaderBytes(t) + t.payload[..EPSIZE - HEADER]] + Chunks(t.payload[EPSIZE - HEADER..], t.padding)
  }

  ghost predicate Sendable(ts: seq<Transfer>) {
    forall i | 0 <= i < |ts| :: |ts[i].payload| < SIZE_LIMIT
  }

  function AllPackets(ts: seq<Transfer>): seq<Packet>
    requires Sendable(ts)
  {
    if ts == [] then [] else Packets(ts[0]) + AllPackets(ts[1..])
  }

  /** What the instrument is meant to receive. */
  ghost function Wire(ts: seq<Transfer>): seq<(byte, bool)> {
    if ts == [] then [] else Mark(ts[0].payload, ts[0].eom) + Wire(ts[1..])
  }

  /** TransferSize reads back the little-endian size of the header. */
  lemma SizeRoundTrip(t: Transfer, rest: seq<byte>)
    requires |t.payload| < SIZE_LIMIT
    ensures TransferSize(HeaderBytes(t) + rest, 0) == |t.payload|
  {
    var n := |t.payload|;
    var p := HeaderBytes(t) + rest;
    assert At(p, 4) == n % 0x100 && At(p, 5) == n / 0x100 % 0x100;
    assert At(p, 6) == n / 0x1_0000 % 0x100 && At(p, 7) == n / 0x100_0000;
    assert n / 0x1_0000 == n / 0x100 / 0x100 && n / 0x100_0000 == n / 0x1_0000 / 0x100;
  }

  lemma MarkSplits(a: seq<byte>, b: seq<byte>, eoi: bool)
    requires b != []
    ensures Mark(a + b, eoi) == Mark(a, false) + Mark(b, eoi)
  {
  }

  /** With nothing open, the end-of-message bit of the previous transfer does not matter. */
  lemma {:induction false} OwedAtRest(q: seq<Packet>, cursor: nat, e1: bool, e2: bool)
    ensures Owed(q, cursor, 0, e1) == Owed(q, cursor, 0, e2)
    decreases |q|, if q == [] then 0 else |q[0]| - cursor
  {
    if q != [] && At(q[0], cursor) != MSG_OUT {
      if At(q[0], cursor) == MSG_IN || At(q[0], cursor) == MSG_TRIGGER {
        OwedAtRest(q[1..], 0, e1, e2);
      } else if cursor + HEADER < |q[0]| {
        OwedAtRest(q, cursor + HEADER, e1, e2);
      }
    }
  }

  lemma {:induction false} OwedChunks(payload: seq<byte>, padding: seq<byte>, rest: seq<Packet>, eom: bool)
    requires payload != []
    ensures Owed(Chunks(payload, padding) + rest, 0, |payload|, eom) == Mark(payload, eom) + Owed(rest, 0, 0, eom)
    decreases |payload|
  {
    var q := Chunks(payload, padding) + rest;
    var n := Min(EPSIZE, |payload|);
    assert Bytes(q[0], 0, n) == payload[..n];
    if |payload| <= EPSIZE {
      assert q[1..] == rest && payload[..n] == payload;
    } else {
      assert q[1..] == Chunks(payload[n..], padding) + rest;
      OwedChunks(payload[n..], padding, rest, eom);
      assert payload == payload[..n] + payload[n..];
      MarkSplits(payload[..n], payload[n..], eom);
    }
  }

  /** The packets of a transfer owe the instrument exactly its payload, EOI with the last byte if the
      end-of-message bit is set. */
  lemma OwedTransfer(t: Transfer, rest: seq<Packet>, eom: bool)
    requires |t.payload| < SIZE_LIMIT
    ensures Owed(Packets(t) + rest, 0, 0, eom) == Mark(t.payload, t.eom) + Owed(rest, 0, 0, t.eom)
  {
    hide Owed, Mark, Bytes;
    if |t.payload| <= EPSIZE - HEADER { OwedShort(t, rest, eom); } else { OwedLong(t, rest, eom); }
  }

  /** One whose payload fits the first packet. */
  lemma OwedShort(t: Transfer, rest: seq<Packet>, eom: bool)
    requires |t.payload| <= EPSIZE - HEADER
    ensures Owed(Packets(t) + rest, 0, 0, eom) == Mark(t.payload, t.eom) + Owed(rest, 0, 0, t.eom)
  {
    hide TransferSize, HeaderBytes, Mark;
    var q := Packets(t) + rest;
    FirstPacket(t, t.payload + t.padding, q[0]);
    assert Bytes(q[0], HEADER, |t.payload|) == t.payload;
    assert q[1..] == rest;
  }

  lemma OwedLong(t: Transfer, rest: seq<Packet>, eom: bool)
    requires EPSIZE - HEADER < |t.payload| < SIZE_LIMIT
    ensures Owed(Packets(t) + rest, 0, 0, eom) == Mark(t.payload, t.eom) + Owed(rest, 0, 0, t.eom)
  {
    hide TransferSize, HeaderBytes, Mark, Chunks;
    var q := Packets(t) + rest;
    var n := EPSIZE - HEADER;
    FirstPacket(t, t.payload[..n], q[0]);
    assert Bytes(q[0], HEADER, n) == t.payload[..n];
    assert q[1..] == Chunks(t.payload[n..], t.padding) + rest;
    OwedChunks(t.payload[n..], t.padding, rest, t.eom);
    assert t.payload == t.payload[..n] + t.payload[n..];
    MarkSplits(t.payload[..n], t.payload[n..], t.eom);
  }

  /** What the adapter reads from the header of a transfer. */
  lemma FirstPacket(t: Transfer, tail: seq<byte>, p: Packet)
    requires |t.payload| < SIZE_LIMIT && p == HeaderBytes(t) + tail
    ensures At(p, 0) == MSG_OUT && TransferSize(p, 0) == |t.payload| && (At(p, 8) != 0) == t.eom
    ensures forall i | 0 <= i < |tail| :: At(p, HEADER + i) == tail[i]
  {
    hide TransferSize;
    SizeRoundTrip(t, tail);
  }

  lemma {:induction false} OwedTransfers(ts: seq<Transfer>, eom: bool)
    requires Sendable(ts)
    ensures Owed(AllPackets(ts), 0, 0, eom) == Wire(ts)
    decreases |ts|
  {
    if ts != [] {
      OwedTransfer(ts[0], AllPackets(ts[1..]), eom);
      OwedTransfers(ts[1..], ts[0].eom);
    }
  }

  /** The packets of transfers are all in their places. */
  lemma {:induction false} InPlaceChunks(payload: seq<byte>, padding: seq<byte>, rest: seq<Packet>, window: Option<nat>)
    requires payload != [] && InPlace(rest, 0, window)
    ensures InPlace(Chunks(payload, padding) + rest, |payload|, window)
    decreases |payload|
  {
    var q := Chunks(payload, padding) + rest;
    if |payload| <= EPSIZE {
      assert q[1..] == rest;
    } else {
      assert q[1..] == Chunks(payload[EPSIZE..], padding) + rest;
      InPlaceChunks(payload[EPSIZE..], padding, rest, window);
    }
  }

  lemma InPlaceTransfer(t: Transfer, rest: seq<Packet>, window: Option<nat>)
    requires |t.payload| < SIZE_LIMIT && InPlace(rest, 0, window)
    ensures InPlace(Packets(t) + rest, 0, window)
  {
    hide TransferSize, HeaderBytes, Chunks;
    var q := Packets(t) + rest;
    if |t.payload| <= EPSIZE - HEADER {
      FirstPacket(t, t.payload + t.padding, q[0]);
      assert q[1..] == rest;
    } else {
      FirstPacket(t, t.payload[..EPSIZE - HEADER], q[0]);
      assert q[1..] == Chunks(t.payload[EPSIZE - HEADER..], t.padding) + rest;
      InPlaceChunks(t.payload[EPSIZE - HEADER..], t.padding, rest, window);
    }
  }

  lemma {:induction false} InPlaceTransfers(ts: seq<Transfer>, window: Option<nat>)
    requires Sendable(ts)
    ensures InPlace(AllPackets(ts), 0, window)
    decreases |ts|
  {
    hide Packets;
    if ts != [] {
      InPlaceTransfers(ts[1..], window);
      InPlaceTransfer(ts[0], AllPackets(ts[1..]), window);
    }
  }

  /** A transfer holds no read request. */
  lemma {:induction false} AsksOfChunks(payload: seq<byte>, padding: seq<byte>, rest: seq<Packet>)
    requires payload != []
    ensures Asks(Chunks(payload, padding) + rest, |payload|) == Asks(rest, 0)
    decreases |payload|
  {
    var q := Chunks(payload, padding) + rest;
    if |payload| <= EPSIZE {
      assert q[1..] == rest;
    } else {
      assert q[1..] == Chunks(payload[EPSIZE..], padding) + rest;
      AsksOfChunks(payload[EPSIZE..], padding, rest);
    }
  }

  lemma AsksOfTransfer(t: Transfer, rest: seq<Packet>)
    requires |t.payload| < SIZE_LIMIT
    ensures Asks(Packets(t) + rest, 0) == Asks(rest, 0)
  {
    hide TransferSize, HeaderBytes, Chunks;
    var q := Packets(t) + rest;
    if |t.payload| <= EPSIZE - HEADER {
      FirstPacket(t, t.payload + t.padding, q[0]);
      assert q[1..] == rest;
    } else {
      var n := EPSIZE - HEADER;
      FirstPacket(t, t.payload[..n], q[0]);
      assert q[1..] == Chunks(t.payload[n..], t.padding) + rest;
      AsksOfChunks(t.payload[n..], t.padding, rest);
    }
  }

  lemma {:induction false} AsksOfTransfers(ts: seq<Transfer>)
    requires Sendable(ts)
    ensures Asks(AllPackets(ts), 0) == []
    decreases |ts|
  {
    hide Packets;
    if ts != [] {
      AsksOfTransfer(ts[0], AllPackets(ts[1..]));
      AsksOfTransfers(ts[1..]);
    }
  }

  /** Of packets that are those of the transfers `rest` since the last flush: the payloads have arrived, up to
      what is still owed, and all of them after enough passes. */
  ghost predicate Arrives(b: Adapter, rest: seq<Transfer>)
    reads b
    requires Sendable(rest)
  {
    && !b.stuck
    && (Calm(b.trace) ==>
          && b.inst.heard + Owed(b.outq, b.cursor, b.remaining, b.eom) == b.base.heard + Wire(rest)
          && (b.taken >= |AllPackets(rest)| ==> b.outq == [] && b.inst.heard == b.base.heard + Wire(rest)))
  }

  lemma WhatIsLeftArrives(b: Adapter, rest: seq<Transfer>)
    requires Sendable(rest) && b.base.outq == AllPackets(rest) && b.Kept() && NoAborts(b.trace)
    ensures Arrives(b, rest)
  {
    hide InPlace, NoAborts, NoInternal, Asks;
    OwedTransfers(rest, b.base.eom);
    InPlaceTransfers(rest, b.host.window);
    AsksOfTransfers(rest);
  }

  /** What a run that began with `base` has done. */
  lemma Outcome(b: Adapter)
    requires b.Kept()
    ensures NoAborts(b.trace) ==> forall rest | Sendable(rest) && b.base.outq == AllPackets(rest) :: Arrives(b, rest)
    ensures Calm(b.trace) ==>
      b.inst.heard + Owed(b.outq, b.cursor, b.remaining, b.eom) == b.base.heard + Owed(b.base.outq, 0, 0, b.base.eom)
  {
    hide InPlace, NoAborts, NoInternal, Asks, Arrives;
    if NoAborts(b.trace) {
      forall rest | Sendable(rest) && b.base.outq == AllPackets(rest) ensures Arrives(b, rest) {
        WhatIsLeftArrives(b, rest);
      }
    }
  }

  lemma FromTheStart(b: Adapter, ts: seq<Transfer>)
    requires Sendable(ts) && b.base.heard == [] && b.base.outq == AllPackets(ts) && b.Kept() && Calm(b.trace)
    ensures !b.stuck && (b.taken >= |AllPackets(ts)| ==> b.inst.heard == Wire(ts))
  {
    WhatIsLeftArrives(b, ts);
  }

  /** A host sends any transfers to an adapter that has just been configured. However the passes, the
      control requests, the polls and the timeouts fall: if nothing was taken for an internal command, the
      instrument has received the payloads in order, EOI with exactly the last byte of each non-empty transfer
      whose end-of-message bit is set, up to what the remaining packets still owe; and after as many passes
      that find a packet as there are packets it has received everything. After an abort that holds of the
      packets that were left when the endpoints were flushed, if they are whole transfers again. Outright it
      holds whenever the scripts hold no INITIATE and no INDICATOR_PULSE request. */
  method Session(addr: byte, device: Device, world: World, settings: Internals.Settings,
      ts: seq<Transfer>, passes: seq<Pass>) returns (b: Adapter)
    requires Designates(addr, device) && device.heard == [] && Sendable(ts) && MayPasses(world.host, passes)
    ensures NoAborts(b.trace) ==> forall rest | Sendable(rest) && b.base.outq == AllPackets(rest) :: Arrives(b, rest)
    ensures Suffix(b.base.outq, AllPackets(ts))
    ensures Flushes(b.trace) == 0 ==>
      b.base.heard == [] && b.base.outq == AllPackets(ts) && (!b.stuck ==> b.taken == Seen(passes))
    ensures Calm(b.trace) ==>
      b.inst.heard + Owed(b.outq, b.cursor, b.remaining, b.eom) == b.base.heard + Owed(b.base.outq, 0, 0, b.base.eom)
    ensures !world.host.aborts && !world.host.pulses ==> Calm(b.trace) && Flushes(b.trace) == 0
    ensures !world.host.aborts && !world.host.pulses && Seen(passes) >= |AllPackets(ts)| ==> b.inst.heard == Wire(ts)
    ensures SplitsSound(b.trace) && StatusConserved(b.trace) && AnswersSound(b.trace)
    ensures OneAtATime(b.trace) ==> AnsweredOnce(b.trace)
    ensures world.host.patient ==> OneAtATime(b.trace)
    ensures b.interrupts == InterruptsOf(b.trace) && NoticesSound(b.trace) && b.requests.notice == ToNotice(b.trace)
    ensures AnswersOf(b.trace, device.answered, b.inst.answered) && OrdersOf(b.trace, device.obeyed, b.inst.obeyed)
  {
    hide InPlace, NoAborts, NoInternal, SplitsSound, StatusConserved, AnswersSound, OneAtATime, AnsweredOnce,
      NoticesSound, AnswersOf, OrdersOf, Asks, Undisturbed, Arrives, Adapter.Kept, Adapter.Valid, Adapter.ReadReady,
      Adapter.Settled, Adapter.Stopped, Owed;
    b := new Adapter(addr, device, world, settings, AllPackets(ts));
    InPlaceTransfers(ts, world.host.window);
    b.KeptAtFirst();
    b.Run(passes);
    Outcome(b);
    if Flushes(b.trace) == 0 && Calm(b.trace) { FromTheStart(b, ts); }
  }
}

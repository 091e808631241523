/** The GPIB as an instrument sees it: interface messages, the listener and talker
    functions of one device, and the command bytes the adapter sends to address it. */
module Gpib {

  type byte = i: int | 0 <= i < 256

  const UNL: byte := 0x3F
  const UNT: byte := 0x5F
  const SPE: byte := 0x18
  const SPD: byte := 0x19
  const LLO: byte := 0x11
  const GTL: byte := 0x01
  const GET: byte := 0x08
  const SDC: byte := 0x04

  datatype Option<+T> = None | Some(value: T)

  /** What one handshake carries: a command byte (ATN asserted) or a data byte with its EOI line. */
  datatype Message = Command(code: byte) | Data(value: byte, eoi: bool)

  /** A device with listener and talker function (L4/T6, or LE4/TE6 when it has a secondary
      address). `lpas` and `tpas` remember that the primary address was the last one seen. It keeps the
      data bytes it received, the device clear, trigger, go-to-local and lockout commands it carried
      out, and the status bytes it gave in serial polls. */
  datatype Device = Device(
    primary: byte, secondary: Option<byte>,
    listen: bool, talk: bool, lpas: bool, tpas: bool, serialPoll: bool,
    heard: seq<(byte, bool)>, obeyed: seq<byte>, answered: seq<bv8>)

  predicate WellAddressed(d: Device) {
    d.primary <= 30 && (d.secondary.Some? ==> d.secondary.value <= 30)
  }

  /** What no command changes: a device's addresses, its data and its status answers. */
  predicate Kept(d: Device, e: Device) {
    e.primary == d.primary && e.secondary == d.secondary && e.heard == d.heard && e.answered == d.answered
  }

  /** How a device reacts to one completed handshake. */
  function Hear(d: Device, m: Message): Device {
    match m
    case Data(v, eoi) => if d.listen then d.(heard := d.heard + [(v, eoi)]) else d
    case Command(c) =>
      if c == UNL then d.(listen := false, lpas := false, tpas := false)
      else if c == UNT then d.(talk := false, lpas := false, tpas := false)
      else if c / 32 == 1 then HearListenAddress(d, c % 32)
      else if c / 32 == 2 then HearTalkAddress(d, c % 32)
      else if c / 32 == 3 then HearSecondary(d, c % 32)
      else HearOther(d, c)
  }

  /** Universal and addressed commands: the latter concern listeners only. */
  function HearOther(d: Device, c: byte): (e: Device)
    ensures Kept(d, e)
    ensures e.obeyed == d.obeyed || (IsOrder(c) && e.obeyed == d.obeyed + [c])
  {
    var e := d.(lpas := false, tpas := false);
    if c == SPE then e.(serialPoll := true)
    else if c == SPD then e.(serialPoll := false)
    else if c == LLO || ((c == GTL || c == SDC || c == GET) && d.listen) then e.(obeyed := d.obeyed + [c])
    else e
  }

  function HearListenAddress(d: Device, p: nat): (e: Device)
    ensures Kept(d, e) && e.obeyed == d.obeyed
  {
    if p != d.primary then d.(lpas := false, tpas := false)
    else if d.secondary.Some? then d.(lpas := true, tpas := false)
    else d.(listen := true, talk := false)
  }

  function HearTalkAddress(d: Device, p: nat): (e: Device)
    ensures Kept(d, e) && e.obeyed == d.obeyed
  {
    if p != d.primary then d.(talk := false, lpas := false, tpas := false)
    else if d.secondary.Some? then d.(lpas := false, tpas := true)
    else d.(talk := true, listen := false)
  }

  function HearSecondary(d: Device, s: nat): (e: Device)
    ensures Kept(d, e) && e.obeyed == d.obeyed
  {
    if d.secondary.None? then d
    else if s == d.secondary.value then
      if d.lpas then d.(listen := true, talk := false)
      else if d.tpas then d.(talk := true, listen := false)
      else d
    else if d.tpas then d.(talk := false)
    else d
  }

  /** Interface clear takes every device back to its idle states. */
  function InterfaceClear(d: Device): Device {
    d.(listen := false, talk := false, lpas := false, tpas := false, serialPoll := false)
  }

  function HearAll(d: Device, codes: seq<byte>): Device
    decreases |codes|
  {
    if codes == [] then d else HearAll(Hear(d, Command(codes[0])), codes[1..])
  }

  /** The bytes of gpib_cmd_LAG and gpib_cmd_TAG: bits 0..4 of the adapter's address byte are the
      primary address, bits 5..7 the secondary address plus one (0: none). */
  function ListenAddress(addr: byte): (codes: seq<byte>)
  {
    [addr % 32 + 0x20] + (if addr / 32 != 0 then [0x60 + (addr / 32 - 1)] else [])
  }

  function TalkAddress(addr: byte): (codes: seq<byte>)
  {
    [addr % 32 + 0x40] + (if addr / 32 != 0 then [0x60 + (addr / 32 - 1)] else [])
  }

  /** The adapter's address byte designates exactly this device. Primary address 0 is the adapter's own,
      but an extended device can have it (gpib_search returns 32 for one). */
  predicate Designates(addr: byte, d: Device) {
    && WellAddressed(d)
    && (d.secondary.None? ==> d.primary != 0)
    && addr % 32 == d.primary
    && d.secondary == if addr / 32 == 0 then None else Some(addr / 32 - 1)
  }

  /** gpib_make_listener and gpib_make_talker, as the device hears them. */
  function ListenSequence(addr: byte): seq<byte> { [UNT, 0x40, UNL] + ListenAddress(addr) }

  function TalkSequence(addr: byte): seq<byte> { [UNL, 0x20] + TalkAddress(addr) }

  /** After the listen sequence the device is listener and not talker, whatever it was before. */
  lemma ListenSequenceAddresses(addr: byte, d: Device)
    requires Designates(addr, d)
    ensures var e := HearAll(d, ListenSequence(addr));
      e.listen && !e.talk && e.heard == d.heard && Designates(addr, e)
  {
    HearPrefix(d, [UNT, 0x40, UNL], ListenAddress(addr));
    var d3 := HearAll(d, [UNT, 0x40, UNL]);
    assert d3 == Hear(Hear(Hear(d, Command(UNT)), Command(0x40)), Command(UNL)) by {
      HearThree(d, UNT, 0x40, UNL);
    }
    HearAddress(d3, ListenAddress(addr));
  }

  /** After the talk sequence the device is talker and not listener, whatever it was before. */
  lemma TalkSequenceAddresses(addr: byte, d: Device)
    requires Designates(addr, d)
    ensures var e := HearAll(d, TalkSequence(addr));
      e.talk && !e.listen && e.heard == d.heard && Designates(addr, e)
  {
    HearPrefix(d, [UNL, 0x20], TalkAddress(addr));
    var d2 := HearAll(d, [UNL, 0x20]);
    assert d2 == Hear(Hear(d, Command(UNL)), Command(0x20)) by {
      HearAddress(d, [UNL, 0x20]);
    }
    HearAddress(d2, TalkAddress(addr));
  }

  lemma {:induction false} HearPrefix(d: Device, a: seq<byte>, b: seq<byte>)
    ensures HearAll(d, a + b) == HearAll(HearAll(d, a), b)
    decreases |a|
  {
    if a == [] {
      assert a + b == b;
    } else {
      assert (a + b)[1..] == a[1..] + b;
      HearPrefix(Hear(d, Command(a[0])), a[1..], b);
    }
  }

  lemma HearAddress(d: Device, a: seq<byte>)
    requires 1 <= |a| <= 2
    ensures |a| == 1 ==> HearAll(d, a) == Hear(d, Command(a[0]))
    ensures |a| == 2 ==> HearAll(d, a) == Hear(Hear(d, Command(a[0])), Command(a[1]))
  {
    var d1 := Hear(d, Command(a[0]));
    assert HearAll(d, a) == HearAll(d1, a[1..]);
    if |a| == 2 {
      assert HearAll(d1, a[1..]) == HearAll(Hear(d1, Command(a[1])), a[1..][1..]);
    }
  }

  lemma HearThree(d: Device, x: byte, y: byte, z: byte)
    ensures HearAll(d, [x, y, z]) == Hear(Hear(Hear(d, Command(x)), Command(y)), Command(z))
  {
    assert [x, y, z][1..] == [y, z];
    HearAddress(Hear(d, Command(x)), [y, z]);
  }

  /** Command bytes never put anything into what a device has received as data, and never change
      its addresses. */
  lemma {:induction false} CommandsCarryNoData(d: Device, codes: seq<byte>)
    ensures HearAll(d, codes).heard == d.heard
    ensures HearAll(d, codes).primary == d.primary && HearAll(d, codes).secondary == d.secondary
    decreases |codes|
  {
    hide Hear;
    if codes != [] {
      HearKeeps(d, Command(codes[0]));
      CommandsCarryNoData(Hear(d, Command(codes[0])), codes[1..]);
    }
  }

  /** A listen address followed by an addressed command and UNL: the device carries the command out once
      and is listener no longer. */
  lemma AddressedCommand(addr: byte, d: Device, c: byte)
    requires Designates(addr, d) && (c == SDC || c == GET || c == GTL)
    ensures var e := HearAll(d, ListenAddress(addr) + [c, UNL]);
      e.obeyed == d.obeyed + [c] && !e.listen && !e.talk
  {
    hide ListenAddress;
    HearPrefix(d, ListenAddress(addr), [c, UNL]);
    ListenAddressAddresses(addr, d);
    HearAddress(HearAll(d, ListenAddress(addr)), [c, UNL]);
  }

  /** Local lockout concerns every device. */
  lemma LockoutObeyed(d: Device)
    ensures var e := HearAll(d, [LLO]); e.obeyed == d.obeyed + [LLO] && e.talk == d.talk
  {
    HearAddress(d, [LLO]);
  }

  lemma ListenAddressAddresses(addr: byte, d: Device)
    requires Designates(addr, d)
    ensures var e := HearAll(d, ListenAddress(addr)); e.listen && !e.talk && e.obeyed == d.obeyed
  {
    HearAddress(d, ListenAddress(addr));
  }

  /** The opening of a serial poll makes the device a talker of its status byte, the end undoes it. */
  lemma SerialPollOpens(addr: byte, d: Device)
    requires Designates(addr, d)
    ensures var e := HearAll(d, [0x20, SPE] + TalkAddress(addr)); e.talk && e.serialPoll && e.answered == d.answered
  {
    HearPrefix(d, [0x20, SPE], TalkAddress(addr));
    HearAddress(d, [0x20, SPE]);
    HearAddress(HearAll(d, [0x20, SPE]), TalkAddress(addr));
  }

  lemma SerialPollCloses(d: Device)
    ensures var e := HearAll(d, [SPD, UNT]); !e.talk && !e.serialPoll && e.answered == d.answered
  {
    HearAddress(d, [SPD, UNT]);
  }

  /** The commands that a device carries out. */
  predicate IsOrder(code: byte) { code == LLO || code == GTL || code == SDC || code == GET }

  /** A handshake never changes a device's addresses or its status answers, a command not its data, data not
      its roles; and a device carries out orders only. */
  lemma HearKeeps(d: Device, m: Message)
    ensures var e := Hear(d, m);
      && e.primary == d.primary && e.secondary == d.secondary && e.answered == d.answered
      && (m.Command? ==> e.heard == d.heard)
      && (m.Data? ==> e.talk == d.talk)
      && (e.obeyed == d.obeyed || (m.Command? && IsOrder(m.code) && e.obeyed == d.obeyed + [m.code]))
  {
    hide HearOther, HearListenAddress, HearTalkAddress, HearSecondary;
  }
}

/** The GPIB controller functions under the counted timeout is_timedout: port registers, wait loops,
    serial poll and the address search. The bus answers as the devices make it (`honest`), each wait as
    long as `delay` says, or arbitrarily: then `lines` says what the adapter sees at each moment. */
module Controller {
  import opened Gpib

  /** Levels seen at one moment; true: the line is low. */
  datatype Sample = Sample(nrfd: bool, ndac: bool, dav: bool, eoi: bool, atn: bool, data: byte)

  /** What a wait loop waits for: NRFD released, NDAC released, DAV asserted, DAV released. */
  datatype Edge = Ready | Accepted | Valid | Gone

  /** All devices hear the same message. */
  function Broadcast(ds: seq<Device>, m: Message): (r: seq<Device>)
    ensures |r| == |ds|
  {
    seq(|ds|, i requires 0 <= i < |ds| => Hear(ds[i], m))
  }

  /** What the address bytes of gpib_cmd_LAG (base 0x20) or gpib_cmd_TAG (base 0x40) do to them. */
  function Addressed(ds: seq<Device>, addr: byte, base: byte): (r: seq<Device>)
    requires base == 0x20 || base == 0x40
    ensures |r| == |ds|
  {
    var e := Broadcast(ds, Command(base + addr % 32));
    if addr / 32 == 0 then e else Broadcast(e, Command(0x60 + (addr / 32 - 1)))
  }

  predicate AnyListener(ds: seq<Device>) {
    exists i | 0 <= i < |ds| :: ds[i].listen
  }

  /** What gpib_search is written for: devices with a primary address 1 to 30, and devices that need a
      secondary address as well, with primary address 0 to 30. */
  ghost predicate Searchable(ds: seq<Device>) {
    forall i | 0 <= i < |ds| :: WellAddressed(ds[i]) && (ds[i].secondary.None? ==> ds[i].primary != 0)
  }

  predicate HasPrimary(ds: seq<Device>, p: nat) {
    exists i | 0 <= i < |ds| :: ds[i].secondary.None? && ds[i].primary == p
  }

  predicate HasExtended(ds: seq<Device>, p: nat) {
    exists i | 0 <= i < |ds| :: ds[i].secondary == Some(0) && ds[i].primary == p
  }

  /** The smallest primary-only address; failing that 32 plus the smallest primary address of a device
      with secondary address 0; failing that 255. */
  ghost predicate SearchResult(ds: seq<Device>, r: byte) {
    if exists p: nat :: HasPrimary(ds, p) then
      HasPrimary(ds, r) && forall p: nat | p < r :: !HasPrimary(ds, p)
    else if exists p: nat :: HasExtended(ds, p) then
      r >= 32 && HasExtended(ds, r - 32) && forall p: nat | p < r - 32 :: !HasExtended(ds, p)
    else r == 255
  }

  ghost predicate SameAddresses(a: seq<Device>, b: seq<Device>) {
    |a| == |b| && forall i | 0 <= i < |a| :: a[i].primary == b[i].primary && a[i].secondary == b[i].secondary
  }

  /** The same devices answer to the same addresses. */
  lemma SameAddressesSameResult(a: seq<Device>, b: seq<Device>)
    requires SameAddresses(a, b)
    ensures Searchable(a) ==> Searchable(b)
    ensures forall p: nat :: HasPrimary(a, p) == HasPrimary(b, p)
    ensures forall p: nat :: HasExtended(a, p) == HasExtended(b, p)
  {
    forall p: nat ensures HasPrimary(a, p) == HasPrimary(b, p) {
      if HasPrimary(a, p) {
        var i :| 0 <= i < |a| && a[i].secondary.None? && a[i].primary == p;
        assert b[i].secondary.None? && b[i].primary == p;
      }
      if HasPrimary(b, p) {
        var i :| 0 <= i < |b| && b[i].secondary.None? && b[i].primary == p;
        assert a[i].secondary.None? && a[i].primary == p;
      }
    }
    forall p: nat ensures HasExtended(a, p) == HasExtended(b, p) {
      if HasExtended(a, p) {
        var i :| 0 <= i < |a| && a[i].secondary == Some(0) && a[i].primary == p;
        assert b[i].secondary == Some(0) && b[i].primary == p;
      }
      if HasExtended(b, p) {
        var i :| 0 <= i < |b| && b[i].secondary == Some(0) && b[i].primary == p;
        assert a[i].secondary == Some(0) && a[i].primary == p;
      }
    }
  }

  lemma BroadcastKeeps(ds: seq<Device>, m: Message)
    ensures SameAddresses(ds, Broadcast(ds, m))
  {
    hide Hear;
    forall i | 0 <= i < |ds|
      ensures Hear(ds[i], m).primary == ds[i].primary && Hear(ds[i], m).secondary == ds[i].secondary
    {
      HearKeeps(ds[i], m);
    }
  }

  /** With nobody listening before, a primary listen address makes listeners of exactly the
      primary-only devices at that address. */
  lemma PrimaryAnswers(ds: seq<Device>, addr: byte)
    requires Searchable(ds) && !AnyListener(ds) && addr < 31
    ensures AnyListener(Addressed(ds, addr, 0x20)) == HasPrimary(ds, addr)
  {
    var e := Addressed(ds, addr, 0x20);
    forall i | 0 <= i < |ds| ensures e[i].listen == (ds[i].secondary.None? && ds[i].primary == addr) {
      assert !ds[i].listen;
    }
    if HasPrimary(ds, addr) {
      var i :| 0 <= i < |ds| && ds[i].secondary.None? && ds[i].primary == addr;
      assert e[i].listen;
    }
  }

  /** Followed by secondary address 0, also of the extended devices (addr, 0). */
  lemma ExtendedAnswers(ds: seq<Device>, p: byte)
    requires Searchable(ds) && !AnyListener(ds) && p < 31
    ensures AnyListener(Addressed(ds, p + 32, 0x20)) == (HasPrimary(ds, p) || HasExtended(ds, p))
  {
    var e := Addressed(ds, p + 32, 0x20);
    forall i | 0 <= i < |ds|
      ensures e[i].listen == (ds[i].primary == p && (ds[i].secondary.None? || ds[i].secondary == Some(0)))
    {
      assert !ds[i].listen;
    }
    if HasPrimary(ds, p) {
      var i :| 0 <= i < |ds| && ds[i].secondary.None? && ds[i].primary == p;
      assert e[i].listen;
    }
    if HasExtended(ds, p) {
      var i :| 0 <= i < |ds| && ds[i].secondary == Some(0) && ds[i].primary == p;
      assert e[i].listen;
    }
  }

  /** The search so far: `addr` is the last address tried, `found` what answered. */
  ghost predicate Searched(were: seq<Device>, ds: seq<Device>, addr: byte, found: byte) {
    && (forall p: nat | p < addr && p < 32 :: !HasPrimary(were, p))
    && (forall p: nat | p + 32 < addr && p < 31 :: !HasExtended(were, p))
    && (found == 255 ==>
          && !AnyListener(ds)
          && (addr < 32 ==> !HasPrimary(were, addr))
          && (32 <= addr < 63 ==> !HasExtended(were, addr - 32)))
    && (found != 255 ==>
          && found == addr
          && (addr < 32 ==> HasPrimary(were, addr))
          && (addr >= 32 ==> HasExtended(were, addr - 32)))
  }

  /** One more address tried: nobody listened before, so an answer comes from a device at `addr`. */
  lemma SearchStep(were: seq<Device>, before: seq<Device>, addr: byte)
    requires Searchable(were) && SameAddresses(were, before)
    requires 1 <= addr < 63 && addr % 32 != 31 && Searched(were, before, addr - 1, 255)
    ensures var e := Addressed(before, addr, 0x20);
      Searched(were, e, addr, if AnyListener(e) then addr else 255)
  {
    SameAddressesSameResult(were, before);
    if addr < 32 { PrimaryAnswers(before, addr); } else { ExtendedAnswers(before, addr - 32); }
  }

  /** The check without secondary address answers nothing new: a primary-only device would have been
      found in the first pass. */
  lemma Recheck(were: seq<Device>, searched: seq<Device>, before: seq<Device>, addr: byte, found: byte)
    requires Searchable(were) && SameAddresses(were, before) && !AnyListener(before)
    requires 32 <= addr <= 63 && (addr == 63 || found != 255)
    requires Searched(were, searched, addr, found)
    ensures !AnyListener(Addressed(before, addr % 32, 0x20)) && SearchResult(were, found)
  {
    SameAddressesSameResult(were, before);
    if addr != 63 {
      PrimaryAnswers(before, addr % 32);
      assert HasExtended(were, found - 32);
    }
    assert forall p: nat :: HasPrimary(were, p) ==> p < 32;
    assert forall p: nat :: HasExtended(were, p) ==> p < 31;
  }

  class Bus {
    // the lines the adapter pulls
    var atn: bool
    var nrfd: bool
    var ndac: bool
    var dav: bool
    var eoi: bool
    var data: Option<byte>
    var transactionActive: bool
    /** The command bytes put out so far. */
    ghost var driven: seq<byte>
    // is_timedout
    var budget: nat
    var polls: nat
    // the world around
    var devices: seq<Device>
    var clock: nat
    const honest: bool
    /** How long the devices of an honest bus hold the line that wait loop number k waits for, the loop that
        is running, and for how many looks more they will hold it. */
    const delay: nat -> nat
    var waits: nat
    var held: nat
    const lines: nat -> Sample

    constructor (devices: seq<Device>, honest: bool, delay: nat -> nat, lines: nat -> Sample)
      ensures this.devices == devices && this.honest == honest && this.delay == delay && this.lines == lines
    {
      atn, nrfd, ndac, dav, eoi, data := false, false, false, false, false, None;
      transactionActive, budget, polls, clock, driven := false, 0, 0, 0, [];
      waits, held := 0, 0;
      this.devices, this.honest, this.delay, this.lines := devices, honest, delay, lines;
    }

    /** The polls of `n` wait loops from number `k` on. */
    function Cost(k: nat, n: nat): nat
      decreases n
    {
      if n == 0 then 0 else delay(k) + 1 + Cost(k + 1, n - 1)
    }

    /** An honest bus on which any address of two bytes, four wait loops, is accepted within the budget of
        500 polls. */
    ghost predicate Prompt() { honest && forall k: nat :: Cost(k, 4) <= 500 }

    method TimeoutStart(timeout: nat)
      modifies this`budget
      ensures budget == timeout
    {
      budget := timeout;
    }

    method IsTimedout() returns (expired: bool)
      modifies this`budget, this`polls
      ensures expired == (old(budget) == 0) && polls == old(polls) + 1
      ensures budget == if expired then 0 else old(budget) - 1
    {
      polls := polls + 1;
      if budget == 0 { return true; }
      budget := budget - 1;
      return false;
    }

    /** What the pins show now. On an honest bus NRFD and, while ATN is asserted, NDAC are low as long as the
        line waited for is held; while ATN is released NDAC is low if somebody listens. */
    method Look() returns (s: Sample)
      modifies this`clock, this`held
      ensures honest ==> !s.atn && s.nrfd == (old(held) > 0)
      ensures honest ==> s.ndac == if atn then old(held) > 0 else AnyListener(devices)
      ensures held == if old(held) > 0 then old(held) - 1 else 0
    {
      clock := clock + 1;
      s := if honest then Sample(held > 0, if atn then held > 0 else AnyListener(devices), false, false, false, 0)
           else lines(clock);
      if held > 0 { held := held - 1; }
    }

    /** One of the do-while loops of a handshake: at least one poll, then as long as the line is held. */
    method Wait(edge: Edge) returns (timedout: bool)
      modifies this`budget, this`polls, this`clock, this`held, this`waits
      ensures budget <= old(budget) && (timedout ==> budget == 0) && (old(budget) == 0 ==> timedout)
      ensures polls == old(polls) + (old(budget) - budget) + if timedout then 1 else 0
      ensures waits == old(waits) + 1
      ensures honest && (edge.Ready? || (edge.Accepted? && atn)) ==>
        timedout == (old(budget) < Cost(old(waits), 1)) && (!timedout ==> budget == old(budget) - Cost(old(waits), 1))
    {
      timedout := false;
      var waiting := true;
      ghost var wait := delay(waits);
      assert Cost(waits, 1) == wait + 1 + Cost(waits + 1, 0);
      held := delay(waits);
      waits := waits + 1;
      while waiting
        invariant budget <= old(budget) && (timedout ==> budget == 0 && !waiting)
        invariant old(budget) == 0 ==> timedout || waiting
        invariant waits == old(waits) + 1
        invariant polls == old(polls) + (old(budget) - budget) + if timedout then 1 else 0
        invariant honest && (edge.Ready? || (edge.Accepted? && atn)) ==>
          if waiting then held <= wait && old(budget) - budget == wait - held
          else timedout == (old(budget) <= wait) && (!timedout ==> budget == old(budget) - wait - 1)
        decreases budget, waiting
      {
        timedout := IsTimedout();
        var s := Look();
        waiting := !timedout && match edge
          case Ready => s.nrfd
          case Accepted => s.ndac
          case Valid => !s.dav
          case Gone => s.dav;
      }
    }

    /** gpib_recover: all lines are released and the interface is cleared. */
    method Recover()
      modifies this`atn, this`nrfd, this`ndac, this`dav, this`eoi, this`data, this`transactionActive, this`devices
      ensures Released() && !transactionActive
      ensures SameAddresses(old(devices), devices)
    {
      atn, nrfd, ndac, dav, eoi, data := false, false, false, false, false, None;
      transactionActive := false;
      var ds := devices;
      devices := seq(|ds|, i requires 0 <= i < |ds| => InterfaceClear(ds[i]));
    }

    /** The adapter pulls no line. */
    ghost predicate Released()
      reads this
    {
      !atn && !nrfd && !ndac && !dav && !eoi && data == None
    }

    /** gpib_tx of a command byte. Every poll is paid for by the budget, except the one that finds it
        empty; a timeout leaves the bus released. */
    method SendCommand(code: byte) returns (timedout: bool)
      modifies this`atn, this`nrfd, this`ndac, this`dav, this`eoi, this`data, this`transactionActive
      modifies this`budget, this`polls, this`devices, this`clock, this`driven, this`waits, this`held
      ensures budget <= old(budget) && (timedout ==> budget == 0) && (old(budget) == 0 ==> timedout)
      ensures polls == old(polls) + (old(budget) - budget) + if timedout then 1 else 0
      ensures timedout ==> Released() && !transactionActive
      ensures !timedout ==> atn && !nrfd && !ndac && !dav && data == None
      ensures !timedout ==> eoi == old(eoi) && transactionActive == old(transactionActive)
      ensures SameAddresses(old(devices), devices)
      ensures !timedout ==> devices == Broadcast(old(devices), Command(code))
      ensures !timedout ==> waits == old(waits) + 2
      ensures honest && old(budget) >= Cost(old(waits), 2) ==>
        !timedout && budget == old(budget) - Cost(old(waits), 2)
      ensures driven == old(driven) + [code]
    {
      hide Hear, InterfaceClear, Cost, Broadcast, SameAddresses;
      driven := driven + [code];
      timedout := Strobe(code);
      BroadcastKeeps(devices, Command(code));
      if timedout { Recover(); } else { devices := Broadcast(devices, Command(code)); }
    }

    /** The byte is put on the data lines, and DAV asserted between the two waits. */
    method Strobe(code: byte) returns (timedout: bool)
      modifies this`atn, this`nrfd, this`ndac, this`dav, this`data, this`budget, this`polls, this`clock
      modifies this`waits, this`held
      ensures budget <= old(budget) && (timedout ==> budget == 0) && (old(budget) == 0 ==> timedout)
      ensures polls == old(polls) + (old(budget) - budget) + if timedout then 1 else 0
      ensures atn && !nrfd && !ndac && !dav && data == None
      ensures !timedout ==> waits == old(waits) + 2
      ensures honest && old(budget) >= Cost(old(waits), 2) ==>
        !timedout && budget == old(budget) - Cost(old(waits), 2)
    {
      hide Cost;
      CostOfTwo(waits);
      atn, dav, nrfd, ndac, data := true, false, false, false, Some(code);
      timedout := Wait(Ready);
      if !timedout {
        dav := true;
        timedout := Wait(Accepted);
        dav := false;
      }
      data := None;
    }

    /** gpib_cmd_LAG and gpib_cmd_TAG. The secondary byte is put out if and only if there is one, even when
        the primary byte timed out, and its result is the one returned: one poll more. */
    method SendAddress(addr: byte, base: byte) returns (timedout: bool)
      requires base == 0x20 || base == 0x40
      modifies this`atn, this`nrfd, this`ndac, this`dav, this`eoi, this`data, this`transactionActive
      modifies this`budget, this`polls, this`devices, this`clock, this`driven, this`waits, this`held
      ensures budget <= old(budget) && (timedout ==> budget == 0)
      ensures polls <= old(polls) + (old(budget) - budget) + if timedout then 2 else 0
      ensures timedout ==> Released() && !transactionActive
      ensures !timedout ==> atn && !nrfd && !ndac && !dav && data == None
      ensures !timedout ==> eoi == old(eoi) && transactionActive == old(transactionActive)
      ensures SameAddresses(old(devices), devices)
      ensures driven == old(driven) + [base + addr % 32] + if addr / 32 != 0 then [0x60 + (addr / 32 - 1)] else []
      ensures honest && old(budget) >= Cost(old(waits), 4) ==>
        !timedout && devices == Addressed(old(devices), addr, base)
    {
      hide Hear;
      CostOfFour(waits);
      timedout := SendCommand(base + addr % 32);
      if addr / 32 != 0 {
        timedout := SendCommand(0x60 + (addr / 32 - 1));
      }
    }

    /** gpib_readdat: even a timeout leaves the adapter holding NRFD. */
    method ReadData() returns (value: byte, eoi: bool, timedout: bool)
      modifies this`atn, this`nrfd, this`ndac, this`dav, this`eoi, this`data, this`transactionActive
      modifies this`budget, this`polls, this`devices, this`clock, this`driven, this`waits, this`held
      ensures budget <= old(budget) && (timedout ==> budget == 0) && (old(budget) == 0 ==> timedout)
      ensures polls == old(polls) + (old(budget) - budget) + if timedout then 1 else 0
      ensures nrfd && !atn && (timedout ==> !ndac && !transactionActive)
      ensures !timedout ==> !ndac && transactionActive == old(transactionActive) && this.eoi == old(this.eoi)
      ensures !timedout ==> dav == old(dav) && data == old(data)
      ensures SameAddresses(old(devices), devices)
    {
      value, eoi := 0, false;
      atn, ndac, nrfd := false, true, false;
      timedout := Wait(Valid);
      if !timedout {
        nrfd := true;
        var s := Look();
        value, eoi := s.data, s.eoi;
        ndac := false;
        timedout := Wait(Gone);
      }
      if timedout { Recover(); }
      nrfd := true;
    }

    /** gpib_readStatusByte after timeout_start(T): whatever the lines do, at most T + 2 polls. */
    method ReadStatusByte(addr: byte) returns (status: byte)
      modifies this`atn, this`nrfd, this`ndac, this`dav, this`eoi, this`data, this`transactionActive
      modifies this`budget, this`polls, this`devices, this`clock, this`driven, this`waits, this`held
      ensures polls <= old(polls) + old(budget) + 2
      ensures budget <= old(budget) && !transactionActive
      ensures polls > old(polls) + (old(budget) - budget) ==> Released()
    {
      status := 0;
      transactionActive := true;
      var timedout := SendAddress(0, 0x20);
      if !timedout { timedout := SendCommand(SPE); }
      if !timedout { timedout := SendAddress(addr, 0x40); }
      if !timedout {
        var eoi;
        status, eoi, timedout := ReadData();
      }
      if !timedout { timedout := SendCommand(SPD); }
      if !timedout { timedout := SendCommand(UNT); }
      if timedout { Recover(); }
      transactionActive := false;
    }

    lemma CostOfTwo(k: nat)
      ensures Cost(k, 2) == Cost(k, 1) + Cost(k + 1, 1)
    {
      assert Cost(k + 1, 1) == delay(k + 1) + 1 + Cost(k + 2, 0);
      assert Cost(k, 1) == delay(k) + 1 + Cost(k + 1, 0);
    }

    lemma CostOfFour(k: nat)
      ensures Cost(k, 4) == Cost(k, 2) + Cost(k + 2, 2)
    {
      assert Cost(k + 1, 3) == delay(k + 1) + 1 + Cost(k + 2, 2);
      assert Cost(k, 2) == delay(k) + 1 + Cost(k + 1, 1);
      assert Cost(k + 1, 1) == delay(k + 1) + 1 + Cost(k + 2, 0);
    }

    /** Is anybody holding NDAC while ATN is really released? */
    method Present() returns (present: bool)
      modifies this`atn, this`clock, this`held
      ensures !atn
      ensures honest ==> present == AnyListener(devices)
    {
      atn := false;
      var s := Look();
      present := s.ndac && !s.atn;
    }

    /** Address one listener afresh and look whether it answers. */
    method Probe(addr: byte) returns (present: bool)
      modifies this`atn, this`nrfd, this`ndac, this`dav, this`eoi, this`data, this`transactionActive
      modifies this`budget, this`polls, this`devices, this`clock, this`driven, this`waits, this`held
      ensures polls <= old(polls) + 502 && !atn
      ensures SameAddresses(old(devices), devices)
      ensures Prompt() ==>
        devices == Addressed(old(devices), addr, 0x20) && present == AnyListener(devices)
    {
      TimeoutStart(500);
      var timedout := SendAddress(addr, 0x20);
      present := Present();
    }

    /** UNL with a fresh budget; on a prompt bus nobody listens afterwards. */
    method Unlisten()
      modifies this`atn, this`nrfd, this`ndac, this`dav, this`eoi, this`data, this`transactionActive
      modifies this`budget, this`polls, this`devices, this`clock, this`driven, this`waits, this`held
      ensures polls <= old(polls) + 501
      ensures SameAddresses(old(devices), devices)
      ensures Prompt() ==> !AnyListener(devices)
    {
      CostOfFour(waits);
      TimeoutStart(500);
      var timedout := SendCommand(UNL);
    }

    /** gpib_search. */
    method Search() returns (found: byte)
      modifies this`atn, this`nrfd, this`ndac, this`dav, this`eoi, this`data, this`transactionActive
      modifies this`budget, this`polls, this`devices, this`clock, this`driven, this`waits, this`held
      ensures polls <= old(polls) + 63 * 502 + 3 * 501 + 502 && !transactionActive
      ensures SameAddresses(old(devices), devices)
      ensures Prompt() && Searchable(old(devices)) ==> SearchResult(old(devices), found)
    {
      ghost var were := devices;
      transactionActive := true;
      Unlisten();
      found := 255;
      var addr: byte := 0;
      var searching := true;
      while searching
        invariant addr <= 63 && (searching ==> addr < 63)
        invariant found == 255 || found == addr
        invariant !searching ==> addr == 63 || found != 255
        invariant searching ==> found == 255
        invariant polls <= old(polls) + 501 + 502 * addr
        invariant SameAddresses(were, devices)
        invariant Prompt() && Searchable(were) ==> Searched(were, devices, addr, found)
        decreases 63 - addr, searching
      {
        addr := addr + 1;
        if addr % 32 != 31 {
          ghost var before := devices;
          var present := Probe(addr);
          if present { found := addr; }
          if Prompt() && Searchable(were) { SearchStep(were, before, addr); }
        }
        searching := addr < 63 && found == 255;
      }
      ghost var searched := devices;
      Unlisten();
      if addr >= 32 {
        ghost var before := devices;
        var present := Probe(addr % 32);
        if Prompt() && Searchable(were) { Recheck(were, searched, before, addr, found); }
        if present { found := addr % 32; }
        Unlisten();
      }
      transactionActive := false;
    }
  }
}

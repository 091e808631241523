/** Self-programming of the controller's flash: a page is erased to ones and programmed from a page
    buffer that is filled word by word; programming can only clear bits. */
module FlashMemory {
  import opened Gpib

  const PAGE := 128
  const FLASH_SIZE := 0x8000
  const BOOT_START := 0x7000

  function And(a: nat, b: nat): nat
    decreases a
  {
    if a == 0 || b == 0 then 0 else 2 * And(a / 2, b / 2) + a % 2 * (b % 2)
  }

  function Power(n: nat): nat { if n == 0 then 1 else 2 * Power(n - 1) }

  /** Clearing bits in a cell full of ones leaves exactly the other operand. */
  lemma {:induction false} OnesKeep(n: nat, b: nat)
    requires b < Power(n)
    ensures And(Power(n) - 1, b) == b
  {
    if n > 0 && b > 0 {
      assert (Power(n) - 1) / 2 == Power(n - 1) - 1;
      OnesKeep(n - 1, b / 2);
    }
  }

  lemma {:induction false} AndBelow(a: nat, b: nat)
    ensures And(a, b) <= a
    decreases a
  {
    if a > 0 && b > 0 { AndBelow(a / 2, b / 2); }
  }

  lemma ErasedKeeps(value: byte)
    ensures And(255, value) == value
  {
    assert Power(4) == 16;
    assert Power(8) == 256;
    OnesKeep(8, value);
  }

  /** One programmed cell. */
  function Program(cell: byte, value: byte): (r: byte)
    ensures r <= cell
    ensures cell == 255 ==> r == value
  {
    hide And;
    AndBelow(cell, value);
    ErasedKeeps(value);
    And(cell, value)
  }

  /** IsPageAddressValid. */
  predicate IsPageAddressValid(address: nat) {
    address < BOOT_START && address % PAGE == 0
  }

  function Erased(memory: seq<byte>, address: nat): (r: seq<byte>)
    ensures |r| == |memory|
  {
    seq(|memory|, k requires 0 <= k < |memory| => if address <= k < address + PAGE then 255 else memory[k])
  }

  function Programmed(memory: seq<byte>, address: nat, page: seq<byte>): (r: seq<byte>)
    requires |page| == PAGE
    ensures |r| == |memory|
  {
    seq(|memory|, k requires 0 <= k < |memory| =>
      if address <= k < address + PAGE then Program(memory[k], page[k - address]) else memory[k])
  }

  function Ones(): (page: seq<byte>)
    ensures |page| == PAGE
  {
    seq(PAGE, k requires 0 <= k < PAGE => 255)
  }

  class Chip {
    var memory: seq<byte>
    var page: seq<byte>

    ghost predicate Valid()
      reads this
    {
      |memory| == FLASH_SIZE && |page| == PAGE
    }

    constructor (memory: seq<byte>, page: seq<byte>)
      requires |memory| == FLASH_SIZE && |page| == PAGE
      ensures Valid() && this.memory == memory && this.page == page
    {
      this.memory, this.page := memory, page;
    }

    /** boot_rww_enable also erases the page buffer. */
    method EnableReading()
      requires Valid()
      modifies this`page
      ensures Valid() && page == Ones()
    {
      page := Ones();
    }

    method ErasePage(address: nat)
      requires Valid()
      modifies this
      ensures Valid()
      ensures memory == if IsPageAddressValid(address) then Erased(old(memory), address) else old(memory)
      ensures page == if IsPageAddressValid(address) then Ones() else old(page)
    {
      if !IsPageAddressValid(address) { return; }
      memory := Erased(memory, address);
      EnableReading();
    }

    method WritePage(address: nat)
      requires Valid()
      modifies this
      ensures Valid()
      ensures memory == if IsPageAddressValid(address) then Programmed(old(memory), address, old(page)) else old(memory)
      ensures page == if IsPageAddressValid(address) then Ones() else old(page)
    {
      if !IsPageAddressValid(address) { return; }
      memory := Programmed(memory, address, page);
      EnableReading();
    }

    /** A word of the page buffer; it too can only lose bits until the buffer is erased. */
    method FillWord(address: nat, word: nat)
      requires Valid() && word < 0x1_0000
      modifies this`page
      ensures Valid()
      ensures var o := address % PAGE / 2 * 2;
        page == old(page)[o := Program(old(page)[o], word % 256)][o + 1 := Program(old(page)[o + 1], word / 256)]
    {
      var o := address % PAGE / 2 * 2;
      page := page[o := Program(page[o], word % 256)][o + 1 := Program(page[o + 1], word / 256)];
    }
  }

  /** A block write between two pages: `i` bytes are in place, nothing else has changed. */
  ghost predicate Between(memory: seq<byte>, was: seq<byte>, address: nat, data: seq<byte>, i: nat)
    requires |memory| == |was| && i <= |data| && address + |data| <= |was|
  {
    && (forall k | 0 <= k < |was| && !(address <= k < address + i) :: memory[k] == was[k])
    && (forall k | address <= k < address + i :: memory[k] == data[k - address])
  }

  /** Inside the page at `base`: it is erased and its first `n` bytes are in the buffer. */
  ghost predicate Filling(memory: seq<byte>, page: seq<byte>, was: seq<byte>, address: nat, data: seq<byte>,
      base: nat, n: nat)
    requires |memory| == |was| && |page| == PAGE && address + |data| <= |was| && base + PAGE <= |data| && n <= PAGE
  {
    && (forall k | 0 <= k < |was| && !(address <= k < address + base + PAGE) :: memory[k] == was[k])
    && (forall k | address <= k < address + base :: memory[k] == data[k - address])
    && (forall k | address + base <= k < address + base + PAGE :: memory[k] == 255)
    && (forall k | 0 <= k < n :: page[k] == data[base + k])
    && (forall k | n <= k < PAGE :: page[k] == 255)
  }

  lemma AfterErase(memory: seq<byte>, was: seq<byte>, address: nat, data: seq<byte>, i: nat)
    requires |memory| == |was| && address + |data| <= |was| && i + PAGE <= |data|
    requires Between(memory, was, address, data, i)
    ensures Filling(Erased(memory, address + i), Ones(), was, address, data, i, 0)
  {
  }

  lemma AfterFill(memory: seq<byte>, page: seq<byte>, was: seq<byte>, address: nat, data: seq<byte>, base: nat, n: nat)
    requires |memory| == |was| && address + |data| <= |was| && base + PAGE <= |data| && |page| == PAGE && n + 2 <= PAGE
    requires Filling(memory, page, was, address, data, base, n)
    ensures Filling(memory, page[n := Program(page[n], data[base + n])][n + 1 := Program(page[n + 1], data[base + n + 1])],
      was, address, data, base, n + 2)
  {
    hide Program;
  }

  lemma AfterWrite(memory: seq<byte>, page: seq<byte>, was: seq<byte>, address: nat, data: seq<byte>, base: nat)
    requires |memory| == |was| && address + |data| <= |was| && base + PAGE <= |data| && |page| == PAGE
    requires Filling(memory, page, was, address, data, base, PAGE)
    ensures Between(Programmed(memory, address + base, page), was, address, data, base + PAGE)
  {
    hide Program;
  }

  /** The page offset of an address `n` bytes into a page that begins at a multiple of the page size. */
  lemma Offset(begin: nat, n: nat)
    requires begin % PAGE == 0 && n <= PAGE
    ensures (begin + n) % PAGE == if n == PAGE then 0 else n
    ensures n % 2 == 0 && n < PAGE ==> (begin + n) % PAGE / 2 * 2 == n
  {
  }

  lemma RoomForPage(base: nat, n: nat, length: nat)
    requires base % PAGE == 0 && length % PAGE == 0 && base + n < length
    ensures base + PAGE <= length
  {
  }

  lemma WordParts(low: byte, high: byte)
    ensures (high as int * 256 + low) % 256 == low && (high as int * 256 + low) / 256 == high
  {
  }

  /** Writes a block of the flash file: erase, fill and write page by page. From any previous contents it
      leaves exactly the data there and changes nothing else. */
  method WriteBlock(chip: Chip, address: nat, buffer: array<byte>)
    requires chip.Valid() && address % PAGE == 0 && buffer.Length % PAGE == 0 && address + buffer.Length <= BOOT_START
    modifies chip
    ensures chip.Valid()
    ensures chip.memory == Replaced(old(chip.memory), address, buffer[..])
  {
    hide Between, Filling, Program;
    ghost var was, data := chip.memory, buffer[..];
    ghost var base, n := 0, 0;
    var flashAddress := address;
    var i := 0;
    NothingYet(was, address, data);
    while i < buffer.Length
      invariant i == base + n <= buffer.Length && flashAddress == address + i && data == buffer[..]
      invariant base % PAGE == 0 && n % 2 == 0 && 0 <= n < PAGE && chip.Valid()
      invariant n == 0 ==> Between(chip.memory, was, address, data, base)
      invariant n > 0 ==> base + PAGE <= |data| && Filling(chip.memory, chip.page, was, address, data, base, n)
    {
      RoomForPage(base, n, |data|);
      Offset(address + base, n);
      Offset(address + base, n + 2);
      if flashAddress % PAGE == 0 {
        AfterErase(chip.memory, was, address, data, base);
        chip.ErasePage(flashAddress);
      }
      WordParts(buffer[i], buffer[i + 1]);
      AfterFill(chip.memory, chip.page, was, address, data, base, n);
      chip.FillWord(flashAddress, buffer[i + 1] as int * 256 + buffer[i]);
      flashAddress := flashAddress + 2;
      if flashAddress % PAGE == 0 {
        AfterWrite(chip.memory, chip.page, was, address, data, base);
        chip.WritePage(flashAddress - PAGE);
      }
      i := i + 2;
      n := n + 2;
      if n == PAGE { base, n := base + PAGE, 0; }
    }
    AllInPlace(chip.memory, was, address, data);
  }

  /** `memory` with `data` at `address`. */
  function Replaced(memory: seq<byte>, address: nat, data: seq<byte>): (r: seq<byte>)
    requires address + |data| <= |memory|
    ensures |r| == |memory|
  {
    memory[..address] + data + memory[address + |data|..]
  }

  lemma NothingYet(was: seq<byte>, address: nat, data: seq<byte>)
    requires address + |data| <= |was|
    ensures Between(was, was, address, data, 0)
  {
  }

  lemma AllInPlace(memory: seq<byte>, was: seq<byte>, address: nat, data: seq<byte>)
    requires |memory| == |was| && address + |data| <= |was| && Between(memory, was, address, data, |data|)
    ensures memory == Replaced(was, address, data)
  {
  }
}

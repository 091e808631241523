/** The virtual disk: file blocks kept in flash and EEPROM, a computed allocation table, a directory in
    RAM, and the SCSI READ (10) and WRITE (10) commands over them. */
module VirtualDisk {
  import opened Gpib
  import opened Fat12
  import opened FlashMemory

  const FLASH_FILE_SIZE := 0x6000
  const EEPROM_SIZE := 1024
  const EEPROM_FILE_SIZE := 1023
  const DIRECTORY_SIZE := 160
  const DATA_START := 4
  const SECTORS_PER_CLUSTER := 4
  const LUN_MEDIA_BLOCKS := 82

  /** FILE_SECTORS. */
  function FileSectors(size: nat): nat { size / SECTOR_SIZE + if size % SECTOR_SIZE != 0 then 1 else 0 }

  /** A little-endian 16-bit field. */
  function Word(bytes: seq<byte>, at: nat): (w: nat)
    requires at + 1 < |bytes|
    ensures w < 0x1_0000
  {
    bytes[at] as int + 256 * bytes[at + 1] as int
  }

  /** StartingCluster of the third and the fifth directory entry: what the host last wrote there. */
  function FlashCluster(directory: seq<byte>): (c: nat)
    requires |directory| >= DIRECTORY_SIZE
    ensures c < 0x1_0000
  {
    Word(directory, 90)
  }

  function EepromCluster(directory: seq<byte>): (c: nat)
    requires |directory| >= DIRECTORY_SIZE
    ensures c < 0x1_0000
  {
    Word(directory, 154)
  }

  predicate ShippedClusters(directory: seq<byte>)
    requires |directory| >= DIRECTORY_SIZE
  {
    FlashCluster(directory) == 2 && EepromCluster(directory) == 14
  }

  /** Everything that keeps data. */
  datatype Store = Store(flash: seq<byte>, eeprom: seq<byte>, directory: seq<byte>)

  predicate Sized(s: Store) {
    |s.flash| == FLASH_SIZE && |s.eeprom| == EEPROM_SIZE && |s.directory| == DIRECTORY_SIZE
  }

  /** The first block of a file, in the code's 16-bit arithmetic. */
  function FileStart(cluster: nat): nat { (DATA_START + (cluster - 2) * SECTORS_PER_CLUSTER) % 0x1_0000 }

  predicate InFile(cluster: nat, size: nat, block: nat) {
    FileStart(cluster) <= block <= (FileStart(cluster) + FileSectors(size) - 1) % 0x1_0000
  }

  lemma InFileOffset(cluster: nat, size: nat, block: nat)
    requires InFile(cluster, size, block) && 0 < size && (size == FLASH_FILE_SIZE || size == EEPROM_FILE_SIZE)
    ensures 0 <= block - FileStart(cluster) < FileSectors(size)
    ensures FileSectors(FLASH_FILE_SIZE) == 48 && FileSectors(EEPROM_FILE_SIZE) == 2
  {
  }

  /** The effect of VirtualFAT_WriteBlock. */
  function Stored(s: Store, block: nat, data: seq<byte>): (r: Store)
    requires Sized(s) && |data| == SECTOR_SIZE
    ensures Sized(r)
  {
    if block < 3 then s
    else if block == 3 then s.(directory := data[..DIRECTORY_SIZE])
    else Store(FlashStored(s, block, data), EepromStored(s, block, data), s.directory)
  }

  function FlashStored(s: Store, block: nat, data: seq<byte>): (r: seq<byte>)
    requires Sized(s) && |data| == SECTOR_SIZE
    ensures |r| == |s.flash|
  {
    var c := FlashCluster(s.directory);
    if InFile(c, FLASH_FILE_SIZE, block) then
      InFileOffset(c, FLASH_FILE_SIZE, block);
      Replaced(s.flash, (block - FileStart(c)) * SECTOR_SIZE, data)
    else s.flash
  }

  function EepromStored(s: Store, block: nat, data: seq<byte>): (r: seq<byte>)
    requires Sized(s) && |data| == SECTOR_SIZE
    ensures |r| == |s.eeprom|
  {
    var c := EepromCluster(s.directory);
    if InFile(c, EEPROM_FILE_SIZE, block) then
      InFileOffset(c, EEPROM_FILE_SIZE, block);
      Replaced(s.eeprom, (block - FileStart(c)) * SECTOR_SIZE, data)
    else s.eeprom
  }

  /** A sector of one of the memories. */
  function Sector(memory: seq<byte>, index: nat): (r: seq<byte>)
    requires (index + 1) * SECTOR_SIZE <= |memory|
    ensures |r| == SECTOR_SIZE
  {
    memory[index * SECTOR_SIZE..(index + 1) * SECTOR_SIZE]
  }

  /** What VirtualFAT_ReadBlock sends. */
  function Fetched(s: Store, boot: seq<byte>, block: nat): (data: seq<byte>)
    requires Sized(s) && |boot| <= SECTOR_SIZE - 2
    ensures |data| == SECTOR_SIZE
  {
    if block == 0 then boot + Zeros(SECTOR_SIZE - 2 - |boot|) + [0x55, 0xAA]
    else if block <= 2 then Built(FlashCluster(s.directory), EepromCluster(s.directory))
    else if block == 3 then s.directory + Zeros(SECTOR_SIZE - DIRECTORY_SIZE)
    else
      var e := EepromCluster(s.directory);
      var f := FlashCluster(s.directory);
      if InFile(e, EEPROM_FILE_SIZE, block) then
        InFileOffset(e, EEPROM_FILE_SIZE, block);
        Sector(s.eeprom, block - FileStart(e))
      else if InFile(f, FLASH_FILE_SIZE, block) then
        InFileOffset(f, FLASH_FILE_SIZE, block);
        Sector(s.flash, block - FileStart(f))
      else Zeros(SECTOR_SIZE)
  }

  /** Replacing byte by byte. */
  lemma OneMore(was: seq<byte>, address: nat, data: seq<byte>)
    requires address + |data| <= |was|
    ensures forall i | 0 <= i < |data| ::
      Replaced(was, address, data[..i])[address + i := data[i]] == Replaced(was, address, data[..i + 1])
    ensures Replaced(was, address, data[..0]) == was && data[..|data|] == data
  {
  }

  class Disk {
    const chip: Chip
    const boot: seq<byte>
    var eeprom: seq<byte>
    var directory: seq<byte>

    ghost predicate Valid()
      reads this, chip
    {
      chip.Valid() && Sized(State()) && |boot| <= SECTOR_SIZE - 2
    }

    ghost function State(): Store
      reads this, chip
    {
      Store(chip.memory, eeprom, directory)
    }

    constructor (chip: Chip, boot: seq<byte>, eeprom: seq<byte>, directory: seq<byte>)
      requires chip.Valid() && |boot| <= SECTOR_SIZE - 2 && |eeprom| == EEPROM_SIZE && |directory| == DIRECTORY_SIZE
      ensures Valid() && this.chip == chip && this.boot == boot && State() == Store(chip.memory, eeprom, directory)
    {
      this.chip, this.boot, this.eeprom, this.directory := chip, boot, eeprom, directory;
    }

    method ReadWriteFLASHFileBlock(blockNumber: nat, buffer: array<byte>, read: bool)
      requires Valid() && buffer.Length == SECTOR_SIZE
      modifies buffer, chip
      ensures Valid()
      ensures read ==> chip.memory == old(chip.memory)
      ensures read && InFile(FlashCluster(directory), FLASH_FILE_SIZE, blockNumber) ==>
        0 <= blockNumber - FileStart(FlashCluster(directory)) < 48
        && buffer[..] == Sector(chip.memory, blockNumber - FileStart(FlashCluster(directory)))
      ensures !read || !InFile(FlashCluster(directory), FLASH_FILE_SIZE, blockNumber) ==> buffer[..] == old(buffer[..])
      ensures !read ==> chip.memory == FlashStored(old(State()), blockNumber, buffer[..])
    {
      hide FileStart, FileSectors, FlashCluster, EepromCluster;
      var fileStartBlock := FileStart(FlashCluster(directory));
      var fileEndBlock := (fileStartBlock + (FileSectors(FLASH_FILE_SIZE) - 1)) % 0x1_0000;
      if !(blockNumber >= fileStartBlock && blockNumber <= fileEndBlock) { return; }
      InFileOffset(FlashCluster(directory), FLASH_FILE_SIZE, blockNumber);
      var flashAddress := (blockNumber - fileStartBlock) * SECTOR_SIZE;
      if read {
        ReadInto(buffer, chip.memory, flashAddress);
      } else {
        WriteBlock(chip, flashAddress, buffer);
      }
    }

    method ReadWriteEEPROMFileBlock(blockNumber: nat, buffer: array<byte>, read: bool)
      requires Valid() && buffer.Length == SECTOR_SIZE
      modifies buffer, this`eeprom
      ensures Valid()
      ensures read ==> eeprom == old(eeprom)
      ensures read && InFile(EepromCluster(directory), EEPROM_FILE_SIZE, blockNumber) ==>
        0 <= blockNumber - FileStart(EepromCluster(directory)) < 2
        && buffer[..] == Sector(eeprom, blockNumber - FileStart(EepromCluster(directory)))
      ensures !read || !InFile(EepromCluster(directory), EEPROM_FILE_SIZE, blockNumber) ==> buffer[..] == old(buffer[..])
      ensures !read ==> eeprom == EepromStored(old(State()), blockNumber, buffer[..])
    {
      hide FileStart, FileSectors, FlashCluster, EepromCluster;
      var fileStartBlock := FileStart(EepromCluster(directory));
      var fileEndBlock := (fileStartBlock + (FileSectors(EEPROM_FILE_SIZE) - 1)) % 0x1_0000;
      if !(blockNumber >= fileStartBlock && blockNumber <= fileEndBlock) { return; }
      InFileOffset(EepromCluster(directory), EEPROM_FILE_SIZE, blockNumber);
      var eepromAddress := (blockNumber - fileStartBlock) * SECTOR_SIZE;
      if read {
        ReadInto(buffer, eeprom, eepromAddress);
      } else {
        WriteEEPROMBytes(eepromAddress, buffer);
      }
    }

    method WriteEEPROMBytes(address: nat, buffer: array<byte>)
      requires address + buffer.Length <= |eeprom|
      modifies this`eeprom
      ensures eeprom == Replaced(old(eeprom), address, buffer[..])
    {
      hide Replaced;
      ghost var was, data := eeprom, buffer[..];
      OneMore(was, address, data);
      var i := 0;
      while i < buffer.Length
        invariant i <= buffer.Length && eeprom == Replaced(was, address, data[..i])
      {
        eeprom := eeprom[address + i := buffer[i]];
        i := i + 1;
      }
    }

    /** VirtualFAT_WriteBlock of a block that the host sends. */
    method VirtualFAT_WriteBlock(blockNumber: nat, sent: seq<byte>)
      requires Valid() && |sent| == SECTOR_SIZE
      modifies this`eeprom, this`directory, chip
      ensures Valid() && State() == Stored(old(State()), blockNumber, sent)
    {
      hide InFile, FlashCluster, EepromCluster, Replaced;
      var blockBuffer := new byte[SECTOR_SIZE](i requires 0 <= i < SECTOR_SIZE => sent[i]);
      assert blockBuffer[..] == sent;
      if blockNumber <= 2 {
      } else if blockNumber == 3 {
        directory := blockBuffer[..DIRECTORY_SIZE];
      } else {
        ReadWriteFLASHFileBlock(blockNumber, blockBuffer, false);
        ReadWriteEEPROMFileBlock(blockNumber, blockBuffer, false);
      }
    }

    /** VirtualFAT_ReadBlock; the result is what the host gets. */
    method VirtualFAT_ReadBlock(blockNumber: nat) returns (data: seq<byte>)
      requires Valid()
      modifies chip, this`eeprom
      ensures Valid() && State() == old(State())
      ensures data == Fetched(State(), boot, blockNumber)
    {
      hide InFile, FlashCluster, EepromCluster, Replaced, Built, Sector;
      var blockBuffer := new byte[SECTOR_SIZE](i requires 0 <= i < SECTOR_SIZE => 0);
      assert blockBuffer[..] == Zeros(SECTOR_SIZE);
      if blockNumber == 0 {
        Copy(blockBuffer, boot);
        blockBuffer[SECTOR_SIZE - 2] := 0x55;
        blockBuffer[SECTOR_SIZE - 1] := 0xAA;
      } else if blockNumber <= 2 {
        Build(blockBuffer, FlashCluster(directory), EepromCluster(directory));
      } else if blockNumber == 3 {
        Copy(blockBuffer, directory);
      } else {
        ReadWriteFLASHFileBlock(blockNumber, blockBuffer, true);
        ReadWriteEEPROMFileBlock(blockNumber, blockBuffer, true);
      }
      data := blockBuffer[..];
    }
  }

  /** The loop that reads a mapped block byte by byte. */
  method ReadInto(buffer: array<byte>, memory: seq<byte>, address: nat)
    requires address + buffer.Length <= |memory|
    modifies buffer
    ensures buffer[..] == memory[address..address + buffer.Length]
  {
    var i := 0;
    while i < buffer.Length
      invariant i <= buffer.Length && forall k | 0 <= k < i :: buffer[k] == memory[address + k]
    {
      buffer[i] := memory[address + i];
      i := i + 1;
    }
  }

  /** memcpy to the start of a zeroed buffer. */
  method Copy(buffer: array<byte>, bytes: seq<byte>)
    requires |bytes| <= buffer.Length && buffer[..] == Zeros(buffer.Length)
    modifies buffer
    ensures buffer[..] == bytes + Zeros(buffer.Length - |bytes|)
  {
    var i := 0;
    while i < |bytes|
      invariant i <= |bytes| && buffer[..i] == bytes[..i]
      invariant forall k | i <= k < buffer.Length :: buffer[k] == 0
    {
      buffer[i] := bytes[i];
      i := i + 1;
    }
  }
}

/** SCSI READ (10) and WRITE (10) over the virtual disk, and the plain array of sectors that the disk is
    to its host. */
module ScsiDisk {
  import opened Gpib
  import opened Fat12
  import opened FlashMemory
  import opened VirtualDisk

  type Block = b: seq<byte> | |b| == SECTOR_SIZE witness Zeros(SECTOR_SIZE)

  /** A command block, the length of the data phase, and the blocks a write brings. */
  datatype Request = Request(read: bool, cdb: seq<byte>, length: nat, sent: seq<Block>)

  datatype Reply = Rejected | Done(blocks: seq<Block>, residue: nat)

  predicate WellFormed(c: Request) {
    |c.cdb| == 16 && c.length < 0x1_0000_0000 && (!c.read ==> |c.sent| == TotalBlocks(c.cdb))
  }

  /** The 32-bit logical block address of the command, and the part of it the code keeps. */
  function LogicalAddress(cdb: seq<byte>): nat
    requires |cdb| == 16
  {
    ((cdb[2] as int * 256 + cdb[3]) * 256 + cdb[4]) * 256 + cdb[5]
  }

  function BlockAddress(cdb: seq<byte>): nat
    requires |cdb| == 16
  {
    LogicalAddress(cdb) % 0x1_0000
  }

  function TotalBlocks(cdb: seq<byte>): nat
    requires |cdb| == 16
  {
    cdb[7] as int * 256 + cdb[8]
  }

  /** The i-th block of a command, in 16-bit arithmetic. */
  function BlockAt(address: nat, i: nat): nat { (address + i) % 0x1_0000 }

  // ---------------------------------------------------------------- the plain disk

  /** What the host sees: 50 file sectors (48 of FLASH.BIN, 2 of EEPROM.BIN) and the directory. */
  datatype Plain = Plain(sectors: seq<Block>, directory: seq<byte>)

  const FIRST := DATA_START
  const FILE_SECTORS := 50

  predicate Proper(p: Plain) { |p.sectors| == FILE_SECTORS && |p.directory| == DIRECTORY_SIZE }

  function PlainRead(p: Plain, boot: seq<byte>, block: nat): Block
    requires Proper(p) && |boot| <= SECTOR_SIZE - 2
  {
    if block == 0 then boot + Zeros(SECTOR_SIZE - 2 - |boot|) + [0x55, 0xAA]
    else if block <= 2 then Built(2, 14)
    else if block == 3 then p.directory + Zeros(SECTOR_SIZE - DIRECTORY_SIZE)
    else if block < FIRST + FILE_SECTORS then p.sectors[block - FIRST]
    else Zeros(SECTOR_SIZE)
  }

  function PlainWrite(p: Plain, block: nat, data: Block): (q: Plain)
    requires Proper(p)
    ensures Proper(q)
  {
    if block == 3 then p.(directory := data[..DIRECTORY_SIZE])
    else if FIRST <= block < FIRST + FILE_SECTORS then p.(sectors := p.sectors[block - FIRST := data])
    else p
  }

  function PlainReads(p: Plain, boot: seq<byte>, address: nat, n: nat): (blocks: seq<Block>)
    requires Proper(p) && |boot| <= SECTOR_SIZE - 2
    ensures |blocks| == n
  {
    if n == 0 then [] else PlainReads(p, boot, address, n - 1) + [PlainRead(p, boot, BlockAt(address, n - 1))]
  }

  function PlainWrites(p: Plain, address: nat, sent: seq<Block>, n: nat): (q: Plain)
    requires Proper(p) && n <= |sent|
    ensures Proper(q)
  {
    if n == 0 then p else PlainWrite(PlainWrites(p, address, sent, n - 1), BlockAt(address, n - 1), sent[n - 1])
  }

  function PlainRun(p: Plain, boot: seq<byte>, c: Request): (Plain, Reply)
    requires Proper(p) && |boot| <= SECTOR_SIZE - 2 && WellFormed(c)
  {
    var address, total := BlockAddress(c.cdb), TotalBlocks(c.cdb);
    if address >= LUN_MEDIA_BLOCKS then (p, Rejected)
    else
      var residue := (c.length - total * SECTOR_SIZE) % 0x1_0000_0000;
      if c.read then (p, Done(PlainReads(p, boot, address, total), residue))
      else (PlainWrites(p, address, c.sent, total), Done([], residue))
  }

  function PlainServe(p: Plain, boot: seq<byte>, cs: seq<Request>): (Plain, seq<Reply>)
    requires Proper(p) && |boot| <= SECTOR_SIZE - 2 && forall c | c in cs :: WellFormed(c)
    ensures Proper(PlainServe(p, boot, cs).0)
  {
    if cs == [] then (p, [])
    else
      var (before, replies) := PlainServe(p, boot, cs[..|cs| - 1]);
      var (q, reply) := PlainRun(before, boot, cs[|cs| - 1]);
      (q, replies + [reply])
  }

  // ---------------------------------------------------------------- refinement

  /** The plain disk that a store implements. */
  function Abstract(s: Store): (p: Plain)
    requires Sized(s)
    ensures Proper(p)
  {
    Plain(seq(FILE_SECTORS, i requires 0 <= i < FILE_SECTORS => FileSector(s, i)), s.directory)
  }

  function FileSector(s: Store, i: nat): Block
    requires Sized(s) && i < FILE_SECTORS
  {
    if i < 48 then Sector(s.flash, i) else Sector(s.eeprom, i - 48)
  }

  /** The host may write the directory as long as it leaves the files where they are. */
  predicate KeepsFiles(block: nat, data: Block) {
    block == 3 ==> ShippedClusters(data)
  }

  ghost predicate LeavesFiles(c: Request)
    requires WellFormed(c)
  {
    !c.read && BlockAddress(c.cdb) < LUN_MEDIA_BLOCKS ==>
      forall i | 0 <= i < |c.sent| :: KeepsFiles(BlockAt(BlockAddress(c.cdb), i), c.sent[i])
  }

  lemma ShippedRanges(directory: seq<byte>, block: nat)
    requires |directory| >= DIRECTORY_SIZE && ShippedClusters(directory)
    ensures FileStart(2) == 4 && FileStart(14) == 52
    ensures InFile(FlashCluster(directory), FLASH_FILE_SIZE, block) <==> 4 <= block < 52
    ensures InFile(EepromCluster(directory), EEPROM_FILE_SIZE, block) <==> 52 <= block < 54
  {
    assert FileSectors(FLASH_FILE_SIZE) == 48 && FileSectors(EEPROM_FILE_SIZE) == 2;
  }

  lemma SectorReplaced(memory: seq<byte>, k: nat, data: Block, i: nat)
    requires (k + 1) * SECTOR_SIZE <= |memory| && (i + 1) * SECTOR_SIZE <= |memory|
    ensures Sector(Replaced(memory, k * SECTOR_SIZE, data), i) == if i == k then data else Sector(memory, i)
  {
    var r := Replaced(memory, k * SECTOR_SIZE, data);
    if i < k {
      assert (i + 1) * SECTOR_SIZE <= k * SECTOR_SIZE;
    } else if k < i {
      assert (k + 1) * SECTOR_SIZE <= i * SECTOR_SIZE;
      assert forall j | (k + 1) * SECTOR_SIZE <= j < |memory| :: r[j] == memory[j];
    }
  }

  /** Writing a block is writing the plain disk, and reading one is reading it. */
  lemma WriteRefines(s: Store, block: nat, data: Block)
    requires Sized(s) && ShippedClusters(s.directory) && KeepsFiles(block, data)
    ensures var r := Stored(s, block, data);
      && ShippedClusters(r.directory)
      && Abstract(r) == PlainWrite(Abstract(s), block, data)
      && r.flash[FLASH_FILE_SIZE..] == s.flash[FLASH_FILE_SIZE..]
  {
    hide InFile, Replaced, Sector, FlashCluster, EepromCluster, FileStart;
    var r := Stored(s, block, data);
    ShippedRanges(s.directory, block);
    assert ShippedClusters(r.directory) by { if block == 3 { DirectoryBytes(data); } else { } }
    if block > 3 {
      FlashOf(s, block, data);
      EepromOf(s, block, data);
      forall i | 0 <= i < FILE_SECTORS
        ensures Abstract(r).sectors[i] == PlainWrite(Abstract(s), block, data).sectors[i]
      {
        if block < 52 && i < 48 { SectorReplaced(s.flash, block - 4, data, i); }
        if 52 <= block < 54 && 48 <= i { SectorReplaced(s.eeprom, block - 52, data, i - 48); }
      }
      if block < 52 { AboveReplaced(s.flash, (block - 4) * SECTOR_SIZE, data); }
    }
  }

  lemma AboveReplaced(memory: seq<byte>, address: nat, data: seq<byte>)
    requires address + |data| <= FLASH_FILE_SIZE <= |memory|
    ensures Replaced(memory, address, data)[FLASH_FILE_SIZE..] == memory[FLASH_FILE_SIZE..]
  {
  }

  lemma DirectoryBytes(data: Block)
    ensures ShippedClusters(data[..DIRECTORY_SIZE]) == ShippedClusters(data)
  {
  }

  lemma FlashOf(s: Store, block: nat, data: Block)
    requires Sized(s) && ShippedClusters(s.directory)
    ensures FlashStored(s, block, data)
      == if 4 <= block < 52 then Replaced(s.flash, (block - 4) * SECTOR_SIZE, data) else s.flash
  {
    hide Replaced;
    ShippedRanges(s.directory, block);
  }

  lemma EepromOf(s: Store, block: nat, data: Block)
    requires Sized(s) && ShippedClusters(s.directory)
    ensures EepromStored(s, block, data)
      == if 52 <= block < 54 then Replaced(s.eeprom, (block - 52) * SECTOR_SIZE, data) else s.eeprom
  {
    hide Replaced;
    ShippedRanges(s.directory, block);
  }

  lemma ReadRefines(s: Store, boot: seq<byte>, block: nat)
    requires Sized(s) && ShippedClusters(s.directory) && |boot| <= SECTOR_SIZE - 2
    ensures Fetched(s, boot, block) == PlainRead(Abstract(s), boot, block)
  {
    hide InFile, Sector, Built;
    ShippedRanges(s.directory, block);
  }

  /** SCSI_Command_ReadWrite_10. */
  method ReadWrite10(disk: Disk, c: Request) returns (reply: Reply)
    requires disk.Valid() && ShippedClusters(disk.directory) && WellFormed(c) && LeavesFiles(c)
    modifies disk`eeprom, disk`directory, disk.chip
    ensures disk.Valid() && ShippedClusters(disk.directory)
    ensures (Abstract(disk.State()), reply) == PlainRun(Abstract(old(disk.State())), disk.boot, c)
    ensures disk.chip.memory[FLASH_FILE_SIZE..] == old(disk.chip.memory[FLASH_FILE_SIZE..])
  {
    hide Stored, Fetched, Abstract, PlainRead, PlainWrite, ShippedClusters;
    var blockAddress := BlockAddress(c.cdb);
    var totalBlocks := TotalBlocks(c.cdb);
    if blockAddress >= LUN_MEDIA_BLOCKS { return Rejected; }
    var blocks: seq<Block> := [];
    ghost var p := Abstract(disk.State());
    var i := 0;
    while i < totalBlocks
      invariant i <= totalBlocks && disk.Valid() && ShippedClusters(disk.directory)
      invariant Abstract(disk.State()) == if c.read then p else PlainWrites(p, blockAddress, c.sent, i)
      invariant blocks == if c.read then PlainReads(p, disk.boot, blockAddress, i) else []
      invariant disk.chip.memory[FLASH_FILE_SIZE..] == old(disk.chip.memory[FLASH_FILE_SIZE..])
    {
      var block := BlockAt(blockAddress, i);
      if c.read {
        ReadRefines(disk.State(), disk.boot, block);
        var data := disk.VirtualFAT_ReadBlock(block);
        blocks := blocks + [data];
      } else {
        WriteRefines(disk.State(), block, c.sent[i]);
        disk.VirtualFAT_WriteBlock(block, c.sent[i]);
      }
      i := i + 1;
    }
    reply := Done(blocks, (c.length - totalBlocks * SECTOR_SIZE) % 0x1_0000_0000);
  }

  /** Any sequence of commands: the replies and the contents are those of the plain disk, and the flash
      behind the file keeps its contents. */
  method Serve(disk: Disk, cs: seq<Request>) returns (replies: seq<Reply>)
    requires disk.Valid() && ShippedClusters(disk.directory)
    requires forall c | c in cs :: WellFormed(c) && LeavesFiles(c)
    modifies disk`eeprom, disk`directory, disk.chip
    ensures disk.Valid() && ShippedClusters(disk.directory)
    ensures (Abstract(disk.State()), replies) == PlainServe(Abstract(old(disk.State())), disk.boot, cs)
    ensures disk.chip.memory[FLASH_FILE_SIZE..] == old(disk.chip.memory[FLASH_FILE_SIZE..])
  {
    hide PlainRun, Abstract, ShippedClusters;
    replies := [];
    var i := 0;
    assert cs[..0] == [];
    while i < |cs|
      invariant i <= |cs| && disk.Valid() && ShippedClusters(disk.directory)
      invariant (Abstract(disk.State()), replies) == PlainServe(Abstract(old(disk.State())), disk.boot, cs[..i])
      invariant disk.chip.memory[FLASH_FILE_SIZE..] == old(disk.chip.memory[FLASH_FILE_SIZE..])
    {
      var reply := ReadWrite10(disk, cs[i]);
      replies := replies + [reply];
      assert cs[..i + 1][..i] == cs[..i] && cs[..i + 1][i] == cs[i];
      i := i + 1;
    }
    assert cs[..i] == cs;
  }

  // ---------------------------------------------------------------- what the plain disk does

  /** After a write every file sector holds the block sent for it, or what it held before. */
  lemma {:induction false} LastWritten(p: Plain, address: nat, sent: seq<Block>, n: nat, block: nat)
    requires Proper(p) && n <= |sent| && n <= 0x1_0000 && FIRST <= block < FIRST + FILE_SECTORS
    ensures var after := PlainWrites(p, address, sent, n).sectors[block - FIRST];
      && (forall i | 0 <= i < n && BlockAt(address, i) == block :: after == sent[i])
      && ((forall i | 0 <= i < n :: BlockAt(address, i) != block) ==> after == p.sectors[block - FIRST])
  {
    if n > 0 {
      LastWritten(p, address, sent, n - 1, block);
      forall i | 0 <= i < n - 1 ensures BlockAt(address, i) != BlockAt(address, n - 1) { Distinct(address, i, n - 1); }
    }
  }

  lemma Distinct(address: nat, i: nat, j: nat)
    requires i < j < i + 0x1_0000
    ensures BlockAt(address, i) != BlockAt(address, j)
  {
  }

  lemma SmallBlock(address: nat, i: nat)
    requires address + i < 0x1_0000
    ensures BlockAt(address, i) == address + i
  {
  }

  /** Written blocks read back, as long as the host stays inside the files. */
  lemma ReadBack(p: Plain, boot: seq<byte>, address: nat, sent: seq<Block>)
    requires Proper(p) && |boot| <= SECTOR_SIZE - 2
    requires FIRST <= address && address + |sent| <= FIRST + FILE_SECTORS
    ensures PlainReads(PlainWrites(p, address, sent, |sent|), boot, address, |sent|) == sent
  {
    hide PlainReads, PlainWrites, Built, BlockAt;
    var q := PlainWrites(p, address, sent, |sent|);
    forall i | 0 <= i < |sent| ensures PlainReads(q, boot, address, |sent|)[i] == sent[i] {
      ReadsAt(q, boot, address, |sent|, i);
      SmallBlock(address, i);
      LastWritten(p, address, sent, |sent|, address + i);
    }
  }

  lemma {:induction false} ReadsAt(p: Plain, boot: seq<byte>, address: nat, n: nat, i: nat)
    requires Proper(p) && |boot| <= SECTOR_SIZE - 2 && i < n
    ensures PlainReads(p, boot, address, n)[i] == PlainRead(p, boot, BlockAt(address, i))
  {
    if i < n - 1 { ReadsAt(p, boot, address, n - 1, i); }
  }

  /** A command is rejected exactly when its address is outside the medium, unless the code's 16 bits
      lose the difference. */
  lemma RejectsOutside(p: Plain, boot: seq<byte>, c: Request)
    requires Proper(p) && |boot| <= SECTOR_SIZE - 2 && WellFormed(c)
    ensures (PlainRun(p, boot, c).1.Rejected? <==> LogicalAddress(c.cdb) >= LUN_MEDIA_BLOCKS)
      <==> LogicalAddress(c.cdb) < 0x1_0000 || LogicalAddress(c.cdb) % 0x1_0000 >= LUN_MEDIA_BLOCKS
  {
    hide PlainReads, PlainWrites;
  }

  /** A write far outside the medium, to block 0x10004, replaces the first sector of FLASH.BIN. */
  lemma FarWriteHitsTheFile(p: Plain, boot: seq<byte>, data: Block)
    requires Proper(p) && |boot| <= SECTOR_SIZE - 2
    ensures var c := Request(false, [0x2A, 0, 0, 1, 0, 4, 0, 0, 1, 0, 0, 0, 0, 0, 0, 0], 512, [data]);
      && WellFormed(c) && LogicalAddress(c.cdb) == 0x1_0004
      && PlainRun(p, boot, c) == (p.(sectors := p.sectors[0 := data]), Done([], 0))
  {
    var c := Request(false, [0x2A, 0, 0, 1, 0, 4, 0, 0, 1, 0, 0, 0, 0, 0, 0, 0], 512, [data]);
    assert TotalBlocks(c.cdb) == 1 && BlockAt(4, 0) == 4;
    assert PlainWrites(p, 4, [data], 0) == p;
  }
}

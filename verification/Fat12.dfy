/** The allocation table of the virtual disk: 12-bit entries packed into bytes, written in place. */
module Fat12 {
  import opened Gpib

  const SECTOR_SIZE := 512
  const END_OF_CHAIN := 0xFFF
  const FLASH_CLUSTERS := 12
  const EEPROM_CLUSTERS := 1
  /** The last index whose byte offset the code's 8-bit variable can hold. */
  const LAST_INDEX := 170

  /** An erased buffer. */
  function Zeros(n: nat): (z: seq<byte>)
    ensures |z| == n && forall i | 0 <= i < n :: z[i] == 0
  {
    if n == 0 then [] else Zeros(n - 1) + [0]
  }

  type Table = t: seq<byte> | |t| == SECTOR_SIZE witness Zeros(SECTOR_SIZE)

  /** How a host reads entry `index` (Microsoft FAT General Overview of On-Disk Format, FAT12 entries). */
  function Decode(t: Table, index: nat): (entry: nat)
    requires index <= 2 * LAST_INDEX
    ensures entry <= 0xFFF
  {
    var o := index + index / 2;
    if index % 2 == 1 then t[o] as int / 16 + t[o + 1] as int * 16 else t[o] as int + t[o + 1] as int % 16 * 256
  }

  /** The first byte of an entry, in the code's 8-bit variable. */
  function Offset(index: nat): byte { (index + index / 2) % 256 }

  /** Bitwise or of bytes; without common bits it is the sum. */
  function Or(b: byte, c: byte): (r: byte)
    ensures b % 16 == 0 && c < 16 ==> r == b + c
  {
    if b % 16 == 0 && c < 16 then b + c else (b as bv8 | c as bv8) as byte
  }

  /** The effect of UpdateFAT12ClusterEntry. For an even entry the upper half of the second byte is taken
      from the first byte, which has just been overwritten. */
  function Updated(t: Table, index: nat, entry: nat): Table
    requires entry < 0x1_0000
  {
    var o := Offset(index);
    if index % 2 == 1 then t[o := t[o] % 16 + entry % 16 * 16][o + 1 := entry / 16 % 256]
    else t[o := entry % 256][o + 1 := Or(entry % 256 / 16 * 16, entry / 256)]
  }

  method UpdateFAT12ClusterEntry(fat: array<byte>, index: nat, entry: nat)
    requires fat.Length == SECTOR_SIZE && index < 0x1_0000 && entry < 0x1_0000
    modifies fat
    ensures fat[..] == Updated(old(fat[..]), index, entry)
  {
    hide Offset;
    var offset := Offset(index);
    if index % 2 != 0 {
      fat[offset] := fat[offset] % 16 + entry % 16 * 16;
      fat[offset + 1] := entry / 16 % 256;
    } else {
      fat[offset] := entry % 256;
      fat[offset + 1] := Or(fat[offset] / 16 * 16, entry / 256);
    }
  }

  /** The written entry decodes to what was written; the entry behind an even one loses its low four
      bits to a copy of bits 4 to 7 of it; every other entry stays. */
  lemma DecodeUpdated(t: Table, index: nat, entry: nat, j: nat)
    requires index <= LAST_INDEX && entry <= 0xFFF && j <= 2 * LAST_INDEX
    ensures Decode(Updated(t, index, entry), j) ==
      if j == index then entry
      else if j == index + 1 && index % 2 == 0 then Decode(t, j) / 16 * 16 + entry / 16 % 16
      else Decode(t, j)
  {
    hide Decode, Updated;
    if j == index {
      DecodeWritten(t, index, entry);
    } else if j == index + 1 {
      DecodeNext(t, index, entry);
    } else if j + 1 == index {
      DecodePrevious(t, index, entry);
    } else {
      DecodeElsewhere(t, index, entry, j);
    }
  }

  lemma Offsets(index: nat)
    requires index <= LAST_INDEX
    ensures Offset(index) == index + index / 2
  {
  }

  lemma Nibbles(high: int, low: int)
    requires 0 <= low < 16
    ensures (high * 16 + low) / 16 == high && (high * 16 + low) % 16 == low
  {
  }

  /** The two cells that are written. */
  lemma Cells(t: Table, index: nat, entry: nat)
    requires entry <= 0xFFF
    ensures var o := Offset(index); var u := Updated(t, index, entry);
      && u[o] == (if index % 2 == 1 then t[o] % 16 + entry % 16 * 16 else entry % 256)
      && u[o + 1] == (if index % 2 == 1 then entry / 16 else entry % 256 / 16 * 16 + entry / 256)
      && forall i | 0 <= i < SECTOR_SIZE && i != o && i != o + 1 :: u[i] == t[i]
  {
    hide Offset, Or;
  }

  lemma DecodeWritten(t: Table, index: nat, entry: nat)
    requires index <= LAST_INDEX && entry <= 0xFFF
    ensures Decode(Updated(t, index, entry), index) == entry
  {
    hide Offset, Updated;
    Offsets(index);
    Cells(t, index, entry);
    if index % 2 == 1 {
      Nibbles(entry % 16, t[index + index / 2] % 16);
    } else {
      Nibbles(entry % 256 / 16, entry / 256);
    }
  }

  lemma DecodeNext(t: Table, index: nat, entry: nat)
    requires index <= LAST_INDEX && entry <= 0xFFF
    ensures Decode(Updated(t, index, entry), index + 1) ==
      if index % 2 == 0 then Decode(t, index + 1) / 16 * 16 + entry / 16 % 16 else Decode(t, index + 1)
  {
    hide Offset, Or;
    Offsets(index);
    var o := index + index / 2;
    var u := Updated(t, index, entry);
    if index % 2 == 0 {
      Nibbles(entry % 256 / 16, entry / 256);
      assert u[o + 1] / 16 == entry % 256 / 16 && u[o + 2] == t[o + 2];
      assert Decode(t, index + 1) == t[o + 1] as int / 16 + t[o + 2] as int * 16;
      assert Decode(u, index + 1) == u[o + 1] as int / 16 + t[o + 2] as int * 16;
      Halves(t[o + 1], t[o + 2], entry);
    } else {
      assert u[o + 2] == t[o + 2] && u[o + 3] == t[o + 3];
    }
  }

  lemma Halves(low: byte, high: byte, entry: nat)
    ensures entry % 256 / 16 == entry / 16 % 16
    ensures (low as int / 16 + high as int * 16) / 16 * 16 == high as int * 16
  {
    Nibbles(high, low / 16);
  }

  lemma DecodePrevious(t: Table, index: nat, entry: nat)
    requires 1 <= index <= LAST_INDEX && entry <= 0xFFF
    ensures Decode(Updated(t, index, entry), index - 1) == Decode(t, index - 1)
  {
    hide Offset, Or;
    Offsets(index);
    var o := index + index / 2;
    var u := Updated(t, index, entry);
    if index % 2 == 1 {
      Nibbles(entry % 16, t[o] % 16);
      assert u[o] % 16 == t[o] % 16 && u[o - 1] == t[o - 1];
    } else {
      assert u[o - 1] == t[o - 1] && u[o - 2] == t[o - 2];
    }
  }

  lemma DecodeElsewhere(t: Table, index: nat, entry: nat, j: nat)
    requires index <= LAST_INDEX && entry <= 0xFFF && j <= 2 * LAST_INDEX && (index + 1 < j || j + 1 < index)
    ensures Decode(Updated(t, index, entry), j) == Decode(t, j)
  {
    hide Offset, Or;
    Offsets(index);
    Apart(index, j);
    var o, p := index + index / 2, j + j / 2;
    var u := Updated(t, index, entry);
    assert u[p] == t[p] && u[p + 1] == t[p + 1];
  }

  /** Entries that are not neighbours share no byte. */
  lemma Apart(i: nat, j: nat)
    requires i + 1 < j || j + 1 < i
    ensures i + i / 2 + 1 < j + j / 2 || j + j / 2 + 1 < i + i / 2
  {
  }

  /** An index beyond the last one wraps: the entry it names keeps its value ... */
  lemma FarEntriesWrap(t: Table, index: nat, entry: nat)
    requires LAST_INDEX < index <= 2 * LAST_INDEX && entry <= 0xFFF
    ensures Decode(Updated(t, index, entry), index) == Decode(t, index)
  {
    hide Offset, Updated;
    assert Offset(index) < 255 by { FarOffset(index); }
    Cells(t, index, entry);
    var o := index + index / 2;
    var u := Updated(t, index, entry);
    assert 256 <= o && u[o] == t[o] && u[o + 1] == t[o + 1];
  }

  lemma FarOffset(index: nat)
    requires LAST_INDEX < index <= 2 * LAST_INDEX
    ensures Offset(index) == index + index / 2 - 256
  {
  }

  /** ... and one of the first entries is overwritten instead: entry 0 by index 171. */
  lemma FirstEntryOverwritten(t: Table, entry: nat)
    requires entry <= 0xFFF
    ensures Decode(Updated(t, 171, entry), 0) == t[0] as int % 16 + entry % 16 * 16 + entry / 16 % 16 * 256
  {
    hide Offset, Updated;
    FarOffset(171);
    Cells(t, 171, entry);
  }

  /** A cluster number in the code's 16-bit variables. */
  function Cluster(n: nat): (c: nat)
    ensures c < 0x1_0000 && (n < 0x1_0000 ==> c == n)
  {
    n % 0x1_0000
  }

  /** The first `k` turns of UpdateFAT12ClusterChain. */
  function Chained(t: Table, start: nat, length: nat, k: nat): Table
    requires k <= length
  {
    if k == 0 then t
    else
      Updated(Chained(t, start, length, k - 1), Cluster(start + k - 1),
        if k == length then END_OF_CHAIN else Cluster(start + k))
  }

  lemma NextCluster(n: nat)
    ensures Cluster(Cluster(n) + 1) == Cluster(n + 1)
  {
  }

  method UpdateFAT12ClusterChain(fat: array<byte>, index: nat, chainLength: byte)
    requires fat.Length == SECTOR_SIZE && index < 0x1_0000
    modifies fat
    ensures fat[..] == Chained(old(fat[..]), index, chainLength, chainLength)
  {
    hide Updated, Cluster;
    var i := 0;
    while i < chainLength
      invariant i <= chainLength && fat[..] == Chained(old(fat[..]), index, chainLength, i)
    {
      var currentCluster := Cluster(index + i);
      var nextCluster := Cluster(currentCluster + 1);
      NextCluster(index + i);
      if i == chainLength - 1 { nextCluster := 0xFFF; }
      UpdateFAT12ClusterEntry(fat, currentCluster, nextCluster);
      i := i + 1;
    }
  }

  /** What a chain leaves of entry `j`. */
  function AfterChain(t: Table, start: nat, length: nat, j: nat): nat
    requires 1 <= length && j <= 2 * LAST_INDEX
  {
    if start <= j < start + length - 1 then j + 1
    else if j == start + length - 1 then END_OF_CHAIN
    else if j == start + length && (start + length) % 2 == 1 then Decode(t, j) / 16 * 16 + 15
    else Decode(t, j)
  }

  lemma {:induction false} DecodePartial(t: Table, start: nat, length: nat, k: nat, j: nat)
    requires start + length - 1 <= LAST_INDEX && 1 <= k <= length && j <= 2 * LAST_INDEX
    requires k < length ==> j != start + k
    ensures Decode(Chained(t, start, length, k), j) ==
      if k == length then AfterChain(t, start, length, j)
      else if start <= j < start + k then j + 1
      else Decode(t, j)
  {
    hide Decode, Updated, Cluster;
    var before := Chained(t, start, length, k - 1);
    var entry := if k == length then END_OF_CHAIN else start + k;
    DecodeUpdated(before, start + k - 1, entry, j);
    if k > 1 && j != start + k - 1 { DecodePartial(t, start, length, k - 1, j); }
  }

  /** A chain of `length` clusters decodes to start, start+1, ..., end; nothing else changes, except the
      low four bits of the entry behind a chain whose last cluster is even: they become ones. */
  lemma ChainDecodes(t: Table, start: nat, length: nat, j: nat)
    requires 1 <= length && start + length - 1 <= LAST_INDEX && j <= 2 * LAST_INDEX
    ensures Decode(Chained(t, start, length, length), j) == AfterChain(t, start, length, j)
  {
    DecodePartial(t, start, length, length, j);
  }

  /** The neighbour keeps its value exactly if the last cluster is odd or its low bits were ones. */
  lemma NeighbourKept(t: Table, start: nat, length: nat)
    requires 1 <= length && start + length - 1 <= LAST_INDEX
    ensures Decode(Chained(t, start, length, length), start + length) == Decode(t, start + length)
      <==> (start + length - 1) % 2 == 1 || Decode(t, start + length) % 16 == 15
  {
    hide Decode, Chained;
    ChainDecodes(t, start, length, start + length);
  }

  /** The table block sent to the host, for files that start at these clusters. */
  function Built(flashStart: nat, eepromStart: nat): Table {
    var reserved := Updated(Updated(Zeros(SECTOR_SIZE), 0, 0xFF8), 1, 0xFFF);
    Chained(Chained(reserved, flashStart, FLASH_CLUSTERS, FLASH_CLUSTERS), eepromStart, EEPROM_CLUSTERS, EEPROM_CLUSTERS)
  }

  method Build(block: array<byte>, flashStart: nat, eepromStart: nat)
    requires block.Length == SECTOR_SIZE && block[..] == Zeros(SECTOR_SIZE)
    requires flashStart < 0x1_0000 && eepromStart < 0x1_0000
    modifies block
    ensures block[..] == Built(flashStart, eepromStart)
  {
    UpdateFAT12ClusterEntry(block, 0, 0xF00 + 0xF8);
    UpdateFAT12ClusterEntry(block, 1, 0xFFF);
    UpdateFAT12ClusterChain(block, flashStart, FLASH_CLUSTERS);
    UpdateFAT12ClusterChain(block, eepromStart, EEPROM_CLUSTERS);
  }

  /** The clusters of a file as the host follows them from `start`: `length` steps to the end mark. */
  ghost predicate Follows(t: Table, start: nat, length: nat)
    requires 1 <= length && start + length - 1 <= LAST_INDEX
  {
    && (forall j | start <= j < start + length - 1 :: Decode(t, j) == j + 1)
    && Decode(t, start + length - 1) == END_OF_CHAIN
  }

  lemma BuiltEntry(flashStart: nat, eepromStart: nat, j: nat)
    requires 2 <= flashStart && flashStart + FLASH_CLUSTERS - 1 <= LAST_INDEX && 2 <= eepromStart <= LAST_INDEX
    requires j <= 2 * LAST_INDEX
    ensures var reserved := Updated(Updated(Zeros(SECTOR_SIZE), 0, 0xFF8), 1, 0xFFF);
      var flash := Chained(reserved, flashStart, FLASH_CLUSTERS, FLASH_CLUSTERS);
      && Decode(reserved, j) == (if j == 0 then 0xFF8 else if j == 1 then 0xFFF else 0)
      && Decode(flash, j) == AfterChain(reserved, flashStart, FLASH_CLUSTERS, j)
      && Decode(Built(flashStart, eepromStart), j) == AfterChain(flash, eepromStart, EEPROM_CLUSTERS, j)
  {
    hide Updated, Chained;
    assert Decode(Zeros(SECTOR_SIZE), j) == 0;
    var one := Updated(Zeros(SECTOR_SIZE), 0, 0xFF8);
    DecodeUpdated(Zeros(SECTOR_SIZE), 0, 0xFF8, j);
    DecodeUpdated(one, 1, 0xFFF, j);
    var reserved := Updated(one, 1, 0xFFF);
    ChainDecodes(reserved, flashStart, FLASH_CLUSTERS, j);
    ChainDecodes(Chained(reserved, flashStart, FLASH_CLUSTERS, FLASH_CLUSTERS), eepromStart, EEPROM_CLUSTERS, j);
  }

  /** Both files can be followed exactly unless EEPROM.BIN lies in the even cluster right before
      FLASH.BIN: then its end mark spoils the first entry of FLASH.BIN. */
  lemma BothFilesFollow(flashStart: nat, eepromStart: nat)
    requires 2 <= flashStart && flashStart + FLASH_CLUSTERS - 1 <= LAST_INDEX && 2 <= eepromStart <= LAST_INDEX
    requires eepromStart < flashStart || eepromStart >= flashStart + FLASH_CLUSTERS
    ensures Follows(Built(flashStart, eepromStart), flashStart, FLASH_CLUSTERS)
        && Follows(Built(flashStart, eepromStart), eepromStart, EEPROM_CLUSTERS)
      <==> !(flashStart == eepromStart + 1 && eepromStart % 2 == 0)
  {
    hide Built, Decode, Updated, Chained;
    var t := Built(flashStart, eepromStart);
    forall j: nat | j <= 2 * LAST_INDEX
      ensures flashStart <= j < flashStart + FLASH_CLUSTERS || j == eepromStart ==>
        Decode(t, j) ==
          if j == eepromStart || j == flashStart + FLASH_CLUSTERS - 1 then END_OF_CHAIN
          else if j == eepromStart + 1 && j % 2 == 1 then (j + 1) / 16 * 16 + 15
          else j + 1
    {
      BuiltEntry(flashStart, eepromStart, j);
    }
    if flashStart == eepromStart + 1 && eepromStart % 2 == 0 {
      assert (flashStart + 1) % 16 != 15;
      assert Decode(t, flashStart) != flashStart + 1;
    }
  }

  /** As shipped: FLASH.BIN is clusters 2 to 13, EEPROM.BIN cluster 14; the entry behind reads 0x00F
      instead of free, all others are free. */
  lemma ShippedTable(j: nat)
    requires j <= 2 * LAST_INDEX
    ensures Decode(Built(2, 14), j) ==
      if j == 0 then 0xFF8
      else if j == 1 || j == 13 || j == 14 then 0xFFF
      else if 2 <= j <= 12 then j + 1
      else if j == 15 then 0x00F
      else 0
  {
    hide Built, Decode, Updated, Chained;
    BuiltEntry(2, 14, j);
  }
}

/** The command table of the internal commands ("!addr 5", "!autoid on", ...), a packed tree in one byte
    array, proved to hold exactly the 22 command strings. */
module CommandTable {
  import opened Gpib

  /** A command string and its place in the list of handlers. */
  datatype Keyword = Keyword(text: string, handler: nat)

  /** The commands in the order in which the tree lists them. */
  function Listed(i: nat): Keyword
    requires i < COUNT
  {
    match i
    case 0 => Keyword("autoid on", 0)
    case 1 => Keyword("autoid off", 1)
    case 2 => Keyword("autoid slow_", 2)
    case 3 => Keyword("autoid slower", 3)
    case 4 => Keyword("autoid slowest", 4)
    case 5 => Keyword("autoid?", 5)
    case 6 => Keyword("addr", 17)
    case 7 => Keyword("term cr", 6)
    case 8 => Keyword("term lf", 7)
    case 9 => Keyword("term eoi", 8)
    case 10 => Keyword("term store", 10)
    case 11 => Keyword("term?", 9)
    case 12 => Keyword("ver?", 11)
    case 13 => Keyword("0000", 12)
    case 14 => Keyword("0001", 13)
    case 15 => Keyword("0100", 14)
    case 16 => Keyword("0101", 15)
    case 17 => Keyword("0102", 16)
    case 18 => Keyword("reset", 18)
    case 19 => Keyword("string short", 19)
    case 20 => Keyword("string normal", 20)
    case _ => Keyword("string?", 21)
  }

  const COUNT := 22
  const ADDR := 17

  /** The byte array, sixteen bytes a row. A node is a count and that many pairs: a letter and the offset
      of the next node, or a letter with bit 7 set and the index of a handler. */
  function Row(i: nat): (row: seq<byte>)
    requires i < 14
    ensures |row| == if i == 13 then 11 else 16
  {
    match i
    case 0 => [0x06, 0x61, 0x0d, 0x74, 0x4c, 0x76, 0x7b, 0x30, 0x84, 0x72, 0x9b, 0x73, 0xa7, 0x02, 0x75, 0x12]
    case 1 => [0x64, 0x46, 0x01, 0x74, 0x15, 0x01, 0x6f, 0x18, 0x01, 0x69, 0x1b, 0x01, 0x64, 0x1e, 0x02, 0x20]
    case 2 => [0x23, 0xbf, 0x05, 0x02, 0x6f, 0x28, 0x73, 0x30, 0x02, 0xee, 0x00, 0x66, 0x2d, 0x01, 0xe6, 0x01]
    case 3 => [0x01, 0x6c, 0x33, 0x01, 0x6f, 0x36, 0x01, 0x77, 0x39, 0x02, 0xdf, 0x02, 0x65, 0x3e, 0x02, 0xf2]
    case 4 => [0x03, 0x73, 0x43, 0x01, 0xf4, 0x04, 0x01, 0x64, 0x49, 0x01, 0xf2, 0x11, 0x01, 0x65, 0x4f, 0x01]
    case 5 => [0x72, 0x52, 0x01, 0x6d, 0x55, 0x02, 0x20, 0x5a, 0xbf, 0x09, 0x04, 0x63, 0x63, 0x6c, 0x66, 0x65]
    case 6 => [0x69, 0x73, 0x6f, 0x01, 0xf2, 0x06, 0x01, 0xe6, 0x07, 0x01, 0x6f, 0x6c, 0x01, 0xe9, 0x08, 0x01]
    case 7 => [0x74, 0x72, 0x01, 0x6f, 0x75, 0x01, 0x72, 0x78, 0x01, 0xe5, 0x0a, 0x01, 0x65, 0x7e, 0x01, 0x72]
    case 8 => [0x81, 0x01, 0xbf, 0x0b, 0x02, 0x30, 0x89, 0x31, 0x91, 0x01, 0x30, 0x8c, 0x02, 0xb0, 0x0c, 0xb1]
    case 9 => [0x0d, 0x01, 0x30, 0x94, 0x03, 0xb0, 0x0e, 0xb1, 0x0f, 0xb2, 0x10, 0x01, 0x65, 0x9e, 0x01, 0x73]
    case 10 => [0xa1, 0x01, 0x65, 0xa4, 0x01, 0xf4, 0x12, 0x01, 0x74, 0xaa, 0x01, 0x72, 0xad, 0x01, 0x69, 0xb0]
    case 11 => [0x01, 0x6e, 0xb3, 0x01, 0x67, 0xb6, 0x02, 0x20, 0xbb, 0xbf, 0x15, 0x02, 0x73, 0xc0, 0x6e, 0xcc]
    case 12 => [0x01, 0x68, 0xc3, 0x01, 0x6f, 0xc6, 0x01, 0x72, 0xc9, 0x01, 0xf4, 0x13, 0x01, 0x6f, 0xcf, 0x01]
    case _ => [0x72, 0xd2, 0x01, 0x6d, 0xd5, 0x01, 0x61, 0xd8, 0x01, 0xec, 0x14]
  }

  const SIZE := 219

  function Cell(i: nat): byte
    requires i < SIZE
  {
    Row(i / 16)[i % 16]
  }

  /** Letter `d` of command `i`; 0 past its end. */
  function Letter(i: nat, d: nat): int
    requires i < COUNT
  {
    if d < |Listed(i).text| then Listed(i).text[d] as int else 0
  }

  /** Letter `d` of all the commands lo..hi-1 is `c`. */
  predicate AllHave(lo: nat, hi: nat, d: nat, c: int)
    requires lo <= hi <= COUNT
    decreases hi - lo
  {
    lo == hi || (Letter(lo, d) == c && AllHave(lo + 1, hi, d, c))
  }

  predicate NoneHas(lo: nat, hi: nat, d: nat, c: int)
    requires lo <= hi <= COUNT
    decreases hi - lo
  {
    lo == hi || (Letter(lo, d) != c && NoneHas(lo + 1, hi, d, c))
  }

  /** Node `off`, reached by the first `d` letters of the commands lo..hi-1, continues exactly those. */
  ghost predicate Covers(off: nat, d: nat, lo: nat, hi: nat)
    decreases SIZE - off, 2, 0
  {
    && off < SIZE
    && off + 1 + 2 * Cell(off) <= SIZE
    && lo < hi <= COUNT
    && EntriesCover(off, 0, d, lo, hi)
  }

  ghost predicate EntriesCover(off: nat, j: nat, d: nat, lo: nat, hi: nat)
    requires off < SIZE && j <= Cell(off) && off + 1 + 2 * Cell(off) <= SIZE
    requires hi <= COUNT
    decreases SIZE - off, 1, Cell(off) - j
  {
    if j == Cell(off) then lo == hi
    else exists mid: nat :: lo < mid <= hi && EntryCovers(off, j, d, lo, mid, hi) && EntriesCover(off, j + 1, d, mid, hi)
  }

  /** Entry `j` stands for the commands lo..mid-1: their next letter is its letter, which is not the next
      letter of mid..hi-1; its link leads on to the rest of them, or it names the one handler. */
  ghost predicate EntryCovers(off: nat, j: nat, d: nat, lo: nat, mid: nat, hi: nat)
    requires off < SIZE && j < Cell(off) && off + 1 + 2 * Cell(off) <= SIZE
    requires lo < mid <= hi <= COUNT
    decreases SIZE - off, 0, 0
  {
    var c := Cell(off + 1 + 2 * j);
    var link := Cell(off + 2 + 2 * j);
    && c % 128 != 0
    && AllHave(lo, mid, d, c % 128)
    && NoneHas(mid, hi, d, c % 128)
    && if c >= 128 then mid == lo + 1 && |Listed(lo).text| == d + 1 && Listed(lo).handler == link
       else link > off && Covers(link, d + 1, lo, mid)
  }

  /** A node with one entry. */
  lemma One(off: nat, d: nat, lo: nat, hi: nat)
    requires off + 3 <= SIZE && Cell(off) == 1 && lo < hi <= COUNT
    requires EntryCovers(off, 0, d, lo, hi, hi)
    ensures Covers(off, d, lo, hi)
  {
    hide Cell, Letter;
    assert EntriesCover(off, 1, d, hi, hi);
  }

  /** A node with one entry that leads on. */
  lemma On(off: nat, d: nat, lo: nat, hi: nat)
    requires off + 3 <= SIZE && Cell(off) == 1 && lo < hi <= COUNT
    requires 0 < Cell(off + 1) < 128 && AllHave(lo, hi, d, Cell(off + 1) as int)
    requires Cell(off + 2) > off && Covers(Cell(off + 2), d + 1, lo, hi)
    ensures Covers(off, d, lo, hi)
  {
    hide Cell, Letter;
    assert NoneHas(hi, hi, d, Cell(off + 1) as int);
    One(off, d, lo, hi);
  }

  /** A node with one entry that ends a command. */
  lemma End(off: nat, d: nat, i: nat)
    requires off + 3 <= SIZE && Cell(off) == 1 && i < COUNT
    requires Cell(off + 1) > 128 && Letter(i, d) == Cell(off + 1) - 128
    requires |Listed(i).text| == d + 1 && Listed(i).handler == Cell(off + 2)
    ensures Covers(off, d, i, i + 1)
  {
    hide Cell, Letter;
    assert NoneHas(i + 1, i + 1, d, Cell(off + 1) % 128);
    assert AllHave(i, i + 1, d, Cell(off + 1) % 128) by { assert AllHave(i + 1, i + 1, d, Cell(off + 1) % 128); }
    One(off, d, i, i + 1);
  }

  /** One more entry in front of those already accounted for. */
  lemma Enter(off: nat, j: nat, d: nat, lo: nat, mid: nat, hi: nat)
    requires off < SIZE && j < Cell(off) && off + 1 + 2 * Cell(off) <= SIZE && lo < mid <= hi <= COUNT
    requires EntryCovers(off, j, d, lo, mid, hi) && EntriesCover(off, j + 1, d, mid, hi)
    ensures EntriesCover(off, j, d, lo, hi)
  {
  }

  /** An entry that leads on. */
  lemma Leads(off: nat, j: nat, d: nat, lo: nat, mid: nat, hi: nat)
    requires off < SIZE && j < Cell(off) && off + 1 + 2 * Cell(off) <= SIZE && lo < mid <= hi <= COUNT
    requires 0 < Cell(off + 1 + 2 * j) < 128
    requires AllHave(lo, mid, d, Cell(off + 1 + 2 * j) as int) && NoneHas(mid, hi, d, Cell(off + 1 + 2 * j) as int)
    requires Cell(off + 2 + 2 * j) > off && Covers(Cell(off + 2 + 2 * j), d + 1, lo, mid)
    requires EntriesCover(off, j + 1, d, mid, hi)
    ensures EntriesCover(off, j, d, lo, hi)
  {
    hide Cell, Letter;
    Enter(off, j, d, lo, mid, hi);
  }

  /** An entry that ends a command. */
  lemma Names(off: nat, j: nat, d: nat, i: nat, hi: nat)
    requires off < SIZE && j < Cell(off) && off + 1 + 2 * Cell(off) <= SIZE && i < hi <= COUNT
    requires Cell(off + 1 + 2 * j) > 128 && Letter(i, d) == Cell(off + 1 + 2 * j) - 128
    requires NoneHas(i + 1, hi, d, Cell(off + 1 + 2 * j) - 128)
    requires |Listed(i).text| == d + 1 && Listed(i).handler == Cell(off + 2 + 2 * j)
    requires EntriesCover(off, j + 1, d, i + 1, hi)
    ensures EntriesCover(off, j, d, i, hi)
  {
    hide Cell, Letter;
    var c := Cell(off + 1 + 2 * j) % 128;
    assert AllHave(i, i + 1, d, c) by { assert AllHave(i + 1, i + 1, d, c); }
    Enter(off, j, d, i, i + 1, hi);
  }

  lemma NoMore(off: nat, d: nat, hi: nat)
    requires off < SIZE && off + 1 + 2 * Cell(off) <= SIZE && hi <= COUNT
    ensures EntriesCover(off, Cell(off), d, hi, hi)
  {
  }

  lemma Whole(off: nat, d: nat, lo: nat, hi: nat)
    requires off < SIZE && off + 1 + 2 * Cell(off) <= SIZE && lo < hi <= COUNT
    requires EntriesCover(off, 0, d, lo, hi)
    ensures Covers(off, d, lo, hi)
  {
  }

  // The table node by node, from the leaves to the root. Each lemma is named after the letters that lead
  // to its topmost node, or after the command if it covers the tail of a single one.

  lemma CoversAutoidO()
    ensures Covers(0x28, 8, 0, 2)
  {
    hide Covers, EntriesCover, EntryCovers;
    End(0x2d, 9, 1);
    NoMore(0x28, 8, 2);
    Leads(0x28, 1, 8, 1, 2, 2);
    Names(0x28, 0, 8, 0, 2);
    Whole(0x28, 8, 0, 2);
  }

  lemma CoversAutoidSlowe()
    ensures Covers(0x3e, 12, 3, 5)
  {
    hide Covers, EntriesCover, EntryCovers;
    End(0x43, 13, 4);
    NoMore(0x3e, 12, 5);
    Leads(0x3e, 1, 12, 4, 5, 5);
    Names(0x3e, 0, 12, 3, 5);
    Whole(0x3e, 12, 3, 5);
  }

  lemma CoversAutoidSlow()
    ensures Covers(0x39, 11, 2, 5)
  {
    hide Covers, EntriesCover, EntryCovers;
    CoversAutoidSlowe();
    NoMore(0x39, 11, 5);
    Leads(0x39, 1, 11, 3, 5, 5);
    Names(0x39, 0, 11, 2, 5);
    Whole(0x39, 11, 2, 5);
  }

  lemma CoversAutoidSl()
    ensures Covers(0x33, 9, 2, 5)
  {
    hide Covers, EntriesCover, EntryCovers;
    CoversAutoidSlow();
    On(0x36, 10, 2, 5);
    On(0x33, 9, 2, 5);
  }

  lemma CoversAutoidS()
    ensures Covers(0x30, 8, 2, 5)
  {
    hide Covers, EntriesCover, EntryCovers;
    CoversAutoidSl();
    On(0x30, 8, 2, 5);
  }

  lemma CoversAutoidSpace()
    ensures Covers(0x23, 7, 0, 5)
  {
    hide Covers, EntriesCover, EntryCovers;
    CoversAutoidO();
    CoversAutoidS();
    NoMore(0x23, 7, 5);
    Leads(0x23, 1, 7, 2, 5, 5);
    Leads(0x23, 0, 7, 0, 2, 5);
    Whole(0x23, 7, 0, 5);
  }

  lemma CoversAutoid()
    ensures Covers(0x1e, 6, 0, 6)
  {
    hide Covers, EntriesCover, EntryCovers;
    CoversAutoidSpace();
    NoMore(0x1e, 6, 6);
    Names(0x1e, 1, 6, 5, 6);
    Leads(0x1e, 0, 6, 0, 5, 6);
    Whole(0x1e, 6, 0, 6);
  }

  lemma CoversAutoi()
    ensures Covers(0x1b, 5, 0, 6)
  {
    hide Covers, EntriesCover, EntryCovers;
    CoversAutoid();
    On(0x1b, 5, 0, 6);
  }

  lemma CoversAuto()
    ensures Covers(0x18, 4, 0, 6)
  {
    hide Covers, EntriesCover, EntryCovers;
    CoversAutoi();
    On(0x18, 4, 0, 6);
  }

  lemma CoversAut()
    ensures Covers(0x15, 3, 0, 6)
  {
    hide Covers, EntriesCover, EntryCovers;
    CoversAuto();
    On(0x15, 3, 0, 6);
  }

  lemma CoversAu()
    ensures Covers(0x12, 2, 0, 6)
  {
    hide Covers, EntriesCover, EntryCovers;
    CoversAut();
    On(0x12, 2, 0, 6);
  }

  lemma CoversAddr()
    ensures Covers(0x46, 2, 6, 7)
  {
    hide Covers, EntriesCover, EntryCovers;
    End(0x49, 3, 6);
    On(0x46, 2, 6, 7);
  }

  lemma CoversA()
    ensures Covers(0x0d, 1, 0, 7)
  {
    hide Covers, EntriesCover, EntryCovers;
    CoversAu();
    CoversAddr();
    NoMore(0x0d, 1, 7);
    Leads(0x0d, 1, 1, 6, 7, 7);
    Leads(0x0d, 0, 1, 0, 6, 7);
    Whole(0x0d, 1, 0, 7);
  }

  lemma CoversTermEoi()
    ensures Covers(0x69, 6, 9, 10)
  {
    hide Covers, EntriesCover, EntryCovers;
    End(0x6c, 7, 9);
    On(0x69, 6, 9, 10);
  }

  lemma CoversTermStore()
    ensures Covers(0x6f, 6, 10, 11)
  {
    hide Covers, EntriesCover, EntryCovers;
    End(0x78, 9, 10);
    On(0x75, 8, 10, 11);
    On(0x72, 7, 10, 11);
    On(0x6f, 6, 10, 11);
  }

  lemma CoversTermSpace()
    ensures Covers(0x5a, 5, 7, 11)
  {
    hide Covers, EntriesCover, EntryCovers;
    End(0x63, 6, 7);
    End(0x66, 6, 8);
    CoversTermEoi();
    CoversTermStore();
    NoMore(0x5a, 5, 11);
    Leads(0x5a, 3, 5, 10, 11, 11);
    Leads(0x5a, 2, 5, 9, 10, 11);
    Leads(0x5a, 1, 5, 8, 9, 11);
    Leads(0x5a, 0, 5, 7, 8, 11);
    Whole(0x5a, 5, 7, 11);
  }

  lemma CoversTerm()
    ensures Covers(0x55, 4, 7, 12)
  {
    hide Covers, EntriesCover, EntryCovers;
    CoversTermSpace();
    NoMore(0x55, 4, 12);
    Names(0x55, 1, 4, 11, 12);
    Leads(0x55, 0, 4, 7, 11, 12);
    Whole(0x55, 4, 7, 12);
  }

  lemma CoversTer()
    ensures Covers(0x52, 3, 7, 12)
  {
    hide Covers, EntriesCover, EntryCovers;
    CoversTerm();
    On(0x52, 3, 7, 12);
  }

  lemma CoversTe()
    ensures Covers(0x4f, 2, 7, 12)
  {
    hide Covers, EntriesCover, EntryCovers;
    CoversTer();
    On(0x4f, 2, 7, 12);
  }

  lemma CoversT()
    ensures Covers(0x4c, 1, 7, 12)
  {
    hide Covers, EntriesCover, EntryCovers;
    CoversTe();
    On(0x4c, 1, 7, 12);
  }

  lemma CoversVerQuery()
    ensures Covers(0x7b, 1, 12, 13)
  {
    hide Covers, EntriesCover, EntryCovers;
    End(0x81, 3, 12);
    On(0x7e, 2, 12, 13);
    On(0x7b, 1, 12, 13);
  }

  lemma Covers00()
    ensures Covers(0x89, 2, 13, 15)
  {
    hide Covers, EntriesCover, EntryCovers;
    NoMore(0x8c, 3, 15);
    Names(0x8c, 1, 3, 14, 15);
    Names(0x8c, 0, 3, 13, 15);
    Whole(0x8c, 3, 13, 15);
    On(0x89, 2, 13, 15);
  }

  lemma Covers01()
    ensures Covers(0x91, 2, 15, 18)
  {
    hide Covers, EntriesCover, EntryCovers;
    NoMore(0x94, 3, 18);
    Names(0x94, 2, 3, 17, 18);
    Names(0x94, 1, 3, 16, 18);
    Names(0x94, 0, 3, 15, 18);
    Whole(0x94, 3, 15, 18);
    On(0x91, 2, 15, 18);
  }

  lemma Covers0()
    ensures Covers(0x84, 1, 13, 18)
  {
    hide Covers, EntriesCover, EntryCovers;
    Covers00();
    Covers01();
    NoMore(0x84, 1, 18);
    Leads(0x84, 1, 1, 15, 18, 18);
    Leads(0x84, 0, 1, 13, 15, 18);
    Whole(0x84, 1, 13, 18);
  }

  lemma CoversReset()
    ensures Covers(0x9b, 1, 18, 19)
  {
    hide Covers, EntriesCover, EntryCovers;
    End(0xa4, 4, 18);
    On(0xa1, 3, 18, 19);
    On(0x9e, 2, 18, 19);
    On(0x9b, 1, 18, 19);
  }

  lemma CoversStringShort()
    ensures Covers(0xc0, 8, 19, 20)
  {
    hide Covers, EntriesCover, EntryCovers;
    End(0xc9, 11, 19);
    On(0xc6, 10, 19, 20);
    On(0xc3, 9, 19, 20);
    On(0xc0, 8, 19, 20);
  }

  lemma CoversStringNormal()
    ensures Covers(0xcc, 8, 20, 21)
  {
    hide Covers, EntriesCover, EntryCovers;
    End(0xd8, 12, 20);
    On(0xd5, 11, 20, 21);
    On(0xd2, 10, 20, 21);
    On(0xcf, 9, 20, 21);
    On(0xcc, 8, 20, 21);
  }

  lemma CoversStringSpace()
    ensures Covers(0xbb, 7, 19, 21)
  {
    hide Covers, EntriesCover, EntryCovers;
    CoversStringShort();
    CoversStringNormal();
    NoMore(0xbb, 7, 21);
    Leads(0xbb, 1, 7, 20, 21, 21);
    Leads(0xbb, 0, 7, 19, 20, 21);
    Whole(0xbb, 7, 19, 21);
  }

  lemma CoversString()
    ensures Covers(0xb6, 6, 19, 22)
  {
    hide Covers, EntriesCover, EntryCovers;
    CoversStringSpace();
    NoMore(0xb6, 6, 22);
    Names(0xb6, 1, 6, 21, 22);
    Leads(0xb6, 0, 6, 19, 21, 22);
    Whole(0xb6, 6, 19, 22);
  }

  lemma CoversStri()
    ensures Covers(0xb0, 4, 19, 22)
  {
    hide Covers, EntriesCover, EntryCovers;
    CoversString();
    On(0xb3, 5, 19, 22);
    On(0xb0, 4, 19, 22);
  }

  lemma CoversSt()
    ensures Covers(0xaa, 2, 19, 22)
  {
    hide Covers, EntriesCover, EntryCovers;
    CoversStri();
    On(0xad, 3, 19, 22);
    On(0xaa, 2, 19, 22);
  }

  lemma CoversS()
    ensures Covers(0xa7, 1, 19, 22)
  {
    hide Covers, EntriesCover, EntryCovers;
    CoversSt();
    On(0xa7, 1, 19, 22);
  }

  /** The first letters, in the order of the commands. */
  lemma FirstLetters()
    ensures forall i | 0 <= i < COUNT ::
      Letter(i, 0) == (
        if i < 7 then 97 else if i < 12 then 116 else if i == 12 then 118 else if i < 18 then 48
        else if i == 18 then 114 else 115)
  {
  }

  lemma LastBranches()
    ensures EntriesCover(0x00, 3, 0, 13, 22)
  {
    hide Covers, EntriesCover, EntryCovers, Letter;
    FirstLetters();
    Covers0();
    CoversReset();
    CoversS();
    NoMore(0x00, 0, 22);
    Leads(0x00, 5, 0, 19, 22, 22);
    Leads(0x00, 4, 0, 18, 19, 22);
    Leads(0x00, 3, 0, 13, 18, 22);
  }

  lemma MiddleBranches()
    ensures EntriesCover(0x00, 1, 0, 7, 22)
  {
    hide Covers, EntriesCover, EntryCovers, Letter;
    FirstLetters();
    CoversT();
    CoversVerQuery();
    LastBranches();
    Leads(0x00, 2, 0, 12, 13, 22);
    Leads(0x00, 1, 0, 7, 12, 22);
  }

  /** Seven of the commands begin with an a. */
  lemma BeginWithA()
    ensures AllHave(0, 7, 0, 97) && NoneHas(7, 22, 0, 97)
  {
    FirstLetters();
    hide Letter;
  }

  /** The whole table: from the root it continues exactly the 22 commands. */
  lemma TableCoversCommands()
    ensures Covers(0x00, 0, 0, 22)
  {
    hide Covers, EntriesCover, EntryCovers, AllHave, NoneHas;
    BeginWithA();
    CoversA();
    MiddleBranches();
    Leads(0x00, 0, 0, 0, 7, 22);
    Whole(0x00, 0, 0, 22);
  }
}

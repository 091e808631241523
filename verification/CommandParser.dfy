/** The command parser: an interpreter of the packed command table, proved to select a command exactly
    when the letters read since it last returned to the root spell it. */
module CommandParser {
  import Gpib
  import opened CommandTable
  import opened AddressNumber

  type byte = Gpib.byte

  function Lower(c: byte): byte {
    if 65 <= c <= 90 then c + 32 else c
  }

  function Text(u: seq<byte>): string {
    seq(|u|, i requires 0 <= i < |u| => Lower(u[i]) as char)
  }

  /** The handler of the command spelled `w`. */
  function Find(w: string, i: nat): Gpib.Option<nat>
    requires i <= COUNT
    decreases COUNT - i
  {
    if i == COUNT then Gpib.None
    else if Listed(i).text == w then Gpib.Some(Listed(i).handler)
    else Find(w, i + 1)
  }

  ghost predicate Begins(w: string) {
    exists i | 0 <= i < COUNT :: w < Listed(i).text
  }

  /** Reference parser on the list of commands: the letters since the last return to the root, or the
      characters after "addr"; and the handlers called. */
  datatype Reading =
    | Letters(word: string, ran: seq<nat>)
    | Numbers(chars: seq<byte>, ran: seq<nat>)

  ghost function Next(r: Reading, c: byte): Reading {
    match r
    case Numbers(u, ran) => Numbers(u + [c], ran)
    case Letters(w, ran) =>
      var v := w + [Lower(c) as char];
      match Find(v, 0)
      case Some(k) => if k == ADDR then Numbers([], ran) else Letters("", ran + [k])
      case None => Letters(if Begins(v) then v else "", ran)
  }

  ghost function Read(text: seq<byte>): Reading {
    if text == [] then Letters("", []) else Next(Read(text[..|text| - 1]), text[|text| - 1])
  }

  /** The commands that properly extend `w` are lo..hi-1. */
  ghost predicate Within(w: string, lo: nat, hi: nat) {
    lo <= hi <= COUNT && forall i | 0 <= i < COUNT :: w < Listed(i).text <==> lo <= i < hi
  }

  lemma {:induction false} HaveLetter(lo: nat, hi: nat, d: nat, c: int)
    requires lo <= hi <= COUNT
    ensures AllHave(lo, hi, d, c) ==> forall i | lo <= i < hi :: Letter(i, d) == c
    ensures NoneHas(lo, hi, d, c) ==> forall i | lo <= i < hi :: Letter(i, d) != c
    decreases hi - lo
  {
    hide Letter;
    if lo < hi { HaveLetter(lo + 1, hi, d, c); }
  }

  /** The commands that a node continues have a letter there. */
  lemma {:induction false} Continued(off: nat, j: nat, d: nat, lo: nat, hi: nat)
    requires off < SIZE && j <= Cell(off) && off + 1 + 2 * Cell(off) <= SIZE && hi <= COUNT
    requires EntriesCover(off, j, d, lo, hi)
    ensures forall i | lo <= i < hi :: Letter(i, d) != 0
    decreases Cell(off) - j
  {
    hide Cell, Letter;
    if j < Cell(off) {
      var mid := Split(off, j, d, lo, hi);
      Continued(off, j + 1, d, mid, hi);
    }
  }

  /** The commands of entry `j` and those of the later entries. */
  lemma Split(off: nat, j: nat, d: nat, lo: nat, hi: nat) returns (mid: nat)
    requires off < SIZE && j < Cell(off) && off + 1 + 2 * Cell(off) <= SIZE && hi <= COUNT
    requires EntriesCover(off, j, d, lo, hi)
    ensures lo < mid <= hi && EntryCovers(off, j, d, lo, mid, hi) && EntriesCover(off, j + 1, d, mid, hi)
    ensures Cell(off + 1 + 2 * j) % 128 != 0
    ensures forall i | lo <= i < mid :: Letter(i, d) == Cell(off + 1 + 2 * j) % 128
    ensures forall i | mid <= i < hi :: Letter(i, d) != Cell(off + 1 + 2 * j) % 128
  {
    hide Cell, Letter;
    mid :| lo < mid <= hi && EntryCovers(off, j, d, lo, mid, hi) && EntriesCover(off, j + 1, d, mid, hi);
    HaveLetter(lo, mid, d, Cell(off + 1 + 2 * j) % 128);
    HaveLetter(mid, hi, d, Cell(off + 1 + 2 * j) % 128);
  }

  lemma {:induction false} FindNone(w: string, i: nat)
    requires i <= COUNT && forall k | i <= k < COUNT :: Listed(k).text != w
    ensures Find(w, i) == Gpib.None
    decreases COUNT - i
  {
    if i < COUNT { FindNone(w, i + 1); }
  }

  lemma {:induction false} FindOnly(w: string, i: nat, k: nat)
    requires i <= k < COUNT && Listed(k).text == w && forall l | i <= l < k :: Listed(l).text != w
    ensures Find(w, i) == Gpib.Some(Listed(k).handler)
    decreases COUNT - i
  {
    if i < k { FindOnly(w, i + 1, k); }
  }

  /** A command that goes on from `w` with `c` is one of lo..hi-1 and has that letter next. */
  lemma GoesOn(w: string, c: byte, lo: nat, hi: nat, i: nat)
    requires Within(w, lo, hi) && i < COUNT
    ensures w + [c as char] <= Listed(i).text ==> lo <= i < hi && Letter(i, |w|) == c
    ensures lo <= i < hi && Letter(i, |w|) == c && c != 0 ==> w + [c as char] <= Listed(i).text
  {
    var v := w + [c as char];
    if v <= Listed(i).text { assert w < Listed(i).text; assert Listed(i).text[|w|] == v[|w|]; }
    if lo <= i < hi && Letter(i, |w|) == c && c != 0 {
      assert w < Listed(i).text;
      assert Listed(i).text[..|v|] == v;
    }
  }

  /** No command goes on with `c`. */
  lemma Missed(w: string, c: byte, lo: nat, hi: nat)
    requires Within(w, lo, hi) && forall i | lo <= i < hi :: Letter(i, |w|) != c
    ensures Find(w + [c as char], 0) == Gpib.None && !Begins(w + [c as char])
  {
    hide Find, Letter, Within;
    var v := w + [c as char];
    forall i | 0 <= i < COUNT ensures !(v <= Listed(i).text) { GoesOn(w, c, lo, hi, i); }
    FindNone(v, 0);
  }

  /** The commands from..mid-1 go on with `c`, and all of them further. */
  lemma Followed(w: string, c: byte, lo: nat, hi: nat, from: nat, mid: nat, link: nat)
    requires Within(w, lo, hi) && lo <= from < mid <= hi && c != 0
    requires forall i | lo <= i < hi :: Letter(i, |w|) == c <==> from <= i < mid
    requires Covers(link, |w| + 1, from, mid)
    ensures Find(w + [c as char], 0) == Gpib.None && Begins(w + [c as char])
    ensures Within(w + [c as char], from, mid)
  {
    hide Covers, Cell, Find, Letter;
    var v := w + [c as char];
    LongEnough(link, |v|, from, mid);
    forall i | 0 <= i < COUNT
      ensures v < Listed(i).text <==> from <= i < mid
      ensures v != Listed(i).text
    {
      GoesOn(w, c, lo, hi, i);
    }
    assert v < Listed(from).text;
    FindNone(v, 0);
  }

  lemma LongEnough(off: nat, d: nat, lo: nat, hi: nat)
    requires Covers(off, d, lo, hi)
    ensures forall i | lo <= i < hi :: |Listed(i).text| > d
  {
    hide Cell;
    Continued(off, 0, d, lo, hi);
    forall i | lo <= i < hi ensures |Listed(i).text| > d { assert Letter(i, d) != 0; }
  }

  /** Command `k` ends with `c`. */
  lemma Spelled(w: string, c: byte, lo: nat, hi: nat, k: nat)
    requires Within(w, lo, hi) && lo <= k < hi && c != 0
    requires forall i | lo <= i < hi :: Letter(i, |w|) == c <==> i == k
    requires |Listed(k).text| == |w| + 1
    ensures Find(w + [c as char], 0) == Gpib.Some(Listed(k).handler)
  {
    hide Letter;
    var v := w + [c as char];
    GoesOn(w, c, lo, hi, k);
    assert Listed(k).text == v;
    forall i | 0 <= i < k ensures Listed(i).text != v { GoesOn(w, c, lo, hi, i); }
    FindOnly(v, 0, k);
  }

  /** The scan of node `off` before entry `cnt`: the commands from..hi-1 belong to the entries still to
      come; `ran` says that command `k` was spelled and called. */
  ghost predicate Scanning(off: nat, cnt: nat, w: string, c: byte, lo: nat, hi: nat, from: nat, ran: bool, k: nat) {
    && off < SIZE && off + 1 + 2 * Cell(off) <= SIZE && cnt <= Cell(off)
    && Within(w, lo, hi) && lo <= from <= hi <= COUNT
    && EntriesCover(off, cnt, |w|, from, hi)
    && if ran then Find(w + [c as char], 0) == Gpib.Some(k) && k != ADDR && Lacks(from, hi, |w|, c)
       else Lacks(lo, from, |w|, c)
  }

  ghost predicate Lacks(lo: nat, hi: nat, d: nat, c: byte)
    requires hi <= COUNT
  {
    forall i | lo <= i < hi :: Letter(i, d) != c
  }

  lemma ScanBegins(off: nat, w: string, c: byte, lo: nat, hi: nat)
    requires Covers(off, |w|, lo, hi) && Within(w, lo, hi)
    ensures Scanning(off, 0, w, c, lo, hi, lo, false, 0)
  {
    hide Cell, Letter;
  }

  /** What the next entry can be. */
  lemma ScanEntry(off: nat, cnt: nat, w: string, c: byte, lo: nat, hi: nat, from: nat, ran: bool, k: nat)
      returns (mid: nat)
    requires Scanning(off, cnt, w, c, lo, hi, from, ran, k) && cnt < Cell(off)
    ensures var entry := Cell(off + 1 + 2 * cnt); var link := Cell(off + 2 + 2 * cnt); var v := w + [c as char];
      && (entry % 128 != c ==> Scanning(off, cnt + 1, w, c, lo, hi, mid, ran, k))
      && (entry % 128 == c ==> !ran)
      && (entry % 128 == c && entry >= 128 ==> Find(v, 0) == Gpib.Some(link))
      && (entry % 128 == c && entry >= 128 && link != ADDR ==> Scanning(off, cnt + 1, w, c, lo, hi, mid, true, link))
      && (entry == c < 128 ==> Find(v, 0).None? && Begins(v) && Covers(link, |v|, from, mid) && Within(v, from, mid))
  {
    hide Cell, Letter, Find, Begins, Covers, Within, Scanning, EntriesCover, EntryCovers;
    ScanBounds(off, cnt, w, c, lo, hi, from, ran, k);
    mid := Split(off, cnt, |w|, from, hi);
    var entry, link := Cell(off + 1 + 2 * cnt), Cell(off + 2 + 2 * cnt);
    if entry % 128 != c {
      ScanPast(off, cnt, w, c, lo, hi, from, mid, ran, k);
    } else {
      ScanNotRun(off, cnt, w, c, lo, hi, from, mid, ran, k);
      if entry >= 128 {
        ScanRun(off, cnt, w, c, lo, hi, from, mid, k);
      } else {
        ScanFollow(off, cnt, w, c, lo, hi, from, mid, k);
      }
    }
  }

  /** The commands of entry `cnt` are from..mid-1, those of the later entries mid..hi-1. */
  ghost predicate Splits(off: nat, cnt: nat, d: nat, from: nat, mid: nat, hi: nat) {
    && off < SIZE && cnt < Cell(off) && off + 1 + 2 * Cell(off) <= SIZE
    && from < mid <= hi <= COUNT
    && EntryCovers(off, cnt, d, from, mid, hi) && EntriesCover(off, cnt + 1, d, mid, hi)
    && var c := Cell(off + 1 + 2 * cnt) % 128;
       && c != 0
       && (forall i | from <= i < mid :: Letter(i, d) == c)
       && (forall i | mid <= i < hi :: Letter(i, d) != c)
  }

  lemma ScanBounds(off: nat, cnt: nat, w: string, c: byte, lo: nat, hi: nat, from: nat, ran: bool, k: nat)
    requires Scanning(off, cnt, w, c, lo, hi, from, ran, k)
    ensures off < SIZE && off + 1 + 2 * Cell(off) <= SIZE && cnt <= Cell(off)
    ensures lo <= from <= hi <= COUNT && EntriesCover(off, cnt, |w|, from, hi)
  {
    hide Cell, Find, Within, EntriesCover;
  }

  lemma ScanPast(off: nat, cnt: nat, w: string, c: byte, lo: nat, hi: nat, from: nat, mid: nat, ran: bool, k: nat)
    requires Scanning(off, cnt, w, c, lo, hi, from, ran, k) && Splits(off, cnt, |w|, from, mid, hi)
    requires Cell(off + 1 + 2 * cnt) % 128 != c
    ensures Scanning(off, cnt + 1, w, c, lo, hi, mid, ran, k)
  {
    hide Cell, Letter, Find, Within, EntriesCover, EntryCovers;
  }

  lemma ScanNotRun(off: nat, cnt: nat, w: string, c: byte, lo: nat, hi: nat, from: nat, mid: nat, ran: bool, k: nat)
    requires Scanning(off, cnt, w, c, lo, hi, from, ran, k) && Splits(off, cnt, |w|, from, mid, hi)
    requires Cell(off + 1 + 2 * cnt) % 128 == c
    ensures !ran
  {
    hide Cell, Letter, Find, Within, EntriesCover, EntryCovers;
    assert Letter(from, |w|) == c;
  }

  lemma ScanRun(off: nat, cnt: nat, w: string, c: byte, lo: nat, hi: nat, from: nat, mid: nat, k: nat)
    requires Scanning(off, cnt, w, c, lo, hi, from, false, k) && Splits(off, cnt, |w|, from, mid, hi)
    requires Cell(off + 1 + 2 * cnt) % 128 == c && Cell(off + 1 + 2 * cnt) >= 128
    ensures var link := Cell(off + 2 + 2 * cnt);
      && Find(w + [c as char], 0) == Gpib.Some(link)
      && (link != ADDR ==> Scanning(off, cnt + 1, w, c, lo, hi, mid, true, link))
  {
    hide Cell, Letter, Find, Within, EntriesCover;
    Spelled(w, c, lo, hi, from);
  }

  lemma ScanFollow(off: nat, cnt: nat, w: string, c: byte, lo: nat, hi: nat, from: nat, mid: nat, k: nat)
    requires Scanning(off, cnt, w, c, lo, hi, from, false, k) && Splits(off, cnt, |w|, from, mid, hi)
    requires Cell(off + 1 + 2 * cnt) == c < 128
    ensures var link := Cell(off + 2 + 2 * cnt); var v := w + [c as char];
      Find(v, 0).None? && Begins(v) && Covers(link, |v|, from, mid) && Within(v, from, mid)
  {
    hide Cell, Letter, Find, Begins, Covers, Within, EntriesCover;
    Followed(w, c, lo, hi, from, mid, Cell(off + 2 + 2 * cnt));
  }

  lemma ScanEnds(off: nat, cnt: nat, w: string, c: byte, lo: nat, hi: nat, from: nat, ran: bool, k: nat)
    requires Scanning(off, cnt, w, c, lo, hi, from, ran, k) && cnt == Cell(off)
    ensures ran ==> Find(w + [c as char], 0) == Gpib.Some(k) && k != ADDR
    ensures !ran ==> Find(w + [c as char], 0).None? && !Begins(w + [c as char])
  {
    hide Cell, Letter, Find, Begins, Within;
    if !ran { Missed(w, c, lo, hi); }
  }

  lemma Node(off: nat, d: nat, lo: nat, hi: nat)
    requires Covers(off, d, lo, hi)
    ensures off < SIZE && off + 1 + 2 * Cell(off) <= SIZE && EntriesCover(off, 0, d, lo, hi)
  {
  }

  /** One more character; upper and lower case letters are the same to the decoder. */
  lemma FoldOne(u: seq<byte>, c: byte, memory: nat -> byte)
    ensures Fold(START, u + [c], memory) == Step(Fold(START, u, memory), Lower(c), memory)
    ensures Fold(START, [], memory) == START
  {
    assert (u + [c])[..|u|] == u;
  }

  lemma AllWithin()
    ensures Covers(0, 0, 0, COUNT) && Within("", 0, COUNT)
  {
    hide Cell, Letter;
    TableCoversCommands();
    LongEnough(0, 0, 0, COUNT);
  }

  function Chosen(numberMode: bool, n: Num, gpibAddr: byte): byte {
    if numberMode && Selected(n).Some? then Selected(n).value else gpibAddr
  }

  /** Line ends never reach the parser. */
  function Strip(msg: seq<byte>): seq<byte> {
    if msg == [] then []
    else (if msg[0] == 13 || msg[0] == 10 then [] else [msg[0]]) + Strip(msg[1..])
  }

  /** Nothing is read after a command has run. */
  ghost function UpToCommand(t: seq<byte>, n: nat): seq<byte>
    requires n <= |t|
    decreases |t| - n
  {
    if n == |t| then t
    else if |Read(t[..n + 1]).ran| > |Read(t[..n]).ran| then t[..n + 1]
    else UpToCommand(t, n + 1)
  }

  /** The characters of a message that reach the parser, and the underscore put behind them. */
  ghost function Offered(msg: seq<byte>): seq<byte> { UpToCommand(Strip(msg), 0) + [95] }

  ghost function Handled(msg: seq<byte>): Reading { Read(Offered(msg)) }

  ghost function NewAddress(r: Reading, memory: nat -> byte, gpibAddr: byte): byte {
    match r
    case Numbers(u, _) => Chosen(true, Fold(START, u, memory), gpibAddr)
    case Letters(_, _) => gpibAddr
  }

  /** An entry for more than one command leads on. */
  lemma LeadsOn(off: nat, cnt: nat, d: nat, lo: nat, mid: nat, hi: nat)
    requires off < SIZE && cnt < Cell(off) && off + 1 + 2 * Cell(off) <= SIZE && lo + 1 < mid <= hi <= COUNT
    requires EntryCovers(off, cnt, d, lo, mid, hi)
    ensures var link := Cell(off + 2 + 2 * cnt);
      off < link < SIZE && link + 1 + 2 * Cell(link) <= SIZE && EntriesCover(link, 0, d + 1, lo, mid)
  {
    hide Cell, Letter;
    Node(Cell(off + 2 + 2 * cnt), d + 1, lo, mid);
  }

  lemma SomeLeft(off: nat, cnt: nat, d: nat, lo: nat, hi: nat)
    requires off < SIZE && cnt <= Cell(off) && off + 1 + 2 * Cell(off) <= SIZE && hi <= COUNT
    requires EntriesCover(off, cnt, d, lo, hi) && lo < hi
    ensures cnt < Cell(off)
  {
  }

  lemma Differ(i: nat, j: nat, d: nat)
    requires i < COUNT && j < COUNT && Letter(i, d) != 0 && Letter(j, d) != 0 && Letter(i, d) != Letter(j, d)
    ensures d < |Listed(i).text| && d < |Listed(j).text| && Listed(i).text[d] != Listed(j).text[d]
  {
  }

  /** Two commands below one node differ in a letter that both of them have. */
  lemma {:induction false} Apart(off: nat, cnt: nat, d: nat, lo: nat, hi: nat, i: nat, j: nat) returns (e: nat)
    requires off < SIZE && cnt <= Cell(off) && off + 1 + 2 * Cell(off) <= SIZE && hi <= COUNT
    requires EntriesCover(off, cnt, d, lo, hi) && lo <= i < j < hi
    ensures e < |Listed(i).text| && e < |Listed(j).text| && Listed(i).text[e] != Listed(j).text[e]
    decreases SIZE - off, Cell(off) - cnt
  {
    hide Cell, Letter, EntriesCover, EntryCovers;
    SomeLeft(off, cnt, d, lo, hi);
    var mid := Split(off, cnt, d, lo, hi);
    if mid <= i {
      e := Apart(off, cnt + 1, d, mid, hi, i, j);
    } else if j < mid {
      LeadsOn(off, cnt, d, lo, mid, hi);
      e := Apart(Cell(off + 2 + 2 * cnt), 0, d + 1, lo, mid, i, j);
    } else {
      Continued(off, cnt, d, lo, hi);
      Differ(i, j, d);
      e := d;
    }
  }

  /** No command is the beginning of another one. */
  lemma PrefixFree(i: nat, j: nat)
    requires i < COUNT && j < COUNT && i != j
    ensures !(Listed(i).text <= Listed(j).text)
  {
    hide Cell, Letter;
    TableCoversCommands();
    Node(0, 0, 0, COUNT);
    var e := Apart(0, 0, 0, 0, COUNT, if i < j then i else j, if i < j then j else i);
  }

  // ---- The table as a dictionary ---------------------------------------------------------------

  /** The table's own lookup: from entry `j` of node `off` with the letters of `w` from `d` on. */
  function Lookup(off: nat, j: nat, w: seq<byte>, d: nat): Gpib.Option<nat>
    requires d < |w|
    decreases |w| - d, SIZE - j
  {
    if off >= SIZE || j >= Cell(off) || off + 2 + 2 * j >= SIZE then Gpib.None
    else
      var entry, link := Cell(off + 1 + 2 * j), Cell(off + 2 + 2 * j);
      if entry % 128 != w[d] then Lookup(off, j + 1, w, d)
      else if d == |w| - 1 then if entry >= 128 then Gpib.Some(link) else Gpib.None
      else if entry >= 128 then Gpib.None
      else Lookup(link, 0, w, d + 1)
  }

  function Raw(w: seq<byte>): string {
    seq(|w|, i requires 0 <= i < |w| => w[i] as char)
  }

  /** The table and the list of commands are the same dictionary: for every string, command or not, they
      name the same handler or none. */
  lemma TableIsTheList(w: seq<byte>)
    requires w != []
    ensures Lookup(0, 0, w, 0) == Find(Raw(w), 0)
  {
    hide Covers, Within, Find;
    AllWithin();
    assert Raw(w[..0]) == "";
    ScanBegins(0, "", w[0], 0, COUNT);
    LookupFinds(0, 0, w, 0, 0, COUNT, 0);
  }

  lemma {:induction false} LookupFinds(off: nat, j: nat, w: seq<byte>, d: nat, lo: nat, hi: nat, from: nat)
    requires d < |w| && Scanning(off, j, Raw(w[..d]), w[d], lo, hi, from, false, 0)
    ensures Lookup(off, j, w, d) == Find(Raw(w), 0)
    decreases |w| - d, SIZE - j
  {
    hide Cell, Find, Begins, Covers, Within, Scanning, EntriesCover, Listed, Raw;
    var v, c := Raw(w[..d]), w[d];
    RawOne(w, d);
    ScanBounds(off, j, v, c, lo, hi, from, false, 0);
    if j == Cell(off) {
      ScanEnds(off, j, v, c, lo, hi, from, false, 0);
      NoneFurther(w, d);
    } else {
      var mid := ScanEntry(off, j, v, c, lo, hi, from, false, 0);
      var entry, link := Cell(off + 1 + 2 * j), Cell(off + 2 + 2 * j);
      if entry % 128 != c {
        LookupFinds(off, j + 1, w, d, lo, hi, mid);
      } else if d < |w| - 1 {
        if entry >= 128 {
          NoneBehind(w, d, link);
        } else {
          ScanBegins(link, Raw(w[..d + 1]), w[d + 1], from, mid);
          LookupFinds(link, 0, w, d + 1, from, mid, from);
        }
      }
    }
  }

  lemma RawOne(w: seq<byte>, d: nat)
    requires d < |w|
    ensures Raw(w[..d + 1]) == Raw(w[..d]) + [w[d] as char] && Raw(w[..d + 1]) <= Raw(w) && w[..|w|] == w
  {
  }

  lemma {:induction false} Found(w: string, i: nat)
    requires i <= COUNT && Find(w, i).Some?
    ensures exists k :: i <= k < COUNT && Listed(k).text == w && Find(w, i) == Gpib.Some(Listed(k).handler)
    decreases COUNT - i
  {
    if i < COUNT && Listed(i).text != w { Found(w, i + 1); }
  }

  /** No command begins with the letters up to `d`. */
  lemma NoneFurther(w: seq<byte>, d: nat)
    requires d < |w| && Find(Raw(w[..d + 1]), 0).None? && !Begins(Raw(w[..d + 1]))
    ensures Find(Raw(w), 0).None?
  {
    hide Find;
    RawOne(w, d);
    if Find(Raw(w), 0).Some? { Found(Raw(w), 0); }
  }

  /** A command ended with the letters up to `d`, so no longer one begins with them. */
  lemma NoneBehind(w: seq<byte>, d: nat, handler: nat)
    requires d < |w| - 1 && Find(Raw(w[..d + 1]), 0) == Gpib.Some(handler)
    ensures Find(Raw(w), 0).None?
  {
    hide Find;
    RawOne(w, d);
    Found(Raw(w[..d + 1]), 0);
    if Find(Raw(w), 0).Some? {
      Found(Raw(w), 0);
      var k :| 0 <= k < COUNT && Listed(k).text == Raw(w[..d + 1]);
      var l :| 0 <= l < COUNT && Listed(l).text == Raw(w);
      assert k != l;
      PrefixFree(k, l);
    }
  }

  lemma TextOne(t: seq<byte>)
    requires t != []
    ensures Text(t) == Text(t[..|t| - 1]) + [Lower(t[|t| - 1]) as char]
  {
  }

  /** The beginning of a command is remembered. */
  lemma {:induction false} ReadBeginning(k: nat, t: seq<byte>)
    requires k < COUNT && Text(t) < Listed(k).text
    ensures Read(t) == Letters(Text(t), [])
  {
    if t != [] {
      TextOne(t);
      ReadBeginning(k, t[..|t| - 1]);
      forall i | 0 <= i < COUNT ensures Listed(i).text != Text(t) {
        if i != k { PrefixFree(i, k); }
      }
      FindNone(Text(t), 0);
    }
  }

  /** A command calls its handler, "addr" starts the numbers. */
  lemma ReadCommand(k: nat, t: seq<byte>)
    requires k < COUNT && Text(t) == Listed(k).text && t != []
    ensures Read(t) == if Listed(k).handler == ADDR then Numbers([], []) else Letters("", [Listed(k).handler])
  {
    TextOne(t);
    ReadBeginning(k, t[..|t| - 1]);
    forall i | 0 <= i < k ensures Listed(i).text != Text(t) { PrefixFree(i, k); }
    FindOnly(Text(t), 0, k);
  }

  /** Behind "addr" everything is kept for the decoder. */
  lemma {:induction false} ReadNumbers(a: seq<byte>, u: seq<byte>)
    requires Text(a) == "addr"
    ensures Read(a + u) == Numbers(u, [])
  {
    if u == [] {
      assert a + u == a;
      ReadCommand(6, a);
    } else {
      assert (a + u)[..|a + u| - 1] == a + u[..|u| - 1];
      ReadNumbers(a, u[..|u| - 1]);
    }
  }

  /** As long as no command has run, all of a message but the line ends is read. */
  lemma {:induction false} WholeMessage(t: seq<byte>, n: nat)
    requires n <= |t| && forall m | n <= m < |t| :: Read(t[..m]).ran == []
    ensures UpToCommand(t, n) == t
    decreases |t| - n
  {
    hide Read;
    if n < |t| {
      WholeMessage(t, n + 1);
      if n + 1 == |t| { assert t[..n + 1] == t; }
    }
  }

  /** No command begins with the underscore that ends every message. */
  lemma UnderscoreIsNothing()
    ensures Find("_", 0) == Gpib.None && !Begins("_")
  {
    hide Find, Begins;
    hide Cell, Letter, NoneHas;
    NoneBeginsSo();
    HaveLetter(0, 22, 0, 95);
    AllWithin();
    Missed("", 95, 0, 22);
    assert "" + ['_'] == "_";
  }

  /** At most one command runs in a message: the reading stops behind the first one, and the underscore
      calls nothing there. */
  lemma OneCommand(msg: seq<byte>)
    ensures |Handled(msg).ran| <= 1
  {
    hide Find, Begins;
    StopsAtFirst(Strip(msg), 0);
    var u := UpToCommand(Strip(msg), 0);
    assert (u + [95])[..|u|] == u;
    if |Read(u).ran| == 1 {
      assert "" + ['_'] == "_";
      UnderscoreIsNothing();
    }
  }

  /** With nothing run so far, what is read has run one command, and has just done so, or none. */
  lemma {:induction false} StopsAtFirst(t: seq<byte>, n: nat)
    requires n <= |t| && Read(t[..n]).ran == []
    ensures var r := Read(UpToCommand(t, n)); r.ran == [] || (|r.ran| == 1 && r == Letters("", r.ran))
    decreases |t| - n
  {
    hide Find, Begins;
    if n == |t| {
      assert t[..n] == t;
    } else {
      assert t[..n + 1][..n] == t[..n];
      if Read(t[..n + 1]).ran == [] { StopsAtFirst(t, n + 1); }
    }
  }

  lemma NoneBeginsSo()
    ensures NoneHas(0, 22, 0, 95)
  {
    FirstLetters();
    hide Letter;
    assert NoneHas(16, 22, 0, 95);
    assert NoneHas(8, 22, 0, 95);
  }

  /** A message that spells a command in any mixture of cases runs that command and nothing else. */
  lemma CommandMessage(k: nat, msg: seq<byte>)
    requires k < COUNT && Listed(k).handler != ADDR && Text(Strip(msg)) == Listed(k).text
    ensures Handled(msg).ran == [Listed(k).handler] && Handled(msg).Letters?
  {
    hide Find, Begins;
    var t := Strip(msg);
    forall n | 0 <= n < |t| ensures Read(t[..n]).ran == [] {
      assert Text(t[..n]) == Text(t)[..n];
      ReadBeginning(k, t[..n]);
    }
    WholeMessage(t, 0);
    ReadNonempty(k);
    ReadCommand(k, t);
    assert (t + [95])[..|t|] == t;
    assert "" + ['_'] == "_";
    UnderscoreIsNothing();
  }

  lemma Consumed(left: seq<byte>, t: seq<byte>, n: nat)
    requires left != [] && left[0] != 13 && left[0] != 10 && n <= |t| && Strip(left) == t[n..]
    ensures n < |t| && t[n] == left[0] && Strip(left[1..]) == t[n + 1..] && t[..n + 1] == t[..n] + [t[n]]
  {
    assert Strip(left)[0] == left[0] && Strip(left)[1..] == Strip(left[1..]);
    assert t[n..][1..] == t[n + 1..] && t[n..][0] == t[n];
  }

  lemma ReadNonempty(k: nat)
    requires k < COUNT
    ensures Listed(k).text != ""
  {
    AllWithin();
    LongEnough(0, 0, 0, COUNT);
  }

  /** The underscore completes "autoid slow", which is the beginning of two other commands. */
  lemma SlowMessage(msg: seq<byte>)
    requires Text(Strip(msg)) == "autoid slow"
    ensures Handled(msg).ran == [2]
  {
    var t := Strip(msg);
    assert Listed(2).text == "autoid slow_" && Listed(2).handler == 2;
    forall n | 0 <= n < |t| ensures Read(t[..n]).ran == [] {
      assert Text(t[..n]) == Text(t)[..n];
      ReadBeginning(2, t[..n]);
    }
    WholeMessage(t, 0);
    assert Text(t + [95]) == Text(t) + ['_'];
    ReadCommand(2, t + [95]);
  }

  /** "addr" and two numbers: whatever stands before, between and behind them, the adapter addresses
      the device they name from now on. */
  lemma AddressMessage(msg: seq<byte>, a: seq<byte>, pre: seq<byte>, d1: seq<byte>, sep: seq<byte>, d2: seq<byte>,
      post: seq<byte>, memory: nat -> byte, gpibAddr: byte)
    requires Strip(msg) == a + (pre + d1 + sep + d2 + post) && Text(a) == "addr"
    requires NoDigits(pre) && Digits(d1) && NoDigits(sep) && Digits(d2) && NoDigits(post)
    requires d1 != [] && sep != [] && d2 != [] && 1 <= Value(d1) <= 30
    requires 0 <= Value(d2) <= 6 || 96 <= Value(d2) <= 102
    ensures var addr := NewAddress(Handled(msg), memory, gpibAddr);
      && Gpib.ListenAddress(addr) == [0x20 + Value(d1), 0x60 + Value(d2) % 96]
      && Gpib.TalkAddress(addr) == [0x40 + Value(d1), 0x60 + Value(d2) % 96]
  {
    hide Handled, Fold, Selected, Strip, Text, Value, Taken, Meant, NoDigits, Digits;
    SmallNumbersAreExact(d1);
    SmallNumbersAreExact(d2);
    SelectedReachesTheBus(Value(d1), Value(d2));
    AddressTaken(msg, a, pre, d1, sep, d2, post, memory);
    SmallTaken(d1, d2);
  }

  lemma SmallTaken(d1: seq<byte>, d2: seq<byte>)
    requires Digits(d1) && Digits(d2) && 0 <= Value(d1) < 255 && 0 <= Value(d2) < 255
    ensures Taken(d1, d2) == Meant(Value(d1), Gpib.Some(Value(d2)))
  {
    hide Value, Meant, ReadAs;
    SmallNumbersAreExact(d1);
    SmallNumbersAreExact(d2);
  }

  /** What the decoder makes of an "addr" message with two numbers of any size. */
  lemma AddressTaken(msg: seq<byte>, a: seq<byte>, pre: seq<byte>, d1: seq<byte>, sep: seq<byte>, d2: seq<byte>,
      post: seq<byte>, memory: nat -> byte)
    requires Strip(msg) == a + (pre + d1 + sep + d2 + post) && Text(a) == "addr"
    requires NoDigits(pre) && Digits(d1) && NoDigits(sep) && Digits(d2) && NoDigits(post)
    requires d1 != [] && sep != [] && d2 != []
    ensures Handled(msg).Numbers? && Selected(Fold(START, Handled(msg).chars, memory)) == Taken(d1, d2)
  {
    hide Handled, Fold, Selected, Strip, Text, Value, Taken;
    var v := pre + d1 + sep + d2;
    NumbersMessage(msg, a, v + post);
    assert v + post + [95] == v + (post + [95]);
    assert NoDigits(post + [95]);
    TwoNumbers(pre, d1, sep, d2, post + [95], memory);
  }

  /** "addr" and a primary address alone. */
  lemma PrimaryMessage(msg: seq<byte>, a: seq<byte>, pre: seq<byte>, d1: seq<byte>,
      post: seq<byte>, memory: nat -> byte, gpibAddr: byte)
    requires Strip(msg) == a + (pre + d1 + post) && Text(a) == "addr"
    requires NoDigits(pre) && Digits(d1) && NoDigits(post) && d1 != [] && 1 <= Value(d1) <= 30
    ensures var addr := NewAddress(Handled(msg), memory, gpibAddr);
      Gpib.ListenAddress(addr) == [0x20 + Value(d1)] && Gpib.TalkAddress(addr) == [0x40 + Value(d1)]
  {
    hide Handled, Fold, Selected, Strip, Text;
    var v := pre + d1;
    NumbersMessage(msg, a, v + post);
    assert v + post + [95] == v + (post + [95]);
    SmallNumbersAreExact(d1);
    OneNumber(pre, d1, post + [95], memory);
    SelectedReachesTheBus(Value(d1), 0);
  }

  lemma NumbersMessage(msg: seq<byte>, a: seq<byte>, u: seq<byte>)
    requires Strip(msg) == a + u && Text(a) == "addr"
    ensures Handled(msg) == Numbers(u + [95], [])
  {
    var t := Strip(msg);
    forall n | 0 <= n < |t| ensures Read(t[..n]).ran == [] {
      if n < |a| {
        assert t[..n] == a[..n] && Text(a[..n]) == Text(a)[..n];
        ReadBeginning(6, a[..n]);
      } else {
        assert t[..n] == a + u[..n - |a|];
        ReadNumbers(a, u[..n - |a|]);
      }
    }
    WholeMessage(t, 0);
    assert t + [95] == a + (u + [95]);
    ReadNumbers(a, u + [95]);
  }

  /** An address is only replaced by one that designates a device other than the adapter. */
  lemma ChosenIsValid(r: Reading, memory: nat -> byte, gpibAddr: byte)
    ensures NewAddress(r, memory, gpibAddr) != gpibAddr ==> 1 <= NewAddress(r, memory, gpibAddr) % 32 <= 30
  {
  }

  class Parser {
    var position: nat
    var numberMode: bool
    const addr: array<byte>
    var gpibAddr: byte
    var dispatched: seq<nat>
    /** What follows the array in memory. */
    const memory: nat -> byte
    /** The characters read since the reset, and the commands still possible. */
    ghost var text: seq<byte>
    ghost var lo: nat
    ghost var hi: nat

    ghost predicate Valid()
      reads this, addr
    {
      addr.Length == 3 && match Read(text)
      case Letters(w, ran) =>
        !numberMode && dispatched == ran && Covers(position, |w|, lo, hi) && Within(w, lo, hi)
      case Numbers(u, ran) =>
        numberMode && dispatched == ran && Num(addr[0], addr[1], addr[2]) == Fold(START, u, memory)
    }

    constructor (gpibAddr: byte, memory: nat -> byte)
      ensures Valid() && fresh(addr) && text == [] && this.gpibAddr == gpibAddr && this.memory == memory
    {
      hide Covers, Cell, Letter, Fold, Within;
      position, numberMode, dispatched := 0, false, [];
      addr := new byte[3];
      this.gpibAddr, this.memory := gpibAddr, memory;
      text, lo, hi := [], 0, COUNT;
      new;
      AllWithin();
    }

    /** parser_reset. */
    method Reset()
      requires addr.Length == 3
      modifies this`position, this`numberMode, this`dispatched, this`text, this`lo, this`hi
      ensures Valid() && text == [] && dispatched == []
    {
      hide Covers, Cell, Letter, Fold, Within;
      position, numberMode, dispatched := 0, false, [];
      text, lo, hi := [], 0, COUNT;
      AllWithin();
    }

    /** numparser_addchar, on the array whose last cell is the index. */
    method AddToNumber(c: byte)
      requires addr.Length == 3
      modifies addr
      ensures Num(addr[0], addr[1], addr[2]) == Step(old(Num(addr[0], addr[1], addr[2])), c, memory)
    {
      if 48 <= c <= 57 {
        if addr[2] == 255 { addr[2] := 0; }
        if addr[2] < 3 {
          if addr[addr[2]] == 255 { addr[addr[2]] := 0; }
          addr[addr[2]] := (addr[addr[2]] * 10 + (c - 48)) % 256;
        }
      } else if addr[2] != 255 {
        var cell := if addr[2] < 3 then addr[addr[2]] else memory(addr[2] - 3);
        if cell != 255 { addr[2] := addr[2] + 1; }
      }
    }

    /** The scan of one node for the letter `c`. Afterwards the position is the root, unless the letter
        leads on. */
    method Scan(c: byte, ghost w: string) returns (ran: bool)
      requires Covers(position, |w|, lo, hi) && Within(w, lo, hi) && !numberMode && addr.Length == 3
      modifies this`position, this`numberMode, this`dispatched, this`lo, this`hi, addr
      ensures var v := w + [c as char]; var k := Find(v, 0);
        && numberMode == (k == Gpib.Some(ADDR))
        && (numberMode ==> Num(addr[0], addr[1], addr[2]) == START)
        && ran == (k.Some? && k.value != ADDR)
        && dispatched == (if ran then old(dispatched) + [k.value] else old(dispatched))
        && (k.None? && Begins(v) ==> Covers(position, |v|, lo, hi) && Within(v, lo, hi))
        && (!numberMode && !(k.None? && Begins(v)) ==> position == 0)
    {
      hide Cell, Find, Covers, Begins, Within, Scanning;
      var off := position;
      ScanBegins(off, w, c, lo, hi);
      ghost var from, k: nat := lo, 0;
      assert off < SIZE && off + 1 + 2 * Cell(off) <= SIZE by { Node(off, |w|, lo, hi); }
      var count := Cell(position);
      position := position + 1;
      var cnt := 0;
      ran := false;
      while cnt < count
        invariant cnt <= count == Cell(off) && position == off + 1 + 2 * cnt
        invariant Scanning(off, cnt, w, c, lo, hi, from, ran, k)
        invariant dispatched == if ran then old(dispatched) + [k] else old(dispatched)
        invariant !numberMode
      {
        ghost var mid := ScanEntry(off, cnt, w, c, lo, hi, from, ran, k);
        var entry := Cell(position);
        var link := Cell(position + 1);
        position := position + 2;
        if entry % 128 == c {
          if entry >= 128 {
            numberMode := link == ADDR;
            if numberMode {
              addr[0], addr[1], addr[2] := 255, 255, 255;
              return false;
            }
            dispatched := dispatched + [link];
            ran, k := true, link;
          } else {
            position := link;
            lo, hi := from, mid;
            return false;
          }
        }
        from := mid;
        cnt := cnt + 1;
      }
      ScanEnds(off, cnt, w, c, lo, hi, from, ran, k);
      position := 0;
    }

    /** parser_add. */
    method Add(ch: byte) returns (ran: bool)
      requires Valid()
      modifies this`position, this`numberMode, this`dispatched, this`text, this`lo, this`hi, addr
      ensures Valid() && text == old(text) + [ch]
      ensures ran <==> |dispatched| == |old(dispatched)| + 1
      ensures !ran ==> dispatched == old(dispatched)
    {
      hide Covers, Cell, Letter, Find, Begins, Fold, Step, Within, Lower;
      ghost var before := text;
      if numberMode {
        AddToNumber(Lower(ch));
        FoldOne(Read(before).chars, ch, memory);
        ran := false;
      } else {
        ran := AddLetter(Lower(ch), Read(before).word);
      }
      text := before + [ch];
      assert text[..|text| - 1] == before;
    }

    method AddLetter(c: byte, ghost w: string) returns (ran: bool)
      requires Covers(position, |w|, lo, hi) && Within(w, lo, hi) && !numberMode && addr.Length == 3
      modifies this`position, this`numberMode, this`dispatched, this`lo, this`hi, addr
      ensures Num(addr[0], addr[1], addr[2]) == Fold(START, [], memory) || !numberMode
      ensures var v := w + [c as char]; var k := Find(v, 0);
        && numberMode == (k == Gpib.Some(ADDR))
        && ran == (k.Some? && k.value != ADDR)
        && dispatched == (if ran then old(dispatched) + [k.value] else old(dispatched))
        && var rest := if k.None? && Begins(v) then v else "";
           numberMode || (Covers(position, |rest|, lo, hi) && Within(rest, lo, hi))
    {
      hide Covers, Cell, Letter, Find, Begins, Fold, Within;
      FoldOne([], c, memory);
      ran := Scan(c, w);
      if Find(w + [c as char], 0).Some? || !Begins(w + [c as char]) {
        lo, hi := 0, COUNT;
        AllWithin();
      }
    }

    /** parser_finalize. */
    method Finalize()
      requires addr.Length == 3
      modifies this`gpibAddr
      ensures gpibAddr == Chosen(numberMode, Num(addr[0], addr[1], addr[2]), old(gpibAddr))
    {
      if !numberMode { return; }
      var paddr, saddr := addr[0], addr[1];
      if !(paddr >= 1 && paddr <= 30) { return; }
      if saddr == 255 {
        gpibAddr := paddr;
      } else {
        if saddr <= 6 { saddr := saddr + 96; }
        if saddr >= 96 && saddr <= 96 + 6 {
          saddr := saddr - 96;
          gpibAddr := paddr + (saddr + 1) * 32;
        }
      }
    }

    /** The loop of ProcessInternalCommand. */
    method Feed(msg: seq<byte>)
      requires Valid() && text == [] && dispatched == []
      modifies this`position, this`numberMode, this`dispatched, this`text, this`lo, this`hi, addr
      ensures Valid() && text == UpToCommand(Strip(msg), 0)
    {
      hide Covers, Within, Next, Fold;
      ghost var t := Strip(msg);
      assert msg[0..] == msg && t[0..] == t;
      var i, executed := 0, false;
      while i < |msg| && !executed
        invariant i <= |msg| && Valid()
        invariant |dispatched| == if executed then 1 else 0
        invariant |text| <= |t| && text == t[..|text|] && Strip(msg[i..]) == t[|text|..]
        invariant UpToCommand(t, 0) == if executed then text else UpToCommand(t, |text|)
      {
        ghost var before, left := text, msg[i..];
        if msg[i] != 13 && msg[i] != 10 {
          executed := Add(msg[i]);
          Consumed(left, t, |before|);
          assert text == t[..|text|];
        }
        i := i + 1;
        assert left[1..] == msg[i..];
      }
    }

    /** ProcessInternalCommand, for the characters the endpoint delivers behind the exclamation mark. */
    method Process(msg: seq<byte>)
      requires addr.Length == 3
      modifies this, addr
      ensures Valid() && text == Offered(msg)
      ensures dispatched == Handled(msg).ran
      ensures gpibAddr == NewAddress(Handled(msg), memory, old(gpibAddr))
    {
      hide Covers, Within, Next, Fold, UpToCommand;
      Reset();
      Feed(msg);
      var ran := Add(95);
      Finalize();
    }
  }
}

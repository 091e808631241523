/** The address argument of the "!addr" command: the number decoder of the command parser, whose third
    array cell is its own index, and the address byte it selects. */
module AddressNumber {
  import opened Gpib

  /** addr[0], addr[1] and addr[2], the index. 255 stands for "no digit yet". */
  datatype Num = Num(first: byte, second: byte, index: byte)

  const START := Num(255, 255, 255)

  predicate IsDigit(c: byte) { 48 <= c <= 57 }

  ghost predicate Digits(u: seq<byte>) { forall i | 0 <= i < |u| :: IsDigit(u[i]) }

  ghost predicate NoDigits(u: seq<byte>) { forall i | 0 <= i < |u| :: !IsDigit(u[i]) }

  /** One more digit on a number that may not have begun yet. */
  function Append(number: byte, digit: nat): byte {
    ((if number == 255 then 0 else number) * 10 + digit) % 256
  }

  /** numparser_addchar. `memory` is what follows the array: nothing keeps the index below 3. */
  function Step(n: Num, c: byte, memory: nat -> byte): Num {
    if IsDigit(c) then
      var index := if n.index == 255 then 0 else n.index;
      if index == 0 then Num(Append(n.first, c - 48), n.second, 0)
      else if index == 1 then Num(n.first, Append(n.second, c - 48), 1)
      else if index == 2 then Num(n.first, n.second, Append(2, c - 48))
      else n
    else if n.index != 255 && At(n, n.index, memory) != 255 then n.(index := n.index + 1)
    else n
  }

  /** num[i]. */
  function At(n: Num, i: byte, memory: nat -> byte): byte {
    if i == 0 then n.first else if i == 1 then n.second else if i == 2 then n.index else memory(i - 3)
  }

  function Fold(n: Num, u: seq<byte>, memory: nat -> byte): Num {
    if u == [] then n else Step(Fold(n, u[..|u| - 1], memory), u[|u| - 1], memory)
  }

  /** The number a digit string writes down. */
  function Value(ds: seq<byte>): int {
    if ds == [] then 0 else Value(ds[..|ds| - 1]) * 10 + ds[|ds| - 1] - 48
  }

  /** Where the decoder last began anew: behind the longest beginning whose digits, from the previous
      such place on, write a number that is 255 modulo 256. */
  function Restart(ds: seq<byte>): (k: nat)
    ensures k <= |ds|
  {
    if ds == [] then 0
    else
      var front := ds[..|ds| - 1];
      var k := Restart(front);
      if Value(front[k..]) % 256 == 255 then |front| else k
  }

  /** The number the decoder makes of a digit string: that of the digits since then, modulo 256. */
  function ReadAs(ds: seq<byte>): byte { Value(ds[Restart(ds)..]) % 256 }

  /** parser_finalize: the new address byte, or none when the numbers are refused. */
  function Selected(n: Num): (addr: Option<byte>)
    ensures addr.Some? ==> 1 <= addr.value % 32 <= 30
  {
    if !(1 <= n.first <= 30) then None
    else if n.second == 255 then Some(n.first)
    else
      var s: int := if n.second <= 6 then n.second + 96 else n.second;
      if 96 <= s <= 102 then Some(n.first + (s - 96 + 1) * 32) else None
  }

  lemma {:induction false} FoldAppend(n: Num, u: seq<byte>, v: seq<byte>, memory: nat -> byte)
    ensures Fold(n, u + v, memory) == Fold(Fold(n, u, memory), v, memory)
  {
    if v == [] {
      assert u + v == u;
    } else {
      assert (u + v)[..|u + v| - 1] == u + v[..|v| - 1];
      FoldAppend(n, u, v[..|v| - 1], memory);
    }
  }

  /** Whatever is not a digit is skipped before the first number. */
  lemma {:induction false} Leading(u: seq<byte>, memory: nat -> byte)
    requires NoDigits(u)
    ensures Fold(START, u, memory) == START
  {
    if u != [] { Leading(u[..|u| - 1], memory); }
  }

  lemma {:induction false} ValueGrows(ds: seq<byte>)
    requires Digits(ds)
    ensures Value(ds) >= 0 && (ds != [] ==> 0 <= Value(ds[..|ds| - 1]) <= Value(ds))
  {
    if ds != [] { ValueGrows(ds[..|ds| - 1]); }
  }

  /** As long as the number written is below 255 nothing is lost. */
  lemma {:induction false} SmallNumbersAreExact(ds: seq<byte>)
    requires Digits(ds) && Value(ds) < 255
    ensures 0 <= Value(ds) && Restart(ds) == 0 && ReadAs(ds) == Value(ds)
  {
    ValueGrows(ds);
    assert ds[0..] == ds;
    if ds != [] {
      var front := ds[..|ds| - 1];
      SmallNumbersAreExact(front);
      assert front[0..] == front;
    }
  }

  /** One more digit, as the decoder computes it. */
  lemma AppendReads(ds: seq<byte>)
    requires Digits(ds) && ds != []
    ensures var front := ds[..|ds| - 1]; var d := ds[|ds| - 1] - 48;
      ReadAs(ds) == Append(if front == [] then 255 else ReadAs(front), d)
  {
    var front, d := ds[..|ds| - 1], ds[|ds| - 1] - 48;
    var k := Restart(front);
    if Value(front[k..]) % 256 == 255 {
      assert ds[|front|..] == [ds[|ds| - 1]];
      OneDigit(ds[|ds| - 1]);
    } else {
      assert ds[k..][..|ds| - k - 1] == front[k..] && ds[k..][|ds| - k - 1] == ds[|ds| - 1];
      TenTimes(Value(front[k..]), d);
    }
  }

  lemma TenTimes(v: int, d: int)
    ensures (v * 10 + d) % 256 == (v % 256 * 10 + d) % 256
  {
    var q, r := v / 256, v % 256;
    assert v == 256 * q + r;
    Multiple(10 * q, r * 10 + d);
  }

  lemma Multiple(k: int, x: int)
    ensures (256 * k + x) % 256 == x % 256
  {
  }

  lemma {:induction false} FirstNumber(ds: seq<byte>, memory: nat -> byte)
    requires Digits(ds) && ds != []
    ensures Fold(START, ds, memory) == Num(ReadAs(ds), 255, 0)
  {
    AppendReads(ds);
    if |ds| > 1 { FirstNumber(ds[..|ds| - 1], memory); } else { assert ds[..0] == []; }
  }

  /** A first number that reads as 255 is taken for no number: the separator does not end it. */
  lemma {:induction false} NoSeparator(sep: seq<byte>, memory: nat -> byte)
    requires NoDigits(sep)
    ensures Fold(Num(255, 255, 0), sep, memory) == Num(255, 255, 0)
  {
    if sep != [] { NoSeparator(sep[..|sep| - 1], memory); }
  }

  lemma {:induction false} FirstNumberAfter255(ds: seq<byte>, memory: nat -> byte)
    requires Digits(ds) && ds != []
    ensures Fold(Num(255, 255, 0), ds, memory) == Num(ReadAs(ds), 255, 0)
  {
    AppendReads(ds);
    if |ds| > 1 { FirstNumberAfter255(ds[..|ds| - 1], memory); } else { assert ds[..0] == []; }
  }

  /** Any run of other characters ends the first number and waits for the second one. */
  lemma {:induction false} Separator(p: byte, sep: seq<byte>, memory: nat -> byte)
    requires NoDigits(sep) && sep != [] && p != 255
    ensures Fold(Num(p, 255, 0), sep, memory) == Num(p, 255, 1)
  {
    if |sep| == 1 {
      assert sep[..0] == [];
    } else {
      Separator(p, sep[..|sep| - 1], memory);
    }
  }

  lemma {:induction false} SecondNumber(p: byte, ds: seq<byte>, memory: nat -> byte)
    requires Digits(ds) && ds != []
    ensures Fold(Num(p, 255, 1), ds, memory) == Num(p, ReadAs(ds), 1)
  {
    AppendReads(ds);
    if |ds| > 1 { SecondNumber(p, ds[..|ds| - 1], memory); } else { assert ds[..0] == []; }
  }

  /** Nothing but digits changes the numbers. */
  lemma {:induction false} Trailing(n: Num, post: seq<byte>, memory: nat -> byte)
    requires NoDigits(post)
    ensures var e := Fold(n, post, memory); e.first == n.first && e.second == n.second
  {
    if post != [] { Trailing(n, post[..|post| - 1], memory); }
  }

  /** What an address written with the numbers p and s, or p alone, should select. */
  function Meant(p: int, s: Option<int>): (addr: Option<int>) {
    if !(1 <= p <= 30) then None
    else match s
      case None => Some(p)
      case Some(v) => if 0 <= v <= 6 || 96 <= v <= 102 then Some(p + 32 * (v % 96 + 1)) else None
  }

  predicate Primary(p: int) { 1 <= p <= 30 }

  predicate Secondary(s: int) { 0 <= s <= 6 || 96 <= s <= 102 }

  lemma FinalizeSelectsMeant(n: Num)
    ensures n.second != 255 ==> Selected(n) == Meant(n.first, Some(n.second))
    ensures n.second == 255 ==> Selected(n) == Meant(n.first, None)
  {
  }

  lemma UpToFirst(pre: seq<byte>, d1: seq<byte>, memory: nat -> byte)
    requires NoDigits(pre) && Digits(d1) && d1 != []
    ensures Fold(START, pre + d1, memory) == Num(ReadAs(d1), 255, 0)
  {
    FoldAppend(START, pre, d1, memory);
    Leading(pre, memory);
    FirstNumber(d1, memory);
  }

  /** The two cells after both numbers: a first one that reads as 255 is forgotten. */
  lemma UpToSecond(u: seq<byte>, p: byte, sep: seq<byte>, d2: seq<byte>, memory: nat -> byte)
    requires Fold(START, u, memory) == Num(p, 255, 0)
    requires NoDigits(sep) && Digits(d2) && sep != [] && d2 != []
    ensures Fold(START, u + sep + d2, memory) == if p == 255 then Num(ReadAs(d2), 255, 0) else Num(p, ReadAs(d2), 1)
  {
    hide Fold, Step, ReadAs;
    FoldAppend(START, u + sep, d2, memory);
    FoldAppend(START, u, sep, memory);
    if p == 255 {
      NoSeparator(sep, memory);
      FirstNumberAfter255(d2, memory);
    } else {
      Separator(p, sep, memory);
      SecondNumber(p, d2, memory);
    }
  }

  /** What two written numbers select: each is read as `ReadAs` says; a number that reads as 255 counts
      as absent. */
  function Taken(d1: seq<byte>, d2: seq<byte>): Option<int> {
    if ReadAs(d1) == 255 then (if ReadAs(d2) == 255 then None else Meant(ReadAs(d2), None))
    else if ReadAs(d2) == 255 then Meant(ReadAs(d1), None)
    else Meant(ReadAs(d1), Some(ReadAs(d2)))
  }

  /** Primary and secondary address, with anything that is not a digit before, between and after, and
      numbers of any size. */
  lemma TwoNumbers(pre: seq<byte>, d1: seq<byte>, sep: seq<byte>, d2: seq<byte>, post: seq<byte>, memory: nat -> byte)
    requires NoDigits(pre) && Digits(d1) && NoDigits(sep) && Digits(d2) && NoDigits(post)
    requires d1 != [] && sep != [] && d2 != []
    ensures Selected(Fold(START, pre + d1 + sep + d2 + post, memory)) == Taken(d1, d2)
  {
    hide Fold, Step, ReadAs, Selected, Meant, Value;
    var u := pre + d1 + sep + d2;
    FoldAppend(START, u, post, memory);
    UpToFirst(pre, d1, memory);
    UpToSecond(pre + d1, ReadAs(d1), sep, d2, memory);
    Trailing(Fold(START, u, memory), post, memory);
    FinalizeSelectsMeant(Fold(START, u + post, memory));
    Refuse255();
  }

  lemma Refuse255()
    ensures Meant(255, None) == None
  {
  }

  /** Two numbers select what was meant exactly if both are below 255, or if what they are read as is
      refused: neither a primary address with a secondary one or none (read as 255), nor a second
      number that is taken for the primary address because the first one reads as 255. */
  lemma TwoNumbersExactly(d1: seq<byte>, d2: seq<byte>)
    requires Digits(d1) && Digits(d2)
    ensures Taken(d1, d2) == Meant(Value(d1), Some(Value(d2))) <==>
      || (Value(d1) < 255 && Value(d2) < 255)
      || !(if ReadAs(d1) == 255 then Primary(ReadAs(d2))
           else Primary(ReadAs(d1)) && (ReadAs(d2) == 255 || Secondary(ReadAs(d2))))
  {
    hide ReadAs, Value;
    if Value(d1) < 255 { SmallNumbersAreExact(d1); }
    if Value(d2) < 255 { SmallNumbersAreExact(d2); }
  }

  /** A primary address alone: it selects what was meant exactly if it is below 255 or its last digits,
      those since the last restart, do not write a primary address modulo 256. */
  lemma OneNumber(pre: seq<byte>, d1: seq<byte>, post: seq<byte>, memory: nat -> byte)
    requires NoDigits(pre) && Digits(d1) && NoDigits(post) && d1 != []
    ensures Selected(Fold(START, pre + d1 + post, memory)) == Meant(ReadAs(d1), None)
    ensures Meant(ReadAs(d1), None) == Meant(Value(d1), None) <==>
      Value(d1) < 255 || !Primary(Value(d1[Restart(d1)..]) % 256)
  {
    hide Fold, Step, Value, Restart;
    FoldAppend(START, pre + d1, post, memory);
    UpToFirst(pre, d1, memory);
    if Value(d1) < 255 { SmallNumbersAreExact(d1); }
    Trailing(Num(ReadAs(d1), 255, 0), post, memory);
    FinalizeSelectsMeant(Fold(START, pre + d1 + post, memory));
  }

  lemma OneDigit(a: byte)
    requires IsDigit(a)
    ensures Value([a]) == a - 48 && Restart([a]) == 0
  {
    assert [a][..0] == [];
  }

  lemma TwoDigits(a: byte, b: byte)
    requires IsDigit(a) && IsDigit(b)
    ensures Value([a, b]) == (a as int - 48) * 10 + b - 48 && Restart([a, b]) == 0
  {
    OneDigit(a);
    assert [a, b][..1] == [a] && [a][0..] == [a];
  }

  lemma ThreeDigits(a: byte, b: byte, c: byte)
    requires IsDigit(a) && IsDigit(b) && IsDigit(c)
    ensures Value([a, b, c]) == (a as int - 48) * 100 + (b as int - 48) * 10 + c - 48
    ensures Restart([a, b, c]) == 0 && ReadAs([a, b, c]) == Value([a, b, c]) % 256
  {
    TwoDigits(a, b);
    assert [a, b, c][..2] == [a, b] && [a, b][0..] == [a, b] && [a, b, c][0..] == [a, b, c];
  }

  /** Larger numbers wrap around or begin anew: "257" selects address 1, "2555" selects 5, "255 5" selects
      5, "5 255" selects 5 without a secondary address, and "5 352" selects 5 with secondary address 0. */
  lemma LargeNumbersWrap()
    ensures Meant(ReadAs([50, 53, 55]), None) == Some(1)
    ensures Meant(ReadAs([50, 53, 53, 53]), None) == Some(5)
    ensures Taken([50, 53, 53], [53]) == Some(5)
    ensures Taken([53], [50, 53, 53]) == Some(5)
    ensures Taken([53], [51, 53, 50]) == Some(37)
  {
    hide Restart, Value;
    ThreeDigits(50, 53, 55);
    ThreeDigits(50, 53, 53);
    ThreeDigits(51, 53, 50);
    OneDigit(53);
    assert [53][0..] == [53];
    FourDigits();
  }

  lemma FourDigits()
    ensures ReadAs([50, 53, 53, 53]) == 5
  {
    ThreeDigits(50, 53, 53);
    var ds: seq<byte> := [50, 53, 53, 53];
    assert ds[..3] == [50, 53, 53] && [50, 53, 53][0..] == [50, 53, 53] && ds[3..] == [53];
    OneDigit(53);
  }

  /** The round trip to the bus: the selected address byte makes gpib_cmd_LAG and gpib_cmd_TAG send
      exactly the addresses that were written. */
  lemma SelectedReachesTheBus(p: int, s: int)
    requires 1 <= p <= 30 && (0 <= s <= 6 || 96 <= s <= 102)
    ensures var addr := Meant(p, Some(s));
      addr.Some? && 0 <= addr.value < 256
      && ListenAddress(addr.value) == [0x20 + p, 0x60 + s % 96]
      && TalkAddress(addr.value) == [0x40 + p, 0x60 + s % 96]
    ensures Meant(p, None) == Some(p) && ListenAddress(p) == [0x20 + p] && TalkAddress(p) == [0x40 + p]
  {
  }

  /** The array cell that a character makes the decoder look at. */
  function Inspects(n: Num, c: byte): nat {
    if IsDigit(c) then if n.index == 255 then 0 else if n.index < 3 then n.index else 0
    else if n.index == 255 then 0 else n.index
  }

  /** The decoder, in state `n`, stays inside its array while it reads `u`. */
  ghost predicate Inside(n: Num, u: seq<byte>, memory: nat -> byte) {
    forall k | 0 <= k < |u| :: Inspects(Fold(n, u[..k], memory), u[k]) < 3
  }

  lemma InsideAppend(n: Num, u: seq<byte>, c: byte, memory: nat -> byte)
    ensures Inside(n, u + [c], memory) <==> Inside(n, u, memory) && Inspects(Fold(n, u, memory), c) < 3
  {
    hide Fold, Inspects;
    var v := u + [c];
    assert v[..|u|] == u && v[|u|] == c;
    assert forall k | 0 <= k < |u| :: v[..k] == u[..k] && v[k] == u[k];
  }

  lemma {:induction false} InsideSplit(n: Num, u: seq<byte>, v: seq<byte>, memory: nat -> byte)
    ensures Inside(n, u + v, memory) <==> Inside(n, u, memory) && Inside(Fold(n, u, memory), v, memory)
  {
    hide Fold, Inspects, Inside;
    if v == [] {
      assert u + v == u;
      InsideNothing(Fold(n, u, memory), memory);
    } else {
      var front, c := v[..|v| - 1], v[|v| - 1];
      assert u + v == (u + front) + [c] && v == front + [c];
      InsideSplit(n, u, front, memory);
      InsideAppend(n, u + front, c, memory);
      FoldAppend(n, u, front, memory);
      InsideAppend(Fold(n, u, memory), front, c, memory);
    }
  }

  lemma InsideNothing(n: Num, memory: nat -> byte)
    ensures Inside(n, [], memory)
  {
  }

  lemma {:induction false} InsideLeading(u: seq<byte>, memory: nat -> byte)
    requires NoDigits(u)
    ensures Inside(START, u, memory)
  {
    hide Fold;
    if u != [] {
      var front := u[..|u| - 1];
      assert u == front + [u[|u| - 1]];
      InsideLeading(front, memory);
      Leading(front, memory);
      InsideAppend(START, front, u[|u| - 1], memory);
    }
  }

  /** Digits that go into the first cell, from the start or behind a 255. */
  lemma {:induction false} InsideFirst(n: Num, ds: seq<byte>, memory: nat -> byte)
    requires Digits(ds) && (n == START || n == Num(255, 255, 0))
    ensures Inside(n, ds, memory)
  {
    hide Fold, ReadAs;
    if ds != [] {
      var front := ds[..|ds| - 1];
      assert ds == front + [ds[|ds| - 1]];
      InsideFirst(n, front, memory);
      if front == [] {
        FoldNothing(n, memory);
      } else {
        FirstNumber(front, memory);
        FirstNumberAfter255(front, memory);
      }
      InsideAppend(n, front, ds[|ds| - 1], memory);
    }
  }

  lemma FoldNothing(n: Num, memory: nat -> byte)
    ensures Fold(n, [], memory) == n
  {
  }

  lemma {:induction false} InsideSeparator(p: byte, sep: seq<byte>, memory: nat -> byte)
    requires NoDigits(sep)
    ensures Inside(Num(p, 255, 0), sep, memory)
  {
    hide Fold;
    if sep != [] {
      var front := sep[..|sep| - 1];
      assert sep == front + [sep[|sep| - 1]];
      InsideSeparator(p, front, memory);
      if front == [] {
        FoldNothing(Num(p, 255, 0), memory);
      } else if p == 255 {
        NoSeparator(front, memory);
      } else {
        Separator(p, front, memory);
      }
      InsideAppend(Num(p, 255, 0), front, sep[|sep| - 1], memory);
    }
  }

  lemma {:induction false} InsideSecond(p: byte, ds: seq<byte>, memory: nat -> byte)
    requires Digits(ds)
    ensures Inside(Num(p, 255, 1), ds, memory)
  {
    hide Fold, ReadAs;
    if ds != [] {
      var front := ds[..|ds| - 1];
      assert ds == front + [ds[|ds| - 1]];
      InsideSecond(p, front, memory);
      if front == [] { FoldNothing(Num(p, 255, 1), memory); } else { SecondNumber(p, front, memory); }
      InsideAppend(Num(p, 255, 1), front, ds[|ds| - 1], memory);
    }
  }

  /** Both numbers are read inside the array, whatever they are. */
  lemma NumbersInside(pre: seq<byte>, d1: seq<byte>, sep: seq<byte>, d2: seq<byte>, memory: nat -> byte)
    requires NoDigits(pre) && Digits(d1) && NoDigits(sep) && Digits(d2) && d1 != [] && sep != [] && d2 != []
    ensures Inside(START, pre + d1 + sep + d2, memory)
  {
    hide Fold, ReadAs, Inside;
    InsideLeading(pre, memory);
    Leading(pre, memory);
    InsideFirst(START, d1, memory);
    InsideSplit(START, pre, d1, memory);
    UpToFirst(pre, d1, memory);
    var p := ReadAs(d1);
    InsideSeparator(p, sep, memory);
    InsideSplit(START, pre + d1, sep, memory);
    FoldAppend(START, pre + d1, sep, memory);
    if p == 255 {
      NoSeparator(sep, memory);
      InsideFirst(Num(255, 255, 0), d2, memory);
    } else {
      Separator(p, sep, memory);
      InsideSecond(p, d2, memory);
    }
    InsideSplit(START, pre + d1 + sep, d2, memory);
  }

  /** Once the index is 3 or more, the underscore at the end of the message reads outside. */
  lemma {:induction false} Outside(n: Num, v: seq<byte>, memory: nat -> byte)
    requires 3 <= n.index < 255
    ensures !Inside(n, v + [95], memory)
  {
    var w := v + [95];
    if v != [] && IsDigit(v[0]) {
      assert w == [v[0]] + (v[1..] + [95]) && [v[0]][..0] == [];
      assert Fold(n, [v[0]], memory) == n;
      Outside(n, v[1..], memory);
      InsideSplit(n, [v[0]], v[1..] + [95], memory);
    } else {
      assert w[..0] == [] && Inspects(Fold(n, w[..0], memory), w[0]) >= 3;
    }
  }

  lemma BehindTheNumbers(p: byte, s: byte, post: seq<byte>, memory: nat -> byte)
    requires s != 255 && (post == [] || !IsDigit(post[0]))
    ensures Inside(Num(p, s, 1), post + [95], memory) <==> |post| <= 1
  {
    hide Fold, Inside;
    var n := Num(p, s, 1);
    if post == [] {
      assert post + [95] == [] + [95];
      InsideNothing(n, memory);
      FoldNothing(n, memory);
      InsideAppend(n, [], 95, memory);
    } else {
      assert post + [95] == [post[0]] + (post[1..] + [95]);
      InsideSplit(n, [post[0]], post[1..] + [95], memory);
      Single(n, post[0], memory);
      BehindTheFirst(p, s, post[1..], memory);
    }
  }

  lemma Single(n: Num, c: byte, memory: nat -> byte)
    ensures Inside(n, [c], memory) <==> Inspects(n, c) < 3
    ensures Fold(n, [c], memory) == Step(n, c, memory)
  {
    assert [c] == [] + [c] && [c][..0] == [];
    InsideNothing(n, memory);
    InsideAppend(n, [], c, memory);
  }

  lemma BehindTheFirst(p: byte, s: byte, rest: seq<byte>, memory: nat -> byte)
    ensures Inside(Num(p, s, 2), rest + [95], memory) <==> rest == []
  {
    hide Fold, Inside;
    var n := Num(p, s, 2);
    if rest == [] {
      assert rest + [95] == [95];
      Single(n, 95, memory);
    } else {
      assert rest + [95] == [rest[0]] + (rest[1..] + [95]);
      InsideSplit(n, [rest[0]], rest[1..] + [95], memory);
      Single(n, rest[0], memory);
      Outside(Step(n, rest[0], memory), rest[1..], memory);
    }
  }

  /** A whole "addr" message with two numbers, the underscore at its end included, is read inside the
      array exactly if at most one character follows the second number. */
  lemma MessageStaysInside(pre: seq<byte>, d1: seq<byte>, sep: seq<byte>, d2: seq<byte>, post: seq<byte>,
      memory: nat -> byte)
    requires NoDigits(pre) && Digits(d1) && NoDigits(sep) && Digits(d2) && d1 != [] && sep != [] && d2 != []
    requires ReadAs(d1) != 255 && ReadAs(d2) != 255 && (post == [] || !IsDigit(post[0]))
    ensures Inside(START, pre + d1 + sep + d2 + (post + [95]), memory) <==> |post| <= 1
  {
    hide Fold, ReadAs, Inside;
    NumbersInside(pre, d1, sep, d2, memory);
    UpToFirst(pre, d1, memory);
    UpToSecond(pre + d1, ReadAs(d1), sep, d2, memory);
    InsideSplit(START, pre + d1 + sep + d2, post + [95], memory);
    BehindTheNumbers(ReadAs(d1), ReadAs(d2), post, memory);
  }

  /** No digit of the second number yet: other characters are skipped. */
  lemma {:induction false} NoSecondYet(p: byte, post: seq<byte>, memory: nat -> byte)
    requires NoDigits(post)
    ensures Inside(Num(p, 255, 1), post, memory) && Fold(Num(p, 255, 1), post, memory) == Num(p, 255, 1)
  {
    if post != [] {
      var front := post[..|post| - 1];
      assert post == front + [post[|post| - 1]];
      NoSecondYet(p, front, memory);
      InsideAppend(Num(p, 255, 1), front, post[|post| - 1], memory);
    }
  }

  /** A number that reads as 255 counts as absent: then nothing but a further number leads outside. */
  lemma AbsentNumberStaysInside(pre: seq<byte>, d1: seq<byte>, sep: seq<byte>, d2: seq<byte>, post: seq<byte>,
      memory: nat -> byte)
    requires NoDigits(pre) && Digits(d1) && NoDigits(sep) && Digits(d2) && d1 != [] && sep != [] && d2 != []
    requires (ReadAs(d1) == 255 || ReadAs(d2) == 255) && NoDigits(post)
    ensures Inside(START, pre + d1 + sep + d2 + post, memory)
  {
    hide Fold, ReadAs, Inside;
    NumbersInside(pre, d1, sep, d2, memory);
    UpToFirst(pre, d1, memory);
    UpToSecond(pre + d1, ReadAs(d1), sep, d2, memory);
    InsideSplit(START, pre + d1 + sep + d2, post, memory);
    if ReadAs(d1) == 255 {
      InsideSeparator(ReadAs(d2), post, memory);
    } else {
      NoSecondYet(ReadAs(d1), post, memory);
    }
  }

  /** With one number nothing but a second one leads outside. */
  lemma OneNumberStaysInside(pre: seq<byte>, d1: seq<byte>, post: seq<byte>, memory: nat -> byte)
    requires NoDigits(pre) && Digits(d1) && NoDigits(post) && d1 != []
    ensures Inside(START, pre + d1 + post, memory)
  {
    hide Fold, ReadAs, Inside;
    InsideLeading(pre, memory);
    Leading(pre, memory);
    InsideFirst(START, d1, memory);
    InsideSplit(START, pre, d1, memory);
    UpToFirst(pre, d1, memory);
    InsideSeparator(ReadAs(d1), post, memory);
    InsideSplit(START, pre + d1, post, memory);
  }
}

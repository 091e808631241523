/** The answer to the identification query, made into a USB serial string: special characters become
    underscores, doubled ones are suppressed, unprintable ones dropped, trailing ones stripped. */
module SerialString {
  import opened Gpib

  const MAX_LENGTH := 50
  const UNDERSCORE: byte := 95
  const COMMA: byte := 44

  /** One byte read from the instrument, with EOI, and whether the read timed out. */
  datatype Reply = Reply(c: byte, eoi: bool, timedout: bool)

  /** " * / \ : ? space , & and the underscore itself. */
  predicate Special(c: byte) {
    c == 34 || c == 42 || c == 47 || c == 92 || c == 58 || c == 63 || c == 32 || c == 44 || c == 38 || c == 95
  }

  predicate Printable(c: byte) { 32 <= c <= 126 }

  predicate Kept(c: byte) { Printable(c) && !Special(c) }

  /** What is stored for the characters read. */
  function Clean(cs: seq<byte>): seq<byte> {
    if cs == [] then []
    else
      var front, c := cs[..|cs| - 1], cs[|cs| - 1];
      if Kept(c) then Clean(front) + [c]
      else if Special(c) && !(front != [] && Special(front[|front| - 1])) then Clean(front) + [UNDERSCORE]
      else Clean(front)
  }

  /** Without its trailing underscores, but never emptied. */
  function Trimmed(s: seq<byte>): seq<byte> {
    if |s| > 1 && s[|s| - 1] == UNDERSCORE then Trimmed(s[..|s| - 1]) else s
  }

  function Chars(replies: seq<Reply>): seq<byte> {
    seq(|replies|, i requires 0 <= i < |replies| => replies[i].c)
  }

  lemma NoChars(replies: seq<Reply>)
    ensures Chars(replies[..0]) == [] && Clean([]) == []
  {
  }

  lemma OneMoreChar(replies: seq<Reply>, n: nat)
    requires n < |replies|
    ensures var before, c := Chars(replies[..n]), replies[n].c;
      && Chars(replies[..n + 1]) == before + [c]
      && Clean(before + [c]) == Clean(before) + (
           if Kept(c) then [c]
           else if Special(c) && !(n > 0 && Special(replies[n - 1].c)) then [UNDERSCORE]
           else [])
  {
    var before, c := Chars(replies[..n]), replies[n].c;
    assert replies[..n + 1][..n] == replies[..n];
    assert (before + [c])[..n] == before;
    assert Clean(before) + [] == Clean(before);
  }

  /** The read loop of identifyGpibDevice. `replies` is what the instrument answers; behind it every read
      times out. */
  method ReadSerial(text: array<byte>, replies: seq<Reply>) returns (len: nat, hasComma: bool, n: nat)
    requires text.Length == MAX_LENGTH
    modifies text
    ensures n <= |replies| && len <= MAX_LENGTH
    ensures text[..len] == Trimmed(Clean(Chars(replies[..n])))
    ensures hasComma == (COMMA in Chars(replies[..n]))
    ensures forall i | 0 <= i < n - 1 :: !replies[i].eoi && !replies[i].timedout
    ensures n < |replies| ==>
      n > 0 && (replies[n - 1].eoi || replies[n - 1].timedout || |Clean(Chars(replies[..n]))| == MAX_LENGTH)
  {
    hide Clean, Chars;
    len, hasComma, n := 0, false, 0;
    NoChars(replies);
    var prev: byte := 0;
    var reading := true;
    while reading
      invariant n <= |replies| && len <= MAX_LENGTH && (reading ==> len < MAX_LENGTH)
      invariant text[..len] == Clean(Chars(replies[..n])) && hasComma == (COMMA in Chars(replies[..n]))
      invariant prev == UNDERSCORE <==> n > 0 && Special(replies[n - 1].c)
      invariant forall i | 0 <= i < n - 1 :: !replies[i].eoi && !replies[i].timedout
      invariant reading && n > 0 ==> !replies[n - 1].eoi && !replies[n - 1].timedout
      invariant !reading && n < |replies| ==>
        n > 0 && (replies[n - 1].eoi || replies[n - 1].timedout || len == MAX_LENGTH)
      decreases |replies| - n, reading
    {
      if n == |replies| {
        reading := false;
      } else {
        var r := replies[n];
        var c := r.c;
        hasComma := hasComma || c == COMMA;
        var suppress := false;
        if Special(c) {
          suppress := prev == UNDERSCORE;
          c := UNDERSCORE;
        }
        if c >= 32 && c <= 126 && !suppress {
          text[len] := c;
          len := len + 1;
        }
        prev := c;
        n := n + 1;
        OneMoreChar(replies, n - 1);
        reading := len < MAX_LENGTH && !r.timedout && !r.eoi;
      }
    }
    len := Strip(text, len);
  }

  /** "Strip away spaces at end". */
  method Strip(text: array<byte>, length: nat) returns (len: nat)
    requires length <= text.Length
    ensures len <= length && text[..len] == Trimmed(text[..length])
  {
    len := length;
    while len > 1 && text[len - 1] == UNDERSCORE
      invariant len <= length && Trimmed(text[..length]) == Trimmed(text[..len])
      decreases len
    {
      assert text[..len][..len - 1] == text[..len - 1];
      len := len - 1;
    }
  }

  ghost predicate NoDoubles(s: seq<byte>) {
    forall i | 0 <= i < |s| - 1 :: !(s[i] == UNDERSCORE && s[i + 1] == UNDERSCORE)
  }

  /** Two special characters with nothing but unprintable ones between them, and at least one. */
  ghost predicate Gap(cs: seq<byte>, i: nat, j: nat) {
    i + 1 < j < |cs| && Special(cs[i]) && Special(cs[j]) && forall k | i < k < j :: !Printable(cs[k])
  }

  ghost predicate Gapless(cs: seq<byte>) { forall i: nat, j: nat :: !Gap(cs, i, j) }

  /** The last printable character is special. */
  ghost predicate EndsSpecial(cs: seq<byte>, i: nat) {
    i < |cs| && Special(cs[i]) && forall k | i < k < |cs| :: !Printable(cs[k])
  }

  lemma {:induction false} LastStored(cs: seq<byte>)
    ensures (Clean(cs) != [] && Clean(cs)[|Clean(cs)| - 1] == UNDERSCORE) <==> exists i: nat :: EndsSpecial(cs, i)
  {
    if cs != [] {
      var front, c := cs[..|cs| - 1], cs[|cs| - 1];
      LastStored(front);
      if Special(c) {
        assert EndsSpecial(cs, |cs| - 1);
        if front != [] && Special(front[|front| - 1]) { assert EndsSpecial(front, |front| - 1); }
      } else if Kept(c) {
        assert forall i: nat :: EndsSpecial(cs, i) ==> i < |cs| - 1;
      } else {
        assert forall i: nat :: EndsSpecial(cs, i) ==> EndsSpecial(front, i);
        assert forall i: nat :: EndsSpecial(front, i) ==> EndsSpecial(cs, i);
      }
    }
  }

  lemma FrontGaps(cs: seq<byte>)
    requires cs != []
    ensures var front := cs[..|cs| - 1];
      && (Gapless(cs) ==> Gapless(front))
      && (Gapless(front) ==> forall i: nat, j: nat ::
            Gap(cs, i, j) ==> j == |cs| - 1 && EndsSpecial(front, i) && i < |front| - 1)
  {
    var front := cs[..|cs| - 1];
    forall i: nat, j: nat | Gap(front, i, j) ensures Gap(cs, i, j) {
      forall k | i < k < j ensures !Printable(cs[k]) { assert cs[k] == front[k]; }
    }
    forall i: nat, j: nat | Gap(cs, i, j) && j < |front| ensures Gap(front, i, j) {
      forall k | i < k < j ensures !Printable(front[k]) { assert cs[k] == front[k]; }
    }
    forall i: nat, j: nat | Gap(cs, i, j) && j == |cs| - 1 ensures EndsSpecial(front, i) && i < |front| - 1 {
      forall k | i < k < |front| ensures !Printable(front[k]) { assert cs[k] == front[k]; }
    }
  }

  /** Two underscores are stored next to each other exactly if some unprintable characters alone stood
      between two special ones. */
  lemma {:induction false} DoublesComeFromGaps(cs: seq<byte>)
    ensures NoDoubles(Clean(cs)) <==> Gapless(cs)
  {
    if cs != [] {
      var front, c := cs[..|cs| - 1], cs[|cs| - 1];
      DoublesComeFromGaps(front);
      FrontGaps(cs);
      LastStored(front);
      var s, t := Clean(front), Clean(cs);
      if Special(c) && !(front != [] && Special(front[|front| - 1])) {
        assert t == s + [UNDERSCORE];
        if s != [] && s[|s| - 1] == UNDERSCORE {
          var i: nat :| EndsSpecial(front, i);
          assert Gap(cs, i, |cs| - 1) by {
            forall k | i < k < |cs| - 1 ensures !Printable(cs[k]) { assert cs[k] == front[k]; }
          }
          assert t[|s| - 1] == UNDERSCORE && t[|s|] == UNDERSCORE;
        } else {
          assert NoDoubles(t) == NoDoubles(s) by { Extended(s, UNDERSCORE); }
        }
      } else {
        assert NoDoubles(t) == NoDoubles(s) by { if Kept(c) { Extended(s, c); } }
        assert Gapless(front) ==> forall i: nat, j: nat :: !Gap(cs, i, j);
      }
    }
  }

  lemma Extended(s: seq<byte>, c: byte)
    requires !(s != [] && s[|s| - 1] == UNDERSCORE && c == UNDERSCORE)
    ensures NoDoubles(s + [c]) == NoDoubles(s)
  {
    var t := s + [c];
    if NoDoubles(t) {
      forall i | 0 <= i < |s| - 1 ensures !(s[i] == UNDERSCORE && s[i + 1] == UNDERSCORE) {
        assert t[i] == s[i] && t[i + 1] == s[i + 1];
      }
    }
  }

  // ---- After stripping ------------------------------------------------------------------------

  /** The last character that is stored as it is stands at `k`. */
  ghost predicate LastKept(cs: seq<byte>, k: nat) {
    k < |cs| && Kept(cs[k]) && forall l | k < l < |cs| :: !Kept(cs[l])
  }

  /** Stripping leaves what was stored up to the last character kept; without one, a single underscore
      or nothing. */
  lemma {:induction false} StrippedAfterLastKept(cs: seq<byte>)
    ensures forall k: nat | LastKept(cs, k) :: Trimmed(Clean(cs)) == Clean(cs[..k + 1])
    ensures (forall i | 0 <= i < |cs| :: !Kept(cs[i])) ==> Trimmed(Clean(cs)) == [] || Trimmed(Clean(cs)) == [UNDERSCORE]
  {
    if cs != [] {
      var front, c := cs[..|cs| - 1], cs[|cs| - 1];
      StrippedAfterLastKept(front);
      if Kept(c) {
        assert cs[..|cs|] == cs;
      } else {
        assert Clean(cs) == Clean(front) || Clean(cs) == Clean(front) + [UNDERSCORE];
        assert (Clean(front) + [UNDERSCORE])[..|Clean(front)|] == Clean(front);
        forall k: nat | LastKept(cs, k) ensures Trimmed(Clean(cs)) == Clean(cs[..k + 1]) {
          assert LastKept(front, k) && front[..k + 1] == cs[..k + 1];
          KeptIsStored(front, k);
        }
        if forall i | 0 <= i < |cs| :: !Kept(cs[i]) {
          forall i | 0 <= i < |front| ensures !Kept(front[i]) { assert front[i] == cs[i]; }
          OnlyUnderscores(front);
        }
      }
    }
  }

  lemma {:induction false} KeptIsStored(cs: seq<byte>, k: nat)
    requires k < |cs| && Kept(cs[k])
    ensures Clean(cs) != []
  {
    if k < |cs| - 1 { KeptIsStored(cs[..|cs| - 1], k); }
  }

  lemma {:induction false} OnlyUnderscores(cs: seq<byte>)
    requires forall i | 0 <= i < |cs| :: !Kept(cs[i])
    ensures forall i | 0 <= i < |Clean(cs)| :: Clean(cs)[i] == UNDERSCORE
  {
    if cs != [] { OnlyUnderscores(cs[..|cs| - 1]); }
  }

  /** The characters a serial string may contain. */
  lemma {:induction false} OnlyAllowed(cs: seq<byte>)
    ensures forall i | 0 <= i < |Clean(cs)| :: Kept(Clean(cs)[i]) || Clean(cs)[i] == UNDERSCORE
  {
    if cs != [] { OnlyAllowed(cs[..|cs| - 1]); }
  }

  /** The stored string: it is free of doubled underscores if and only if no unprintable characters alone
      stood between two special ones before the last character kept. */
  lemma StoredString(cs: seq<byte>, k: nat)
    requires LastKept(cs, k)
    ensures NoDoubles(Trimmed(Clean(cs))) <==> Gapless(cs[..k + 1])
    ensures Trimmed(Clean(cs)) != [] && Trimmed(Clean(cs))[|Trimmed(Clean(cs))| - 1] == cs[k]
    ensures forall c | c in Trimmed(Clean(cs)) :: Kept(c) || c == UNDERSCORE
  {
    StrippedAfterLastKept(cs);
    DoublesComeFromGaps(cs[..k + 1]);
    OnlyAllowed(cs[..k + 1]);
  }

  /** "A", space, an unprintable character, space, "B" is stored with a doubled underscore. */
  lemma DoubledAfterAll()
    ensures Trimmed(Clean([65, 32, 1, 32, 66])) == [65, 95, 95, 66]
  {
    var cs := [65, 32, 1, 32, 66];
    assert cs[..4] == [65, 32, 1, 32] && cs[..4][..3] == [65, 32, 1] && cs[..4][..3][..2] == [65, 32];
    assert [65, 32][..1] == [65] && [65][..0] == [];
    assert Clean([65, 32]) == [65, 95] && Clean([65, 32, 1]) == [65, 95];
  }
}

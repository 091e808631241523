/** What the handlers of the internal commands do: they change a setting, or they answer a query about one
    through the response buffer. */
module InternalCommands {
  import opened Gpib
  import opened Trace
  import Cmd = CommandParser

  /** The EEPROM bytes 104 (automatic identification), 105 (stored read termination) and 106 (serial
      string). */
  datatype Settings = Settings(autoId: byte, storedTerm: byte, stringMode: byte)

  /** internal_response_buffer. */
  const BUFFER := 8

  /** What internal commands can change: the address of the instrument, the stored settings and the read
      termination character. */
  datatype Config = Config(addr: byte, settings: Settings, term: byte)

  const CR: byte := 13
  const LF: byte := 10

  function Bytes(s: string): (b: seq<byte>)
    requires forall i | 0 <= i < |s| :: s[i] < 128 as char
    ensures |b| == |s|
  {
    seq(|s|, i requires 0 <= i < |s| => s[i] as int)
  }

  /** Settings and read termination after handler `k`, and its answer; empty: it does not answer. */
  function Handle(k: nat, s: Settings, term: byte): (Settings, byte, seq<byte>) {
    if k <= 4 then (s.(autoId := k), term, [])
    else if k == 5 then (s, term, AutoIdAnswer(s.autoId))
    else if k == 6 then (s, CR, [])
    else if k == 7 then (s, LF, [])
    else if k == 8 then (s, 0, [])
    else if k == 9 then (s, term, TermAnswer(term))
    else if k == 10 then (s.(storedTerm := term), term, [])
    else if k == 11 then (s, term, Bytes("V2.4"))
    else if k == 12 then (s.(autoId := 0), term, [])
    else if k == 13 then (s.(autoId := 1), term, [])
    else if k == 14 then (s.(storedTerm := 0), 0, [])
    else if k == 15 then (s.(storedTerm := LF), LF, [])
    else if k == 16 then (s.(storedTerm := CR), CR, [])
    else if k == 19 then (s.(stringMode := 1), term, [])
    else if k == 20 then (s.(stringMode := 0), term, [])
    else if k == 21 then (s, term, if s.stringMode == 1 then Bytes("short") else Bytes("normal"))
    else (s, term, [])
  }

  function AutoIdAnswer(mode: byte): seq<byte> {
    if mode == 4 then Bytes("slowest")
    else if mode == 3 then Bytes("slower")
    else if mode == 2 then Bytes("slow")
    else if mode == 1 then Bytes("off")
    else Bytes("on")
  }

  function TermAnswer(term: byte): seq<byte> {
    if term == CR then Bytes("cr") else if term == LF then Bytes("lf") else Bytes("eoi")
  }

  /** Exactly the four queries answer, and every answer fits the buffer, which set_internal_response
      would otherwise refuse. */
  lemma QueriesAnswer(k: nat, s: Settings, term: byte)
    ensures Handle(k, s, term).2 != [] <==> k == 5 || k == 9 || k == 11 || k == 21
    ensures |Handle(k, s, term).2| < BUFFER
  {
  }

  /** A setting is reported as the word of the command that made it, whatever was set before; an erased
      EEPROM reports the defaults. */
  lemma SettingsAreReported(s: Settings, term: byte)
    ensures Handle(5, Handle(0, s, term).0, term).2 == Bytes("on")
    ensures Handle(5, Handle(1, s, term).0, term).2 == Bytes("off")
    ensures Handle(5, Handle(2, s, term).0, term).2 == Bytes("slow")
    ensures Handle(5, Handle(3, s, term).0, term).2 == Bytes("slower")
    ensures Handle(5, Handle(4, s, term).0, term).2 == Bytes("slowest")
    ensures Handle(9, s, Handle(6, s, term).1).2 == Bytes("cr")
    ensures Handle(9, s, Handle(7, s, term).1).2 == Bytes("lf")
    ensures Handle(9, s, Handle(8, s, term).1).2 == Bytes("eoi")
    ensures Handle(21, Handle(19, s, term).0, term).2 == Bytes("short")
    ensures Handle(21, Handle(20, s, term).0, term).2 == Bytes("normal")
    ensures Handle(5, Settings(255, 255, 255), term).2 == Bytes("on")
    ensures Handle(21, Settings(255, 255, 255), term).2 == Bytes("normal")
  {
    hide Bytes;
  }

  /** The read termination character after start-up. */
  function FirstTerm(s: Settings): byte { if s.storedTerm == LF || s.storedTerm == CR then s.storedTerm else 0 }

  /** An internal command: the handler that the parser selects runs, or the address it wrote is taken; and
      the answer. */
  ghost function Obey(msg: seq<byte>, memory: nat -> byte, c: Config): (Config, seq<byte>) {
    var r := Cmd.Handled(msg);
    var addr := Cmd.NewAddress(r, memory, c.addr);
    if r.ran == [] then (c.(addr := addr), [])
    else
      var (settings, term, answer) := Handle(r.ran[0], c.settings, c.term);
      (Config(addr, settings, term), answer)
  }

  /** The configuration after a history that began with `first`. */
  ghost function ConfigAfter(t: Trace, memory: nat -> byte, first: Config): Config {
    if t.Start? then first
    else
      var c := ConfigAfter(t.past, memory, first);
      match t.ev
      case Internal(msg, _, _) => Obey(msg, memory, c).0
      case EndChar(term) => c.(term := term)
      case _ => c
  }

  /** Every internal command of the history has the answer and the effect on the address that it should
      have, given the commands before it. */
  ghost predicate CommandsSound(t: Trace, memory: nat -> byte, first: Config) {
    t.Then? ==>
      && CommandsSound(t.past, memory, first)
      && (t.ev.Internal? ==>
            var c := ConfigAfter(t.past, memory, first);
            var (d, answer) := Obey(t.ev.msg, memory, c);
            t.ev.answer == answer && t.ev.moved == (d.addr != c.addr))
  }
}

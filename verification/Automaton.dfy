/**
 * The escape-sequence parser of TTyTk-Automaton. Its handlers are modelled by the trace of the
 * events they would receive.
 */
module Automatons {
  import opened Bytes

  datatype Mode = Ground | Escape | Csi | Osc | Dcs | StringEscape

  datatype Event =
    | Print(text: bytes)
    | CsiSequence(payload: bytes)
    | OscString(payload: bytes)
    | DcsString(payload: bytes)
    | Control(code: byte)

  /** The fields of the parser. */
  datatype Parser = Parser(mode: Mode, sequence: bytes, printable: bytes, stringIsOsc: bool)

  const INITIAL := Parser(Ground, [], [], false)

  const CAN: byte := 0x18
  const SUB: byte := 0x1A

  /** A parser and the events it has reported. */
  datatype Outcome = Outcome(parser: Parser, events: seq<Event>)

  // ----- one byte

  function Flushed(p: Parser): seq<Event> {
    if p.printable == [] then [] else [Print(p.printable)]
  }

  function Enter(p: Parser, mode: Mode): Parser {
    p.(mode := mode, sequence := [])
  }

  /** A C1 byte outside ground: an introducer restarts a sequence, 0x9C is dropped, the rest execute. */
  function StepC1(p: Parser, b: byte): Outcome {
    if b == 0x9B then Outcome(Enter(p, Csi), [])
    else if b == 0x9D then Outcome(Enter(p, Osc), [])
    else if b == 0x90 then Outcome(Enter(p, Dcs), [])
    else if b != 0x9C then Outcome(p, [Control(b)])
    else Outcome(p, [])
  }

  function StepGround(p: Parser, b: byte): Outcome {
    var quiet := p.(printable := []);
    if b < 0x20 || b == 0x7F then Outcome(quiet, Flushed(p) + if b != 0x7F then [Control(b)] else [])
    else if b == 0x9B then Outcome(Enter(quiet, Csi), Flushed(p))
    else if b == 0x9D then Outcome(Enter(quiet, Osc), Flushed(p))
    else if b == 0x90 then Outcome(Enter(quiet, Dcs), Flushed(p))
    else Outcome(p.(printable := p.printable + [b]), [])
  }

  function StepEscape(p: Parser, b: byte): Outcome {
    if b < 0x20 then Outcome(p, [Control(b)])
    else if b == LEFT_BRACKET then Outcome(Enter(p, Csi), [])
    else if b == RIGHT_BRACKET then Outcome(Enter(p, Osc), [])
    else if b == LETTER_P then Outcome(Enter(p, Dcs), [])
    else Outcome(p.(mode := Ground), [])
  }

  function StepCsi(p: Parser, b: byte): Outcome {
    if 0x40 <= b <= 0x7E then Outcome(Enter(p, Ground), [CsiSequence(p.sequence + [b])])
    else if 0x20 <= b <= 0x3F then Outcome(p.(sequence := p.sequence + [b]), [])
    else if b < 0x20 then Outcome(p, [Control(b)])
    else Outcome(p, [])
  }

  function StepOsc(p: Parser, b: byte): Outcome {
    if b == BEL || b == 0x9C then Outcome(Enter(p, Ground), [OscString(p.sequence)])
    else if b >= 0x20 then Outcome(p.(sequence := p.sequence + [b]), [])
    else Outcome(p, [])
  }

  function StepDcs(p: Parser, b: byte): Outcome {
    if b == 0x9C then Outcome(Enter(p, Ground), [DcsString(p.sequence)])
    else if b >= 0x20 then Outcome(p.(sequence := p.sequence + [b]), [])
    else Outcome(p, [])
  }

  function StepStringEscape(p: Parser, b: byte): Outcome {
    if b == BACKSLASH then
      Outcome(Enter(p, Ground), [if p.stringIsOsc then OscString(p.sequence) else DcsString(p.sequence)])
    else
      Outcome(p.(mode := if p.stringIsOsc then Osc else Dcs, sequence := p.sequence + [ESC, b]), [])
  }

  /** `feed_byte`. */
  function Step(p: Parser, b: byte): Outcome {
    if b == ESC && p.mode == Osc then Outcome(p.(mode := StringEscape, stringIsOsc := true), [])
    else if b == ESC && p.mode == Dcs then Outcome(p.(mode := StringEscape, stringIsOsc := false), [])
    else if b == ESC then Outcome(Enter(p.(printable := []), Escape), Flushed(p))
    else if b == CAN || b == SUB then Outcome(Enter(p.(printable := []), Ground), Flushed(p))
    else if p.mode != Ground && 0x80 <= b <= 0x9F then StepC1(p, b)
    else
      match p.mode
      case Ground => StepGround(p, b)
      case Escape => StepEscape(p, b)
      case Csi => StepCsi(p, b)
      case Osc => StepOsc(p, b)
      case Dcs => StepDcs(p, b)
      case StringEscape => StepStringEscape(p, b)
  }

  // ----- many bytes

  function StepAll(p: Parser, input: bytes): Outcome
    decreases |input|
  {
    if input == [] then Outcome(p, [])
    else
      var first := Step(p, input[0]);
      var rest := StepAll(first.parser, input[1..]);
      Outcome(rest.parser, first.events + rest.events)
  }

  /** `feed`: all bytes, then the pending text. */
  function Fed(p: Parser, input: bytes): Outcome {
    var o := StepAll(p, input);
    Outcome(o.parser.(printable := []), o.events + Flushed(o.parser))
  }

  function FedChunks(p: Parser, chunks: seq<bytes>): Outcome
    decreases |chunks|
  {
    if chunks == [] then Outcome(p, [])
    else
      var first := Fed(p, chunks[0]);
      var rest := FedChunks(first.parser, chunks[1..]);
      Outcome(rest.parser, first.events + rest.events)
  }

  // ----- the class

  class Automaton {
    var mode: Mode
    var sequence: bytes
    var printable: bytes
    var stringIsOsc: bool
    /** What the handlers have been called with, in order. */
    var trace: seq<Event>

    function View(): Parser
      reads this
    {
      Parser(mode, sequence, printable, stringIsOsc)
    }

    constructor ()
      ensures View() == INITIAL && trace == []
    {
      mode, sequence, printable, stringIsOsc, trace := Ground, [], [], false, [];
    }

    method Reset()
      modifies this
      ensures View() == INITIAL && trace == old(trace)
    {
      mode, sequence, printable, stringIsOsc := Ground, [], [], false;
    }

    /** `feed`. */
    method Feed(input: bytes)
      modifies this
      ensures View() == Fed(old(View()), input).parser
      ensures trace == old(trace) + Fed(old(View()), input).events
    {
      hide Step;
      for i := 0 to |input|
        invariant StepAll(View(), input[i..]).parser == StepAll(old(View()), input).parser
        invariant trace + StepAll(View(), input[i..]).events == old(trace) + StepAll(old(View()), input).events
      {
        assert input[i..][1..] == input[i + 1..];
        FeedByte(input[i]);
      }
      assert input[|input|..] == [];
      assert trace == old(trace) + StepAll(old(View()), input).events;
      FlushPrintable();
    }

    method FlushPrintable()
      modifies this
      ensures View() == old(View()).(printable := []) && trace == old(trace) + Flushed(old(View()))
    {
      if printable != [] {
        trace := trace + [Print(printable)];
      }
      printable := [];
    }

    method EnterEscape()
      modifies this
      ensures View() == Enter(old(View()).(printable := []), Escape)
      ensures trace == old(trace) + Flushed(old(View()))
    {
      FlushPrintable();
      sequence := [];
      mode := Escape;
    }

    method Begin(next: Mode)
      modifies this
      ensures View() == Enter(old(View()), next) && trace == old(trace)
    {
      sequence := [];
      mode := next;
    }

    method DispatchAndGround(event: Event)
      modifies this
      ensures View() == Enter(old(View()), Ground) && trace == old(trace) + [event]
    {
      trace := trace + [event];
      sequence := [];
      mode := Ground;
    }

    method Execute(code: byte)
      modifies this`trace
      ensures trace == old(trace) + [Control(code)]
    {
      trace := trace + [Control(code)];
    }

    method FeedByte(b: byte)
      modifies this
      ensures View() == Step(old(View()), b).parser
      ensures trace == old(trace) + Step(old(View()), b).events
    {
      if b == ESC && mode == Osc {
        mode := StringEscape;
        stringIsOsc := true;
        return;
      }
      if b == ESC && mode == Dcs {
        mode := StringEscape;
        stringIsOsc := false;
        return;
      }
      if b == ESC {
        EnterEscape();
        return;
      }
      if b == CAN || b == SUB {
        FlushPrintable();
        Begin(Ground);
        return;
      }
      if mode != Ground && 0x80 <= b <= 0x9F {
        if b == 0x9B {
          Begin(Csi);
        } else if b == 0x9D {
          Begin(Osc);
        } else if b == 0x90 {
          Begin(Dcs);
        } else if b != 0x9C {
          Execute(b);
        }
        return;
      }
      match mode {
        case Ground => FeedGround(b);
        case Escape =>
          if b < 0x20 {
            Execute(b);
          } else if b == LEFT_BRACKET {
            Begin(Csi);
          } else if b == RIGHT_BRACKET {
            Begin(Osc);
          } else if b == LETTER_P {
            Begin(Dcs);
          } else {
            mode := Ground;
          }
        case Csi =>
          if 0x40 <= b <= 0x7E {
            sequence := sequence + [b];
            DispatchAndGround(CsiSequence(sequence));
          } else if 0x20 <= b <= 0x3F {
            sequence := sequence + [b];
          } else if b < 0x20 {
            Execute(b);
          }
        case Osc =>
          if b == BEL || b == 0x9C {
            DispatchAndGround(OscString(sequence));
          } else if b >= 0x20 {
            sequence := sequence + [b];
          }
        case Dcs =>
          // 0x9C has been dropped above, so the branch that would dispatch on it is never taken.
          if b >= 0x20 {
            sequence := sequence + [b];
          }
        case StringEscape =>
          if b == BACKSLASH {
            DispatchAndGround(if stringIsOsc then OscString(sequence) else DcsString(sequence));
          } else {
            sequence := sequence + [ESC];
            sequence := sequence + [b];
            mode := if stringIsOsc then Osc else Dcs;
          }
      }
    }

    method FeedGround(b: byte)
      modifies this
      ensures View() == StepGround(old(View()), b).parser
      ensures trace == old(trace) + StepGround(old(View()), b).events
    {
      if b < 0x20 || b == 0x7F {
        FlushPrintable();
        if b != 0x7F {
          Execute(b);
        }
      } else if b == 0x9B {
        FlushPrintable();
        Begin(Csi);
      } else if b == 0x9D {
        FlushPrintable();
        Begin(Osc);
      } else if b == 0x90 {
        FlushPrintable();
        Begin(Dcs);
      } else {
        printable := printable + [b];
      }
    }
  }
}

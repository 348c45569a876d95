/**
 * The parser reads back everything a stream can be made of: text, controls, escape sequences of one
 * byte, CSI sequences with controls within them, and strings, each with either introducer. What each
 * construct reports is said by filtering its bytes, without the states of the parser.
 */
module AutomatonRoundTrip {
  import opened Bytes
  import opened Automatons
  import opened AutomatonLaws

  // ----- the bytes of a stream

  predicate C1(b: byte) {
    0x80 <= b <= 0x9F
  }

  /** DCS, CSI and OSC as single bytes. */
  predicate Introducer(b: byte) {
    b == 0x90 || b == 0x9B || b == 0x9D
  }

  /** What ends or restarts every sequence. */
  predicate Interrupts(b: byte) {
    b == ESC || b == CAN || b == SUB || Introducer(b)
  }

  predicate PrintableByte(b: byte) {
    b >= 0x20 && b != 0x7F && !Introducer(b)
  }

  /** A byte that a string collects. */
  predicate StringByte(b: byte) {
    b >= 0x20 && !C1(b)
  }

  /** The C0 and C1 controls among the bytes, 0x9C excepted: they are reported and disturb nothing. */
  function Controls(s: bytes): seq<Event> {
    if s == [] then []
    else (if s[0] < 0x20 || (C1(s[0]) && s[0] != 0x9C) then [Control(s[0])] else []) + Controls(s[1..])
  }

  /** The parameter and intermediate bytes. */
  function Parameters(s: bytes): bytes {
    if s == [] then [] else (if 0x20 <= s[0] <= 0x3F then [s[0]] else []) + Parameters(s[1..])
  }

  // ----- the constructs of a stream

  /** A sequence starts with ESC and a letter, perhaps with controls before the letter, or with one byte. */
  datatype Opening = SevenBit(controls: bytes) | EightBit

  /** A byte of a string, or ESC and a byte that does not end it, perhaps with C1 controls before that byte. */
  datatype Part = Plain(b: byte) | Resumed(controls: bytes, b: byte)

  datatype Closing = Bell | Backslash(controls: bytes)

  datatype Unit =
    | Text(text: bytes)
    | Single(code: byte)
    | Escaped(controls: bytes, final: byte)
    | Sequence(opening: Opening, body: bytes, final: byte)
    | String(mode: Mode, opening: Opening, parts: seq<Part>, closing: Closing)

  predicate EachControl(s: bytes) {
    forall k :: 0 <= k < |s| ==> (s[k] < 0x20 || C1(s[k])) && !Interrupts(s[k])
  }

  predicate EachC1(s: bytes) {
    forall k :: 0 <= k < |s| ==> C1(s[k]) && !Introducer(s[k])
  }

  predicate OpeningOk(opening: Opening) {
    opening.SevenBit? ==> EachControl(opening.controls)
  }

  predicate BodyOk(body: bytes) {
    forall k :: 0 <= k < |body| ==> !Interrupts(body[k]) && !(0x40 <= body[k] <= 0x7E)
  }

  predicate PartOk(mode: Mode, part: Part) {
    match part
    case Plain(b) => !Interrupts(b) && (mode == Osc ==> b != BEL)
    case Resumed(controls, b) => EachC1(controls) && b != BACKSLASH && !Interrupts(b) && !C1(b)
  }

  predicate UnitOk(u: Unit) {
    match u
    case Text(text) => text != [] && forall k :: 0 <= k < |text| ==> PrintableByte(text[k])
    case Single(code) => (code < 0x20 || code == 0x7F) && !Interrupts(code)
    case Escaped(controls, final) =>
      EachControl(controls) && final >= 0x20 && !C1(final) && final !in {LEFT_BRACKET, RIGHT_BRACKET, LETTER_P}
    case Sequence(opening, body, final) => OpeningOk(opening) && BodyOk(body) && 0x40 <= final <= 0x7E
    case String(mode, opening, parts, closing) =>
      && (mode == Osc || mode == Dcs) && OpeningOk(opening)
      && (forall k :: 0 <= k < |parts| ==> PartOk(mode, parts[k]))
      && (if closing.Bell? then mode == Osc else EachC1(closing.controls))
  }

  // ----- what a construct is written as, and what it reports

  function EncodeOpening(opening: Opening, mode: Mode): bytes {
    if opening.EightBit? then [if mode == Csi then 0x9B else if mode == Osc then 0x9D else 0x90]
    else
      [ESC] + opening.controls
      + [if mode == Csi then LEFT_BRACKET else if mode == Osc then RIGHT_BRACKET else LETTER_P]
  }

  function EncodePart(part: Part): bytes {
    match part
    case Plain(b) => [b]
    case Resumed(controls, b) => [ESC] + controls + [b]
  }

  function EncodeParts(parts: seq<Part>): bytes {
    if parts == [] then [] else EncodePart(parts[0]) + EncodeParts(parts[1..])
  }

  function EncodeClosing(closing: Closing): bytes {
    if closing.Bell? then [BEL] else [ESC] + closing.controls + [BACKSLASH]
  }

  function EncodeUnit(u: Unit): bytes {
    match u
    case Text(text) => text
    case Single(code) => [code]
    case Escaped(controls, final) => [ESC] + controls + [final]
    case Sequence(opening, body, final) => EncodeOpening(opening, Csi) + body + [final]
    case String(mode, opening, parts, closing) =>
      EncodeOpening(opening, mode) + EncodeParts(parts) + EncodeClosing(closing)
  }

  function OpeningControls(opening: Opening): seq<Event> {
    if opening.SevenBit? then Controls(opening.controls) else []
  }

  /** Within a string C1 controls are reported, and C0 controls are dropped. */
  function PartControls(part: Part): seq<Event> {
    match part
    case Plain(b) => if C1(b) then Controls([b]) else []
    case Resumed(controls, _) => Controls(controls)
  }

  function PartsControls(parts: seq<Part>): seq<Event> {
    if parts == [] then [] else PartControls(parts[0]) + PartsControls(parts[1..])
  }

  /** The string itself: its bytes, with each ESC that did not end it. */
  function Collected(parts: seq<Part>): bytes {
    if parts == [] then []
    else
      (match parts[0]
       case Plain(b) => if StringByte(b) then [b] else []
       case Resumed(_, b) => [ESC, b])
      + Collected(parts[1..])
  }

  function Reported(u: Unit): seq<Event> {
    match u
    case Text(text) => [Print(text)]
    case Single(code) => if code == 0x7F then [] else [Control(code)]
    case Escaped(controls, _) => Controls(controls)
    case Sequence(opening, body, final) =>
      OpeningControls(opening) + Controls(body) + [CsiSequence(Parameters(body) + [final])]
    case String(mode, opening, parts, closing) =>
      OpeningControls(opening) + PartsControls(parts)
      + ((if closing.Bell? then [] else Controls(closing.controls))
         + [if mode == Osc then OscString(Collected(parts)) else DcsString(Collected(parts))])
  }

  function EncodeUnits(units: seq<Unit>): bytes {
    if units == [] then [] else EncodeUnit(units[0]) + EncodeUnits(units[1..])
  }

  function ReportedAll(units: seq<Unit>): seq<Event> {
    if units == [] then [] else Reported(units[0]) + ReportedAll(units[1..])
  }

  // ----- one part after another

  lemma StepAllOne(p: Parser, a: byte)
    ensures StepAll(p, [a]) == Step(p, a)
  {
    hide Step;
    assert [a][1..] == [] && Step(p, a).events + [] == Step(p, a).events;
  }

  lemma ThreeParts(p: Parser, a: bytes, b: bytes, c: bytes)
    ensures var first := StepAll(p, a);
            var second := StepAll(first.parser, b);
            var third := StepAll(second.parser, c);
            StepAll(p, a + b + c) == Outcome(third.parser, first.events + second.events + third.events)
  {
    hide Step, StepAll;
    StepAllAppend(p, a + b, c);
    StepAllAppend(p, a, b);
  }

  /** A ground parser with some text pending. */
  predicate Resting(p: Parser) {
    p.mode == Ground && p.sequence == []
  }

  lemma {:induction false} GroundPrints(p: Parser, text: bytes)
    requires Resting(p) && forall i :: 0 <= i < |text| ==> PrintableByte(text[i])
    ensures StepAll(p, text) == Outcome(p.(printable := p.printable + text), [])
    decreases |text|
  {
    hide Step, PrintableByte;
    if text == [] {
      assert p.printable + text == p.printable;
    } else {
      StepPrints(p, text[0]);
      GroundPrints(p.(printable := p.printable + [text[0]]), text[1..]);
      assert p.printable + text == p.printable + [text[0]] + text[1..];
    }
  }

  lemma StepPrints(p: Parser, b: byte)
    requires Resting(p) && PrintableByte(b)
    ensures Step(p, b) == Outcome(p.(printable := p.printable + [b]), [])
  {
  }

  /** Controls inside an escape sequence, and C1 controls behind the ESC of a string, leave the state alone. */
  lemma {:induction false} ControlsRun(p: Parser, s: bytes)
    requires (p.mode == Escape && EachControl(s)) || (p.mode == StringEscape && EachC1(s))
    ensures StepAll(p, s) == Outcome(p, Controls(s))
    decreases |s|
  {
    hide Step;
    if s != [] {
      ControlRuns(p, s[0]);
      ControlsRun(p, s[1..]);
    }
  }

  lemma ControlRuns(p: Parser, b: byte)
    requires p.mode == Escape || p.mode == StringEscape
    requires C1(b) || (p.mode == Escape && b < 0x20)
    requires !Interrupts(b)
    ensures Step(p, b) == Outcome(p, if b != 0x9C then [Control(b)] else [])
  {
  }

  lemma StepEscapes(p: Parser)
    ensures p.mode == Ground ==> Step(p, ESC) == Outcome(Enter(p.(printable := []), Escape), Flushed(p))
    ensures p.mode == Osc || p.mode == Dcs ==>
              Step(p, ESC) == Outcome(p.(mode := StringEscape, stringIsOsc := p.mode == Osc), [])
  {
  }

  /** ESC, some controls, and one byte more. */
  lemma EscapeRuns(p: Parser, controls: bytes, b: byte)
    requires (p.mode == Ground && EachControl(controls)) || (p.mode in {Osc, Dcs} && EachC1(controls))
    ensures var at := Step(p, ESC);
            var last := Step(at.parser, b);
            StepAll(p, [ESC] + controls + [b]) == Outcome(last.parser, at.events + Controls(controls) + last.events)
  {
    hide Step, StepAll, Controls;
    StepEscapes(p);
    ThreeParts(p, [ESC], controls, [b]);
    StepAllOne(p, ESC);
    var at := Step(p, ESC).parser;
    ControlsRun(at, controls);
    StepAllOne(at, b);
  }

  lemma StepOpens(p: Parser, mode: Mode)
    requires mode == Csi || mode == Osc || mode == Dcs
    ensures var letter := if mode == Csi then LEFT_BRACKET else if mode == Osc then RIGHT_BRACKET else LETTER_P;
            p.mode == Escape ==> Step(p, letter) == Outcome(Enter(p, mode), [])
    ensures var introducer := if mode == Csi then 0x9B else if mode == Osc then 0x9D else 0x90;
            p.mode == Ground ==> Step(p, introducer) == Outcome(Enter(p.(printable := []), mode), Flushed(p))
  {
  }

  lemma Opens(p: Parser, opening: Opening, mode: Mode)
    requires Resting(p) && OpeningOk(opening) && (mode == Csi || mode == Osc || mode == Dcs)
    ensures StepAll(p, EncodeOpening(opening, mode))
         == Outcome(Enter(p.(printable := []), mode), Flushed(p) + OpeningControls(opening))
  {
    hide Step, StepAll, Controls, Flushed;
    StepOpens(p, mode);
    if opening.EightBit? {
      StepAllOne(p, EncodeOpening(opening, mode)[0]);
      assert Flushed(p) + [] == Flushed(p);
    } else {
      StepEscapes(p);
      var escape := Enter(p.(printable := []), Escape);
      StepOpens(escape, mode);
      EscapeRuns(p, opening.controls,
                 if mode == Csi then LEFT_BRACKET else if mode == Osc then RIGHT_BRACKET else LETTER_P);
      assert Flushed(p) + Controls(opening.controls) + [] == Flushed(p) + Controls(opening.controls);
    }
  }

  // ----- the body of a CSI sequence

  lemma StepBody(p: Parser, b: byte)
    requires p.mode == Csi && !Interrupts(b) && !(0x40 <= b <= 0x7E)
    ensures Step(p, b) == Outcome(p.(sequence := p.sequence + if 0x20 <= b <= 0x3F then [b] else []),
                                  if b < 0x20 || (C1(b) && b != 0x9C) then [Control(b)] else [])
  {
    assert p.sequence + [] == p.sequence;
  }

  lemma {:induction false} BodyRuns(p: Parser, body: bytes)
    requires p.mode == Csi && BodyOk(body)
    ensures StepAll(p, body) == Outcome(p.(sequence := p.sequence + Parameters(body)), Controls(body))
    decreases |body|
  {
    hide Step, C1;
    if body == [] {
      assert p.sequence + [] == p.sequence;
    } else {
      StepBody(p, body[0]);
      var one := if 0x20 <= body[0] <= 0x3F then [body[0]] else [];
      BodyRuns(p.(sequence := p.sequence + one), body[1..]);
      assert p.sequence + one + Parameters(body[1..]) == p.sequence + (one + Parameters(body[1..]));
    }
  }

  lemma StepFinal(p: Parser, final: byte)
    requires p.mode == Csi && 0x40 <= final <= 0x7E
    ensures Step(p, final) == Outcome(Enter(p, Ground), [CsiSequence(p.sequence + [final])])
  {
  }

  lemma SequenceRuns(p: Parser, u: Unit)
    requires Resting(p) && u.Sequence? && UnitOk(u)
    ensures var o := StepAll(p, EncodeUnit(u));
            Resting(o.parser) && o.parser.printable == [] && o.events == Flushed(p) + Reported(u)
  {
    hide Step, StepAll, Controls, Flushed, Parameters, EncodeOpening, OpeningControls;
    var at := Enter(p.(printable := []), Csi);
    var read := at.(sequence := [] + Parameters(u.body));
    ThreeParts(p, EncodeOpening(u.opening, Csi), u.body, [u.final]);
    Opens(p, u.opening, Csi);
    BodyRuns(at, u.body);
    StepAllOne(read, u.final);
    StepFinal(read, u.final);
    var x, y, z := OpeningControls(u.opening), Controls(u.body), [CsiSequence([] + Parameters(u.body) + [u.final])];
    assert [] + Parameters(u.body) == Parameters(u.body);
    assert Flushed(p) + x + y + z == Flushed(p) + (x + y + z);
  }

  // ----- the parts of a string

  lemma StepInString(p: Parser, b: byte)
    requires (p.mode == Osc || p.mode == Dcs) && PartOk(p.mode, Plain(b))
    ensures Step(p, b) == Outcome(p.(sequence := p.sequence + if StringByte(b) then [b] else []),
                                  if C1(b) && b != 0x9C then [Control(b)] else [])
  {
    assert p.sequence + [] == p.sequence;
  }

  lemma StepResumes(p: Parser, b: byte)
    requires p.mode == StringEscape && b != BACKSLASH && !Interrupts(b) && !C1(b)
    ensures Step(p, b)
         == Outcome(p.(mode := if p.stringIsOsc then Osc else Dcs, sequence := p.sequence + [ESC, b]), [])
  {
  }

  /** What the parser is while it collects a string. */
  ghost predicate Collecting(p: Parser, mode: Mode, sequence: bytes) {
    p.mode == mode && p.sequence == sequence && p.printable == []
  }

  lemma PartRuns(p: Parser, part: Part)
    requires (p.mode == Osc || p.mode == Dcs) && p.printable == [] && PartOk(p.mode, part)
    ensures var o := StepAll(p, EncodePart(part));
            && Collecting(o.parser, p.mode, p.sequence + Collected([part]))
            && o.events == PartControls(part)
  {
    hide Step, StepAll;
    assert [part][1..] == [] && Collected([]) == [];
    match part
    case Plain(b) =>
      StepAllOne(p, b);
      StepInString(p, b);
      OneControl(b);
    case Resumed(controls, b) =>
      hide Controls;
      StepEscapes(p);
      EscapeRuns(p, controls, b);
      StepResumes(p.(mode := StringEscape, stringIsOsc := p.mode == Osc), b);
      assert [] + Controls(controls) + [] == Controls(controls);
  }

  lemma OneControl(b: byte)
    ensures Controls([b]) == if b < 0x20 || (C1(b) && b != 0x9C) then [Control(b)] else []
  {
    assert [b][1..] == [];
  }

  lemma {:induction false} PartsRun(p: Parser, parts: seq<Part>)
    requires (p.mode == Osc || p.mode == Dcs) && p.printable == []
    requires forall k :: 0 <= k < |parts| ==> PartOk(p.mode, parts[k])
    ensures var o := StepAll(p, EncodeParts(parts));
            Collecting(o.parser, p.mode, p.sequence + Collected(parts)) && o.events == PartsControls(parts)
    decreases |parts|
  {
    hide Step, StepAll, PartOk, EncodePart, PartControls, EncodeParts, PartsControls, Collected;
    if parts == [] {
      NothingRuns(p);
      NoParts();
      assert p.sequence + [] == p.sequence;
    } else {
      PartRuns(p, parts[0]);
      var o := StepAll(p, EncodePart(parts[0]));
      PartsRun(o.parser, parts[1..]);
      StepAllAppend(p, EncodePart(parts[0]), EncodeParts(parts[1..]));
      PartsCons(parts);
      assert p.sequence + Collected([parts[0]]) + Collected(parts[1..])
          == p.sequence + (Collected([parts[0]]) + Collected(parts[1..]));
    }
  }

  lemma NoParts()
    ensures EncodeParts([]) == [] && PartsControls([]) == [] && Collected([]) == []
  {
  }

  lemma PartsCons(parts: seq<Part>)
    requires parts != []
    ensures EncodeParts(parts) == EncodePart(parts[0]) + EncodeParts(parts[1..])
    ensures PartsControls(parts) == PartControls(parts[0]) + PartsControls(parts[1..])
    ensures Collected(parts) == Collected([parts[0]]) + Collected(parts[1..])
  {
    hide EncodePart, PartControls, StringByte;
    assert [parts[0]][1..] == [] && Collected([]) == [];
  }

  lemma NothingRuns(p: Parser)
    ensures StepAll(p, []) == Outcome(p, [])
  {
  }

  lemma StepCloses(p: Parser)
    ensures p.mode == Osc ==> Step(p, BEL) == Outcome(Enter(p, Ground), [OscString(p.sequence)])
    ensures p.mode == StringEscape ==>
              Step(p, BACKSLASH)
              == Outcome(Enter(p, Ground), [if p.stringIsOsc then OscString(p.sequence) else DcsString(p.sequence)])
  {
  }

  lemma Closes(p: Parser, closing: Closing)
    requires p.mode == Osc || p.mode == Dcs
    requires if closing.Bell? then p.mode == Osc else EachC1(closing.controls)
    ensures var o := StepAll(p, EncodeClosing(closing));
            && Resting(o.parser) && o.parser.printable == p.printable
            && o.events == (if closing.Bell? then [] else Controls(closing.controls))
                           + [if p.mode == Osc then OscString(p.sequence) else DcsString(p.sequence)]
  {
    hide Step, StepAll, Controls;
    StepCloses(p);
    if closing.Bell? {
      StepAllOne(p, BEL);
    } else {
      StepEscapes(p);
      EscapeRuns(p, closing.controls, BACKSLASH);
      StepCloses(p.(mode := StringEscape, stringIsOsc := p.mode == Osc));
      assert [] + Controls(closing.controls) == Controls(closing.controls);
    }
  }

  lemma StringRuns(p: Parser, u: Unit)
    requires Resting(p) && u.String? && UnitOk(u)
    ensures var o := StepAll(p, EncodeUnit(u));
            Resting(o.parser) && o.parser.printable == [] && o.events == Flushed(p) + Reported(u)
  {
    hide Step, StepAll, Controls, Flushed, EncodeOpening, EncodeParts, EncodeClosing, OpeningControls, PartsControls;
    hide Collected, PartOk, EachC1;
    var at := Enter(p.(printable := []), u.mode);
    ThreeParts(p, EncodeOpening(u.opening, u.mode), EncodeParts(u.parts), EncodeClosing(u.closing));
    Opens(p, u.opening, u.mode);
    PartsRun(at, u.parts);
    Closes(StepAll(at, EncodeParts(u.parts)).parser, u.closing);
    assert [] + Collected(u.parts) == Collected(u.parts);
    var x, y := OpeningControls(u.opening), PartsControls(u.parts);
    var z := (if u.closing.Bell? then [] else Controls(u.closing.controls))
             + [if u.mode == Osc then OscString(Collected(u.parts)) else DcsString(Collected(u.parts))];
    assert Flushed(p) + x + y + z == Flushed(p) + (x + y + z);
  }

  // ----- any construct

  lemma StepSingle(p: Parser, code: byte)
    requires Resting(p) && (code < 0x20 || code == 0x7F) && !Interrupts(code)
    ensures Step(p, code) == Outcome(p.(printable := []), Flushed(p) + if code == 0x7F then [] else [Control(code)])
  {
  }

  lemma StepReturns(p: Parser, b: byte)
    requires p.mode == Escape && b >= 0x20 && !C1(b) && b !in {LEFT_BRACKET, RIGHT_BRACKET, LETTER_P}
    ensures Step(p, b) == Outcome(p.(mode := Ground), [])
  {
  }

  lemma EscapedRuns(p: Parser, u: Unit)
    requires Resting(p) && u.Escaped? && UnitOk(u)
    ensures StepAll(p, EncodeUnit(u)) == Outcome(p.(printable := []), Flushed(p) + Reported(u))
  {
    hide Step, StepAll, Controls, Flushed;
    StepEscapes(p);
    EscapeRuns(p, u.controls, u.final);
    StepReturns(Enter(p.(printable := []), Escape), u.final);
    assert Flushed(p) + Controls(u.controls) + [] == Flushed(p) + Controls(u.controls);
  }

  /** What a resting parser makes of one construct: its pending text first, then what the construct reports. */
  lemma UnitRuns(p: Parser, u: Unit)
    requires Resting(p) && UnitOk(u)
    ensures var o := StepAll(p, EncodeUnit(u));
            && Resting(o.parser)
            && if u.Text? then o.parser.printable == p.printable + u.text && o.events == []
               else o.parser.printable == [] && o.events == Flushed(p) + Reported(u)
  {
    hide StepAll, Step, PrintableByte, Controls;
    match u
    case Text(text) => GroundPrints(p, text);
    case Single(code) =>
      StepAllOne(p, code);
      StepSingle(p, code);
    case Escaped(_, _) => EscapedRuns(p, u);
    case Sequence(_, _, _) => SequenceRuns(p, u);
    case String(_, _, _, _) => StringRuns(p, u);
  }

  // ----- a whole stream

  lemma PrintThenPrint(joined: seq<Event>, x: bytes, y: bytes, rest: seq<Event>)
    requires y != []
    ensures JoinFrom(joined, [Print(x + y)] + rest)
         == JoinFrom(joined, (if x == [] then [] else [Print(x)]) + ([Print(y)] + rest))
  {
    hide Push, JoinFrom;
    if x == [] {
      assert x + y == y && [] + ([Print(y)] + rest) == [Print(y)] + rest;
    } else {
      TextThenEvents(joined, x, y, rest);
    }
  }

  /** One construct more: what is reported and still pending after it stands for what was pending and the construct. */
  lemma AfterOne(joined: seq<Event>, p: Parser, u: Unit, rest: seq<Event>)
    requires Resting(p) && UnitOk(u)
    ensures var o := StepAll(p, EncodeUnit(u));
            && Resting(o.parser)
            && JoinFrom(joined, (o.events + Flushed(o.parser)) + rest)
               == JoinFrom(joined, Flushed(p) + (Reported(u) + rest))
  {
    hide StepAll, EncodeUnit, JoinFrom, UnitOk, Reported;
    UnitRuns(p, u);
    var o := StepAll(p, EncodeUnit(u));
    if u.Text? {
      TextOf(u);
      PrintThenPrint(joined, p.printable, u.text, rest);
      assert o.events + Flushed(o.parser) == [Print(p.printable + u.text)];
    } else {
      assert o.events + Flushed(o.parser) == Flushed(p) + Reported(u);
      assert (Flushed(p) + Reported(u)) + rest == Flushed(p) + (Reported(u) + rest);
    }
  }

  lemma TextOf(u: Unit)
    requires UnitOk(u) && u.Text?
    ensures u.text != [] && Reported(u) == [Print(u.text)]
  {
  }

  lemma UnitsCons(units: seq<Unit>)
    requires units != []
    ensures EncodeUnits(units) == EncodeUnit(units[0]) + EncodeUnits(units[1..])
    ensures ReportedAll(units) == Reported(units[0]) + ReportedAll(units[1..])
  {
    hide EncodeUnit, Reported;
  }

  lemma NoUnits(joined: seq<Event>, p: Parser)
    ensures JoinFrom(joined, Fed(p, EncodeUnits([])).events) == JoinFrom(joined, Flushed(p) + ReportedAll([]))
  {
    assert Flushed(p) + [] == Flushed(p) == [] + Flushed(p);
  }

  lemma {:induction false} UnitsRun(joined: seq<Event>, p: Parser, units: seq<Unit>)
    requires Resting(p) && forall k :: 0 <= k < |units| ==> UnitOk(units[k])
    ensures JoinFrom(joined, Fed(p, EncodeUnits(units)).events) == JoinFrom(joined, Flushed(p) + ReportedAll(units))
    decreases |units|
  {
    hide *;
    if units == [] {
      NoUnits(joined, p);
    } else {
      var u, rest := units[0], units[1..];
      UnitsCons(units);
      AfterOne(joined, p, u, ReportedAll(rest));
      FedAppend(p, EncodeUnit(u), EncodeUnits(rest));
      var o := StepAll(p, EncodeUnit(u));
      UnitsRun(JoinFrom(joined, o.events), o.parser, rest);
      JoinContinues(joined, o.events, Fed(o.parser, EncodeUnits(rest)).events, Flushed(o.parser), ReportedAll(rest));
    }
  }

  /**
   * From a fresh parser any stream of constructs reports what its constructs do, one after another, up
   * to joining adjacent prints.
   */
  lemma StreamIsRead(units: seq<Unit>)
    requires forall k :: 0 <= k < |units| ==> UnitOk(units[k])
    ensures Joined(Fed(INITIAL, EncodeUnits(units)).events) == Joined(ReportedAll(units))
  {
    UnitsRun([], INITIAL, units);
    assert [] + ReportedAll(units) == ReportedAll(units);
  }

  /** ESC and a byte that introduces nothing are passed over: what follows is read as if they were not there. */
  lemma EscapeIsPassedOver(b: byte, input: bytes)
    requires b >= 0x20 && !C1(b) && b !in {LEFT_BRACKET, RIGHT_BRACKET, LETTER_P}
    ensures Fed(INITIAL, [ESC, b] + input) == Fed(INITIAL, input)
  {
    hide StepAll, Step, Fed;
    EscapedRuns(INITIAL, Escaped([], b));
    assert [ESC] + [] + [b] == [ESC, b] && Controls([]) == [];
    FedAppend(INITIAL, [ESC, b], input);
  }

  /** An introducer of one byte, or ESC outside a string, abandons whatever was being read. */
  lemma RestartRecovers(p: Parser, b: byte, input: bytes)
    requires Introducer(b) || (b == ESC && p.mode != Osc && p.mode != Dcs)
    requires p.printable != [] ==> p.mode == Ground
    ensures Fed(p, [b] + input).events == Flushed(p) + Fed(INITIAL, [b] + input).events
  {
    hide StepAll, Fed;
    StepAllOne(p, b);
    StepAllOne(INITIAL, b);
    FedAppend(p, [b], input);
    FedAppend(INITIAL, [b], input);
    var q, r := Step(p, b), Step(INITIAL, b);
    assert q.events == Flushed(p) && r.events == [];
    FedAlike(q.parser, r.parser, input);
  }

  lemma FedAlike(p: Parser, q: Parser, input: bytes)
    requires Alike(p, q)
    ensures Fed(p, input).events == Fed(q, input).events
  {
    hide Step;
    StepAllAlike(p, q, input);
  }

  // ----- the parser inverts the encoding of a list of events

  /** The events a well-formed stream can encode. */
  ghost predicate Encodable(e: Event) {
    match e
    case Print(text) => text != [] && forall i :: 0 <= i < |text| ==> PrintableByte(text[i])
    case CsiSequence(payload) => CsiPayload(payload)
    case OscString(payload) => forall i :: 0 <= i < |payload| ==> StringByte(payload[i])
    case DcsString(payload) => forall i :: 0 <= i < |payload| ==> StringByte(payload[i])
    case Control(code) => code < 0x20 && code != ESC && code != CAN && code != SUB
  }

  function EncodeEvent(e: Event): bytes {
    match e
    case Print(text) => text
    case CsiSequence(payload) => [ESC, LEFT_BRACKET] + payload
    case OscString(payload) => [ESC, RIGHT_BRACKET] + payload + [BEL]
    case DcsString(payload) => [ESC, LETTER_P] + payload + [ESC, BACKSLASH]
    case Control(code) => [code]
  }

  function EncodeEvents(events: seq<Event>): bytes {
    if events == [] then [] else EncodeEvent(events[0]) + EncodeEvents(events[1..])
  }

  function Plains(s: bytes): seq<Part> {
    seq(|s|, k requires 0 <= k < |s| => Plain(s[k]))
  }

  ghost function UnitOf(e: Event): Unit {
    match e
    case Print(text) => Text(text)
    case CsiSequence(payload) =>
      if payload == [] then Single(0)
      else Sequence(SevenBit([]), payload[..|payload| - 1], payload[|payload| - 1])
    case OscString(payload) => String(Osc, SevenBit([]), Plains(payload), Bell)
    case DcsString(payload) => String(Dcs, SevenBit([]), Plains(payload), Backslash([]))
    case Control(code) => Single(code)
  }

  lemma {:induction false} PlainsAre(s: bytes)
    requires forall i :: 0 <= i < |s| ==> StringByte(s[i])
    ensures EncodeParts(Plains(s)) == s && Collected(Plains(s)) == s && PartsControls(Plains(s)) == []
  {
    if s != [] {
      PlainsAre(s[1..]);
      assert Plains(s)[1..] == Plains(s[1..]);
      assert s == [s[0]] + s[1..];
    }
  }

  lemma {:induction false} ParametersAre(s: bytes)
    requires ParameterBytes(s)
    ensures Parameters(s) == s && Controls(s) == []
  {
    if s != [] {
      ParametersAre(s[1..]);
      assert s == [s[0]] + s[1..];
    }
  }

  lemma UnitOfEvent(e: Event)
    requires Encodable(e)
    ensures UnitOk(UnitOf(e)) && EncodeUnit(UnitOf(e)) == EncodeEvent(e) && Reported(UnitOf(e)) == [e]
  {
    assert Controls([]) == [];
    match e
    case Print(_) =>
    case Control(_) =>
    case CsiSequence(payload) => SequenceOfPayload(payload);
    case OscString(payload) => StringOfPayload(payload);
    case DcsString(payload) => StringOfPayload(payload);
  }

  lemma SequenceOfPayload(payload: bytes)
    requires CsiPayload(payload)
    ensures var u := UnitOf(CsiSequence(payload));
            && UnitOk(u) && EncodeUnit(u) == [ESC, LEFT_BRACKET] + payload
            && Reported(u) == [CsiSequence(payload)]
  {
    hide Controls, Parameters;
    var front, final := payload[..|payload| - 1], payload[|payload| - 1];
    ParametersAre(front);
    NoControls();
    assert [ESC] + [] + [LEFT_BRACKET] == [ESC, LEFT_BRACKET];
    JoinFinal([ESC, LEFT_BRACKET], payload);
  }

  lemma NoControls()
    ensures Controls([]) == []
  {
  }

  lemma JoinFinal(front: bytes, payload: bytes)
    requires payload != []
    ensures front + payload[..|payload| - 1] + [payload[|payload| - 1]] == front + payload
    ensures payload[..|payload| - 1] + [payload[|payload| - 1]] == payload
  {
  }

  lemma StringOfPayload(payload: bytes)
    requires forall i :: 0 <= i < |payload| ==> StringByte(payload[i])
    ensures var u := UnitOf(OscString(payload));
            && UnitOk(u) && EncodeUnit(u) == [ESC, RIGHT_BRACKET] + payload + [BEL]
            && Reported(u) == [OscString(payload)]
    ensures var u := UnitOf(DcsString(payload));
            && UnitOk(u) && EncodeUnit(u) == [ESC, LETTER_P] + payload + [ESC, BACKSLASH]
            && Reported(u) == [DcsString(payload)]
  {
    hide EncodeParts, Collected, PartsControls;
    PlainsAre(payload);
    assert [ESC] + [] + [RIGHT_BRACKET] == [ESC, RIGHT_BRACKET] && [ESC] + [] + [LETTER_P] == [ESC, LETTER_P];
    assert [ESC] + [] + [BACKSLASH] == [ESC, BACKSLASH] && Controls([]) == [];
  }

  ghost function UnitsOf(events: seq<Event>): seq<Unit> {
    seq(|events|, k requires 0 <= k < |events| => UnitOf(events[k]))
  }

  lemma {:induction false} UnitsOfEvents(events: seq<Event>)
    requires forall i :: 0 <= i < |events| ==> Encodable(events[i])
    ensures EncodeUnits(UnitsOf(events)) == EncodeEvents(events) && ReportedAll(UnitsOf(events)) == events
    ensures forall k :: 0 <= k < |events| ==> UnitOk(UnitsOf(events)[k])
  {
    hide UnitOf, UnitOk, EncodeUnit, EncodeEvent, Reported, Encodable;
    if events != [] {
      UnitOfEvent(events[0]);
      UnitsOfEvents(events[1..]);
      assert UnitsOf(events)[1..] == UnitsOf(events[1..]);
      assert forall k :: 0 < k < |events| ==> UnitsOf(events)[k] == UnitsOf(events[1..])[k - 1];
      assert events == [events[0]] + events[1..];
    }
  }

  /** From a fresh parser: encoding and parsing is the identity on lists of events. */
  lemma EncodeParse(events: seq<Event>)
    requires forall i :: 0 <= i < |events| ==> Encodable(events[i])
    ensures Joined(Fed(INITIAL, EncodeEvents(events)).events) == Joined(events)
  {
    UnitsOfEvents(events);
    StreamIsRead(UnitsOf(events));
  }

  /** What a resting parser makes of one CSI sequence. */
  lemma ParsesCsi(p: Parser, payload: bytes)
    requires Resting(p) && CsiPayload(payload)
    ensures var o := StepAll(p, EncodeEvent(CsiSequence(payload)));
            Resting(o.parser) && o.parser.printable == [] && o.events == Flushed(p) + [CsiSequence(payload)]
  {
    hide StepAll, Flushed;
    UnitOfEvent(CsiSequence(payload));
    UnitRuns(p, UnitOf(CsiSequence(payload)));
  }
}

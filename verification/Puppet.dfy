/** The input driver of TTyTk-PuppetTools, and the way from its events through the parser and back. */
module Puppets {
  import opened Bytes
  import opened Decimal
  import opened InputProto
  import opened Automatons
  import opened AutomatonLaws
  import opened AutomatonRoundTrip

  /** The parameters and final byte `send_key` writes after the CSI; `modifiers + 1U` wraps. */
  function KeyPayload(key: Key): bytes {
    Digits(key.codepoint) + [SEMICOLON] + Digits((key.modifiers + 1) % 0x1_0000_0000) + [LETTER_U]
  }

  /** The same for `send_mouse`. */
  function MousePayload(mouse: Mouse): bytes {
    [LESS] + (Digits(Or(mouse.button, mouse.modifiers)) + [SEMICOLON]
              + (Digits(mouse.x) + [SEMICOLON] + Digits(mouse.y)))
    + [if mouse.pressed then UPPER_M else LOWER_M]
  }

  predicate OccursAt(text: bytes, needle: bytes, i: int) {
    0 <= i && i + |needle| <= |text| && text[i..i + |needle|] == needle
  }

  class Puppet {
    var sent: bytes
    var observed: bytes

    constructor ()
      ensures sent == [] && observed == []
    {
      sent, observed := [], [];
    }

    method SendKey(key: Key)
      modifies this`sent
      ensures sent == old(sent) + CSI + KeyPayload(key)
    {
      var modifiers := Digits((key.modifiers + 1) % 0x1_0000_0000);
      sent := sent + CSI + (Digits(key.codepoint) + [SEMICOLON] + modifiers + [LETTER_U]);
    }

    method SendMouse(mouse: Mouse)
      modifies this`sent
      ensures sent == old(sent) + CSI + MousePayload(mouse)
    {
      var button := Or(mouse.button, mouse.modifiers);
      sent := sent + CSI + ([LESS] + (Digits(button) + [SEMICOLON] + (Digits(mouse.x) + [SEMICOLON] + Digits(mouse.y)))
                            + [if mouse.pressed then UPPER_M else LOWER_M]);
    }

    method Observe(bytes: bytes)
      modifies this`observed
      ensures observed == old(observed) + bytes
    {
      observed := observed + bytes;
    }

    /** `observed_.find(text) != npos`. */
    method WaitForText(text: bytes) returns (found: bool)
      ensures found <==> exists i :: OccursAt(observed, text, i)
    {
      found := false;
      var i := 0;
      while i + |text| <= |observed|
        invariant 0 <= i
        invariant forall k :: 0 <= k < i ==> !OccursAt(observed, text, k)
      {
        if OccursAt(observed, text, i) {
          return true;
        }
        i := i + 1;
      }
    }
  }

  // ----- one event

  /** A key survives the trip exactly when it is a plain press and its modifiers do not wrap. */
  lemma KeySurvives(key: Key)
    ensures DecodeSeq(CSI + KeyPayload(key)) == Ok(KeyInput(key))
       <==> key.eventType == 1 && key.modifiers != 0xFFFF_FFFF
  {
    hide Digits, DecodeKey;
    var field := (key.modifiers + 1) % 0x1_0000_0000;
    var parameters := Digits(key.codepoint) + [SEMICOLON] + Digits(field);
    var sequence := CSI + KeyPayload(key);
    NoPaste(sequence);
    assert sequence[2..] == parameters + [LETTER_U];
    assert sequence[2..][..|parameters|] == parameters;
    KeyRoundTrip(key.codepoint, field);
  }

  lemma OrBits(button: nat, modifiers: nat)
    requires button <= 3 && modifiers % 4 == 0
    ensures Or(button, modifiers) == modifiers + button
  {
    hide Or;
    Pow2Values();
    OrLow(modifiers / 4, button, 2);
    OrCommutes(button, modifiers);
  }

  /** The bits `decode_seq` separates are exactly a button of two bits and the modifiers 4, 8 and 16. */
  lemma ButtonBits(button: nat, modifiers: nat)
    ensures And(Or(button, modifiers), 3) == button && And(Or(button, modifiers), 0x1C) == modifiers
       <==> button <= 3 && modifiers % 4 == 0 && modifiers < 0x20
    ensures button <= 3 && modifiers % 4 == 0 && modifiers < 0x20 ==> And(Or(button, modifiers), 0x20) == 0
  {
    hide And, Or;
    var e := Or(button, modifiers);
    MouseBits(e);
    if button <= 3 && modifiers % 4 == 0 && modifiers < 0x20 {
      OrBits(button, modifiers);
    }
  }

  /** The bitwise or of two 32-bit values is one. */
  lemma OrFits(a: uint32, b: uint32)
    ensures Or(a, b) < 0x1_0000_0000
  {
    hide Or;
    Pow2Of32();
    OrBelow(a, b, 32);
  }

  lemma {:induction false} OrBelow(a: nat, b: nat, k: nat)
    requires a < Pow2(k) && b < Pow2(k)
    ensures Or(a, b) < Pow2(k)
    decreases k
  {
    if k > 0 {
      OrBelow(a / 2, b / 2, k - 1);
    }
  }

  lemma OrCommutes(a: nat, b: nat)
    ensures Or(a, b) == Or(b, a)
  {
  }

  /** A mouse event survives exactly when it is no motion, has a two-bit button and only the modifiers 4, 8, 16. */
  lemma MouseSurvives(mouse: Mouse)
    ensures DecodeSeq(CSI + MousePayload(mouse)) == Ok(MouseInput(mouse))
       <==> mouse.button <= 3 && mouse.modifiers % 4 == 0 && mouse.modifiers < 0x20 && !mouse.motion
  {
    hide Digits, Numbers, And, Or;
    OrFits(mouse.button, mouse.modifiers);
    var encoded := Or(mouse.button, mouse.modifiers);
    var numbers := Digits(encoded) + [SEMICOLON] + (Digits(mouse.x) + [SEMICOLON] + Digits(mouse.y));
    var final := if mouse.pressed then UPPER_M else LOWER_M;
    var sequence := CSI + MousePayload(mouse);
    NoPaste(sequence);
    assert sequence[2..] == [LESS] + numbers + [final];
    assert sequence[2..][..|numbers| + 1] == [LESS] + numbers;
    assert ([LESS] + numbers)[1..] == numbers;
    MouseNumbers(encoded, mouse.x, mouse.y);
    ButtonBits(mouse.button, mouse.modifiers);
  }

  // ----- the whole pipeline

  /** The events `Puppet` can send so that they come back unchanged. */
  predicate Sendable(input: Input) {
    match input
    case KeyInput(key) => key.eventType == 1 && key.modifiers != 0xFFFF_FFFF
    case MouseInput(mouse) => mouse.button <= 3 && mouse.modifiers % 4 == 0 && mouse.modifiers < 0x20 && !mouse.motion
    case PasteInput(_) => false
  }

  function PayloadOf(input: Input): bytes
    requires !input.PasteInput?
  {
    match input
    case KeyInput(key) => KeyPayload(key)
    case MouseInput(mouse) => MousePayload(mouse)
  }

  /** Everything `Puppet` sends for a list of events. */
  function SentFor(inputs: seq<Input>): bytes
    requires forall i :: 0 <= i < |inputs| ==> !inputs[i].PasteInput?
  {
    if inputs == [] then [] else CSI + PayloadOf(inputs[0]) + SentFor(inputs[1..])
  }

  /** A puppet driven by a list of events sends the concatenation of their sequences. */
  method Drive(puppet: Puppet, inputs: seq<Input>)
    requires forall i :: 0 <= i < |inputs| ==> !inputs[i].PasteInput?
    modifies puppet
    ensures puppet.sent == old(puppet.sent) + SentFor(inputs)
  {
    hide PayloadOf;
    for k := 0 to |inputs|
      invariant puppet.sent + SentFor(inputs[k..]) == old(puppet.sent) + SentFor(inputs)
    {
      assert inputs[k..][1..] == inputs[k + 1..];
      SendOne(puppet, inputs[k]);
    }
    assert inputs[|inputs|..] == [];
  }

  method SendOne(puppet: Puppet, input: Input)
    requires !input.PasteInput?
    modifies puppet
    ensures puppet.sent == old(puppet.sent) + CSI + PayloadOf(input)
  {
    match input {
      case KeyInput(key) => puppet.SendKey(key);
      case MouseInput(mouse) => puppet.SendMouse(mouse);
    }
  }

  /** What is sent after a CSI is a control sequence of ECMA-48. */
  lemma PayloadIsCsi(input: Input)
    requires !input.PasteInput?
    ensures CsiPayload(PayloadOf(input))
  {
    hide Digits, Or, ValueOf;
    match input
    case KeyInput(key) =>
      var front := Digits(key.codepoint) + [SEMICOLON] + Digits((key.modifiers + 1) % 0x1_0000_0000);
      assert KeyPayload(key)[..|front|] == front;
      assert ParameterBytes(front);
    case MouseInput(mouse) =>
      var front := [LESS] + (Digits(Or(mouse.button, mouse.modifiers)) + [SEMICOLON]
                             + (Digits(mouse.x) + [SEMICOLON] + Digits(mouse.y)));
      assert MousePayload(mouse)[..|front|] == front;
      assert ParameterBytes(front);
  }

  function CsiEvents(inputs: seq<Input>): (events: seq<Event>)
    requires forall i :: 0 <= i < |inputs| ==> !inputs[i].PasteInput?
    ensures |events| == |inputs|
  {
    seq(|inputs|, i requires 0 <= i < |inputs| => CsiSequence(PayloadOf(inputs[i])))
  }

  lemma NothingSent()
    ensures SentFor([]) == [] && CsiEvents([]) == []
  {
  }

  lemma NextSent(inputs: seq<Input>)
    requires inputs != [] && forall i :: 0 <= i < |inputs| ==> !inputs[i].PasteInput?
    ensures SentFor(inputs) == CSI + PayloadOf(inputs[0]) + SentFor(inputs[1..])
  {
    hide PayloadOf;
  }

  lemma EventOf(inputs: seq<Input>, i: nat)
    requires i < |inputs| && forall i :: 0 <= i < |inputs| ==> !inputs[i].PasteInput?
    ensures CsiEvents(inputs)[i] == CsiSequence(PayloadOf(inputs[i]))
  {
    hide PayloadOf;
  }

  lemma NextEvent(inputs: seq<Input>)
    requires inputs != [] && forall i :: 0 <= i < |inputs| ==> !inputs[i].PasteInput?
    ensures CsiEvents(inputs) == [CsiSequence(PayloadOf(inputs[0]))] + CsiEvents(inputs[1..])
  {
    hide PayloadOf, CsiEvents;
    var events, later := CsiEvents(inputs), CsiEvents(inputs[1..]);
    EventOf(inputs, 0);
    forall i | 0 <= i < |later|
      ensures events[i + 1] == later[i]
    {
      EventOf(inputs, i + 1);
      EventOf(inputs[1..], i);
    }
    assert events == [events[0]] + later;
  }

  lemma EncodedCsi(payload: bytes)
    ensures EncodeEvent(CsiSequence(payload)) == CSI + payload
  {
  }

  /** A ground parser reports one CSI per event, with nothing before, between or after. */
  lemma {:induction false} OneCsiPerEvent(p: Parser, inputs: seq<Input>)
    requires Resting(p) && p.printable == []
    requires forall i :: 0 <= i < |inputs| ==> !inputs[i].PasteInput?
    ensures Fed(p, SentFor(inputs)).events == CsiEvents(inputs)
    ensures Resting(Fed(p, SentFor(inputs)).parser)
    decreases |inputs|
  {
    hide Step, StepAll, PayloadOf, CsiPayload, Fed, CsiEvents, SentFor, EncodeEvent;
    if inputs == [] {
      FedNothing(p);
      NothingSent();
    } else {
      var payload := PayloadOf(inputs[0]);
      PayloadIsCsi(inputs[0]);
      ParsesCsi(p, payload);
      EncodedCsi(payload);
      NextSent(inputs);
      NextEvent(inputs);
      FedAppend(p, CSI + payload, SentFor(inputs[1..]));
      var o := StepAll(p, CSI + payload);
      OneCsiPerEvent(o.parser, inputs[1..]);
    }
  }

  /**
   * For every list of sendable events, what `Puppet` sends makes a ground parser report one CSI per
   * event, and decoding each gives the event back.
   */
  lemma PipelineRoundTrip(p: Parser, inputs: seq<Input>)
    requires Resting(p) && p.printable == []
    requires forall i :: 0 <= i < |inputs| ==> !inputs[i].PasteInput? && Sendable(inputs[i])
    ensures var events := Fed(p, SentFor(inputs)).events;
            && |events| == |inputs|
            && forall i :: 0 <= i < |events| ==>
                 events[i].CsiSequence? && DecodeSeq(CSI + events[i].payload) == Ok(inputs[i])
  {
    hide Fed, DecodeSeq;
    OneCsiPerEvent(p, inputs);
    forall i | 0 <= i < |inputs|
      ensures DecodeSeq(CSI + PayloadOf(inputs[i])) == Ok(inputs[i])
    {
      Survives(inputs[i]);
    }
  }

  lemma Survives(input: Input)
    requires Sendable(input)
    ensures DecodeSeq(CSI + PayloadOf(input)) == Ok(input)
  {
    hide DecodeSeq, KeyPayload, MousePayload, Or;
    match input
    case KeyInput(key) => KeySurvives(key);
    case MouseInput(mouse) =>
      MouseSurvives(mouse);
  }
}

/** The decoder of key and mouse sequences of TTyTk-InputProto. */
module InputProto {
  import opened Bytes
  import opened Decimal

  const COLON: byte := 0x3A
  const LESS: byte := 0x3C
  const LETTER_U: byte := 0x75
  const UPPER_M: byte := 0x4D
  const LOWER_M: byte := 0x6D

  datatype Key = Key(codepoint: uint32, modifiers: uint32, eventType: uint32)

  datatype Mouse = Mouse(button: uint32, modifiers: uint32, x: uint32, y: uint32, pressed: bool, motion: bool)

  datatype Input = KeyInput(key: Key) | MouseInput(mouse: Mouse) | PasteInput(text: bytes)

  datatype Result<+T> = Ok(value: T) | Err(code: nat)

  const CSI: bytes := [ESC, LEFT_BRACKET]
  const PASTE_START: bytes := [ESC, LEFT_BRACKET, 0x32, 0x30, 0x30, 0x7E]
  const PASTE_END: bytes := [ESC, LEFT_BRACKET, 0x32, 0x30, 0x31, 0x7E]

  /** `text.substr(from, end - from)` up to the next `b`, or to the end. */
  function FieldAt(text: bytes, b: byte, from: nat): bytes
    requires from <= |text|
  {
    text[from..FindByte(text, b, from)]
  }

  function NumbersFrom(text: bytes, start: nat): Option<seq<uint32>>
    requires start <= |text|
    decreases |text| - start
  {
    var end := FindByte(text, SEMICOLON, start);
    var value := ParseUnsigned(text[start..end]);
    if value.None? then None
    else if end == |text| then Some([value.value])
    else
      var rest := NumbersFrom(text, end + 1);
      if rest.None? then None else Some([value.value] + rest.value)
  }

  /** The numbers of a list separated by semicolons; nothing at all if any of them is malformed. */
  function Numbers(text: bytes): seq<uint32> {
    var r := NumbersFrom(text, 0);
    if r.Some? then r.value else []
  }

  /** `detail::numbers`. */
  method ReadNumbers(text: bytes) returns (result: seq<uint32>)
    ensures result == Numbers(text)
  {
    hide ParseUnsigned, NumbersFrom, FindByte;
    result := [];
    var start := 0;
    ghost var all := NumbersFrom(text, 0);
    assert all.Some? ==> [] + all.value == all.value;
    while start <= |text|
      invariant start <= |text|
      invariant NumbersFrom(text, 0)
             == (var rest := NumbersFrom(text, start);
                 if rest.None? then None else Some(result + rest.value))
      decreases |text| - start
    {
      var end := FindByte(text, SEMICOLON, start);
      var value := ParseUnsigned(text[start..end]);
      NextNumber(text, start);
      if value.None? {
        return [];
      }
      ghost var before := result;
      result := result + [value.value];
      if end == |text| {
        return;
      }
      start := end + 1;
      ghost var rest := NumbersFrom(text, start);
      assert rest.Some? ==> before + ([value.value] + rest.value) == result + rest.value;
    }
  }

  predicate StartsWith(text: bytes, prefix: bytes) {
    prefix <= text
  }

  predicate EndsWith(text: bytes, suffix: bytes) {
    |suffix| <= |text| && text[|text| - |suffix|..] == suffix
  }

  /** A text that starts and ends as a paste does is long enough to hold both markers. */
  lemma PasteMarkersApart(sequence: bytes)
    requires StartsWith(sequence, PASTE_START) && EndsWith(sequence, PASTE_END)
    ensures |sequence| >= 12
  {
    var at := |sequence| - 6;
    assert sequence[at] == sequence[at..][0] == ESC;
    assert sequence[at + 4] == sequence[at..][4] == 0x31;
  }

  /** CSI code ; modifiers : event u. */
  function DecodeKey(parameters: bytes): Result<Input> {
    var codeField := FieldAt(parameters, SEMICOLON, 0);
    var separator := |codeField|;
    var codepoint := ParseUnsigned(FieldAt(codeField, COLON, 0));
    if codepoint.None? then Err(2)
    else if separator == |parameters| then Ok(KeyInput(Key(codepoint.value, 0, 1)))
    else
      var rest := parameters[separator + 1..];
      var modifierField := FieldAt(rest, COLON, 0);
      var modifiers := ParseUnsigned(modifierField);
      if modifiers.None? then Err(2)
      else
        var eventType := if |modifierField| == |rest| then Some(1) else ParseUnsigned(rest[|modifierField| + 1..]);
        if eventType.None? then Err(2)
        else
          Ok(KeyInput(Key(codepoint.value, if modifiers.value == 0 then 0 else modifiers.value - 1, eventType.value)))
  }

  /** CSI < button ; x ; y M or m. */
  function DecodeMouse(parameters: bytes, pressed: bool): Result<Input> {
    var values := Numbers(parameters);
    if |values| != 3 then Err(3)
    else
      var encoded := values[0];
      Ok(MouseInput(Mouse(And(encoded, 3), And(encoded, 0x1C), values[1], values[2], pressed, And(encoded, 0x20) != 0)))
  }

  /** `decode_seq`. */
  function DecodeSeq(sequence: bytes): Result<Input> {
    if StartsWith(sequence, PASTE_START) && EndsWith(sequence, PASTE_END) then
      PasteMarkersApart(sequence);
      Ok(PasteInput(sequence[6..|sequence| - 6]))
    else if !StartsWith(sequence, CSI) || |sequence| < 4 then Err(1)
    else
      var body := sequence[2..];
      var final, parameters := body[|body| - 1], body[..|body| - 1];
      if final == LETTER_U then DecodeKey(parameters)
      else if (final == UPPER_M || final == LOWER_M) && parameters[0] == LESS then
        DecodeMouse(parameters[1..], final == UPPER_M)
      else Err(1)
  }

  /** A paste is decoded exactly from its text between the markers, whatever the text holds. */
  lemma PasteExactly(sequence: bytes, text: bytes)
    ensures DecodeSeq(sequence) == Ok(PasteInput(text)) <==> sequence == PASTE_START + text + PASTE_END
  {
    hide FieldAt, Numbers, ParseUnsigned, And;
    if sequence == PASTE_START + text + PASTE_END {
      assert sequence[..6] == PASTE_START && sequence[|sequence| - 6..] == PASTE_END;
      assert sequence[6..|sequence| - 6] == text;
    } else if StartsWith(sequence, PASTE_START) && EndsWith(sequence, PASTE_END) {
      PasteMarkersApart(sequence);
      assert sequence == sequence[..6] + sequence[6..|sequence| - 6] + sequence[|sequence| - 6..];
    }
  }

  // ----- reading what was printed

  lemma FindNothing(text: bytes, b: byte, from: nat)
    requires from <= |text| && forall i :: from <= i < |text| ==> text[i] != b
    ensures FindByte(text, b, from) == |text|
  {
  }

  lemma FindFirst(text: bytes, b: byte, from: nat, at: nat)
    requires from <= at < |text| && text[at] == b && forall i :: from <= i < at ==> text[i] != b
    ensures FindByte(text, b, from) == at
  {
  }

  lemma FieldBefore(field: bytes, b: byte, rest: bytes)
    requires b !in field
    ensures FieldAt(field + [b] + rest, b, 0) == field
  {
    var text := field + [b] + rest;
    FindFirst(text, b, 0, |field|);
    assert text[0..|field|] == field;
  }

  lemma WholeField(field: bytes, b: byte)
    requires b !in field
    ensures FieldAt(field, b, 0) == field
  {
    FindNothing(field, b, 0);
  }

  lemma KeyRoundTrip(codepoint: uint32, field: uint32)
    ensures DecodeKey(Digits(codepoint) + [SEMICOLON] + Digits(field))
         == Ok(KeyInput(Key(codepoint, if field == 0 then 0 else field - 1, 1)))
  {
    hide Digits, ParseUnsigned, FindByte, FieldAt;
    var code, rest := Digits(codepoint), Digits(field);
    var text := code + [SEMICOLON] + rest;
    FieldBefore(code, SEMICOLON, rest);
    assert text[|code| + 1..] == rest;
    WholeField(code, COLON);
    WholeField(rest, COLON);
    ParsePrinted(codepoint);
    ParsePrinted(field);
  }

  lemma {:induction false} NumbersSuffix(front: bytes, rest: bytes, start: nat)
    requires start <= |rest|
    ensures NumbersFrom(front + rest, |front| + start) == NumbersFrom(rest, start)
    decreases |rest| - start
  {
    hide ParseUnsigned, FindByte;
    var end := FindByte(rest, SEMICOLON, start);
    FindSuffix(front, rest, start);
    assert (front + rest)[|front| + start..|front| + end] == rest[start..end];
    if end < |rest| {
      NumbersSuffix(front, rest, end + 1);
    }
  }

  lemma {:induction false} FindSuffix(front: bytes, rest: bytes, start: nat)
    requires start <= |rest|
    ensures FindByte(front + rest, SEMICOLON, |front| + start) == |front| + FindByte(rest, SEMICOLON, start)
    decreases |rest| - start
  {
    if start < |rest| && rest[start] != SEMICOLON {
      FindSuffix(front, rest, start + 1);
    }
  }

  lemma NumberThenMore(n: uint32, rest: bytes)
    ensures NumbersFrom(Digits(n) + [SEMICOLON] + rest, 0)
         == (var more := NumbersFrom(rest, 0); if more.None? then None else Some([n] + more.value))
  {
    hide Digits, ValueOf;
    var front := Digits(n) + [SEMICOLON];
    FindFirst(front + rest, SEMICOLON, 0, |Digits(n)|);
    assert (front + rest)[0..|Digits(n)|] == Digits(n);
    ParsePrinted(n);
    NumbersSuffix(front, rest, 0);
  }

  lemma LastNumber(n: uint32)
    ensures NumbersFrom(Digits(n), 0) == Some([n])
  {
    hide Digits, ValueOf;
    FindNothing(Digits(n), SEMICOLON, 0);
    assert Digits(n)[0..|Digits(n)|] == Digits(n);
    ParsePrinted(n);
  }

  lemma MouseNumbers(encoded: uint32, x: uint32, y: uint32)
    ensures Numbers(Digits(encoded) + [SEMICOLON] + (Digits(x) + [SEMICOLON] + Digits(y))) == [encoded, x, y]
  {
    hide NumbersFrom, Digits;
    LastNumber(y);
    NumberThenMore(x, Digits(y));
    NumberThenMore(encoded, Digits(x) + [SEMICOLON] + Digits(y));
  }

  // ----- whole sequences

  lemma NoPaste(sequence: bytes)
    requires |sequence| > 0 && sequence[|sequence| - 1] != 0x7E
    ensures !EndsWith(sequence, PASTE_END)
  {
    if |sequence| >= 6 {
      assert sequence[|sequence| - 6..][5] == sequence[|sequence| - 1];
    }
  }

  lemma AndZero(b: nat)
    ensures And(0, b) == 0
  {
  }

  /** The button is in the two lowest bits of a report, the modifiers in the next three, the motion in the sixth. */
  lemma MouseBits(e: nat)
    ensures And(e, 3) == e % 4
    ensures And(e, 0x1C) == 4 * (e / 4 % 8)
    ensures And(e, 0x20) != 0 <==> e / 32 % 2 == 1
  {
    hide And;
    LowMask2(e);
    DoubleMask(e, 0x0E);
    DoubleMask(e / 2, 7);
    assert e / 2 / 2 == e / 4;
    LowMask3(e / 4);
    EightfoldMask(e, 4);
    DoubleMask(e / 8, 2);
    DoubleMask(e / 8 / 2, 1);
    LowestBit(e / 8 / 2 / 2);
    assert e / 8 / 2 / 2 == e / 32;
  }

  lemma LowestBit(x: nat)
    ensures And(x, 1) == x % 2
  {
    AndZero(0);
    AndZero(x / 2);
    AndNothing(x / 2);
  }

  lemma AndNothing(x: nat)
    ensures And(x, 0) == 0
  {
  }

  lemma CodeField(code: bytes, alternates: bytes)
    requires COLON !in code && (alternates != [] ==> alternates[0] == COLON)
    ensures FieldAt(code + alternates, COLON, 0) == code
  {
    hide FieldAt;
    if alternates == [] {
      assert code + alternates == code;
      WholeField(code, COLON);
    } else {
      assert code + alternates == code + [COLON] + alternates[1..];
      FieldBefore(code, COLON, alternates[1..]);
    }
  }

  lemma SequenceParts(parameters: bytes, final: byte)
    requires final != 0x7E && parameters != []
    ensures var sequence := CSI + parameters + [final];
            && StartsWith(sequence, CSI) && |sequence| >= 4 && !EndsWith(sequence, PASTE_END)
            && sequence[2..][|sequence| - 3] == final && sequence[2..][..|sequence| - 3] == parameters
  {
    NoPaste(CSI + parameters + [final]);
  }

  /** What stands behind the code: a modifier field, and perhaps the kind of event behind a colon. */
  datatype Behind = Behind(field: bytes, event: Option<bytes>)

  function EventText(event: Option<bytes>): bytes {
    if event.Some? then [COLON] + event.value else []
  }

  function KeyText(code: bytes, alternates: bytes, behind: Option<Behind>): bytes {
    code + alternates + if behind.Some? then [SEMICOLON] + behind.value.field + EventText(behind.value.event) else []
  }

  /** The parts of a key sequence: alternates follow a colon, and a field ends at its separator. */
  predicate KeyTextOk(code: bytes, alternates: bytes, behind: Option<Behind>) {
    && COLON !in code && SEMICOLON !in code && SEMICOLON !in alternates
    && (alternates != [] ==> alternates[0] == COLON)
    && (behind.Some? ==> COLON !in behind.value.field)
  }

  /** A key, when every number is one; a missing field means no modifiers, a missing event that the key was pressed. */
  function KeyMeant(code: bytes, behind: Option<Behind>): Result<Input> {
    var codepoint := ParseUnsigned(code);
    var modifiers := if behind.Some? then ParseUnsigned(behind.value.field) else Some(1);
    var event := if behind.Some? && behind.value.event.Some? then ParseUnsigned(behind.value.event.value) else Some(1);
    if codepoint.Some? && modifiers.Some? && event.Some? then
      Ok(KeyInput(Key(codepoint.value, if modifiers.value == 0 then 0 else modifiers.value - 1, event.value)))
    else Err(2)
  }

  lemma EventField(field: bytes, event: Option<bytes>)
    requires COLON !in field
    ensures var rest := field + EventText(event);
            && FieldAt(rest, COLON, 0) == field
            && (if event.Some? then |rest| > |field| && rest[|field| + 1..] == event.value else rest == field)
  {
    hide FieldAt;
    var rest := field + EventText(event);
    if event.Some? {
      assert rest == field + [COLON] + event.value;
      FieldBefore(field, COLON, event.value);
    } else {
      assert rest == field;
      WholeField(rest, COLON);
    }
  }

  /** CSI code alternates ; modifiers : event u is read as what its fields say, or refused with 2. */
  lemma KeyIsRead(code: bytes, alternates: bytes, behind: Option<Behind>)
    requires KeyTextOk(code, alternates, behind) && KeyText(code, alternates, behind) != []
    ensures DecodeSeq(CSI + KeyText(code, alternates, behind) + [LETTER_U]) == KeyMeant(code, behind)
  {
    hide ParseUnsigned, FieldAt, DecodeSeq, DecodeKey, KeyMeant, EventText;
    var whole, parameters := code + alternates, KeyText(code, alternates, behind);
    KeySequence(parameters);
    CodeField(code, alternates);
    if behind.Some? {
      var rest := behind.value.field + EventText(behind.value.event);
      JoinBehind(whole, behind.value.field, EventText(behind.value.event));
      FieldBefore(whole, SEMICOLON, rest);
      assert parameters[|whole| + 1..] == rest;
      KeyBehind(parameters, whole, code, behind.value);
    } else {
      assert parameters == whole;
      WholeField(whole, SEMICOLON);
      KeyAlone(parameters, code);
    }
  }

  lemma KeyAlone(parameters: bytes, code: bytes)
    requires FieldAt(parameters, SEMICOLON, 0) == parameters && FieldAt(parameters, COLON, 0) == code
    ensures DecodeKey(parameters) == KeyMeant(code, None)
  {
    hide ParseUnsigned, FieldAt;
  }

  lemma KeyBehind(parameters: bytes, whole: bytes, code: bytes, behind: Behind)
    requires FieldAt(parameters, SEMICOLON, 0) == whole && FieldAt(whole, COLON, 0) == code
    requires |whole| < |parameters| && COLON !in behind.field
    requires parameters[|whole| + 1..] == behind.field + EventText(behind.event)
    ensures DecodeKey(parameters) == KeyMeant(code, Some(behind))
  {
    hide ParseUnsigned, FieldAt, EventText;
    EventField(behind.field, behind.event);
  }

  lemma Cut(text: bytes, b: byte)
    ensures var field := FieldAt(text, b, 0);
            && b !in field && |field| <= |text| && text == field + text[|field|..]
            && field == text[..|field|]
            && (|field| < |text| ==> text[|field|] == b && text == field + [b] + text[|field| + 1..])
  {
  }

  /** Any parameters at all can be taken apart that way. */
  lemma EveryKeyText(parameters: bytes) returns (code: bytes, alternates: bytes, behind: Option<Behind>)
    ensures KeyTextOk(code, alternates, behind) && parameters == KeyText(code, alternates, behind)
  {
    hide FieldAt, EventText;
    var whole := FieldAt(parameters, SEMICOLON, 0);
    Cut(parameters, SEMICOLON);
    code := FieldAt(whole, COLON, 0);
    Cut(whole, COLON);
    alternates := whole[|code|..];
    SplitHoldsNone(whole, SEMICOLON, |code|);
    if |whole| < |parameters| {
      var b := EveryBehind(parameters[|whole| + 1..]);
      behind := Some(b);
      JoinBehind(whole, b.field, EventText(b.event));
    } else {
      behind := None;
    }
  }

  lemma SplitHoldsNone(text: bytes, b: byte, n: nat)
    requires b !in text && n <= |text|
    ensures b !in text[..n] && b !in text[n..]
  {
  }

  lemma JoinBehind(whole: bytes, field: bytes, event: bytes)
    ensures whole + [SEMICOLON] + (field + event) == whole + ([SEMICOLON] + field + event)
  {
  }

  lemma EveryBehind(rest: bytes) returns (b: Behind)
    ensures COLON !in b.field && rest == b.field + EventText(b.event)
  {
    hide FieldAt;
    var field := FieldAt(rest, COLON, 0);
    Cut(rest, COLON);
    b := Behind(field, if |field| < |rest| then Some(rest[|field| + 1..]) else None);
    assert rest == field + EventText(b.event);
  }

  lemma KeySequence(parameters: bytes)
    requires parameters != []
    ensures DecodeSeq(CSI + parameters + [LETTER_U]) == DecodeKey(parameters)
  {
    hide DecodeKey, DecodeMouse;
    SequenceParts(parameters, LETTER_U);
  }

  lemma MouseSequence(numbers: bytes, pressed: bool)
    ensures DecodeSeq(CSI + ([LESS] + numbers) + [if pressed then UPPER_M else LOWER_M])
         == DecodeMouse(numbers, pressed)
  {
    hide DecodeKey, DecodeMouse;
    SequenceParts([LESS] + numbers, if pressed then UPPER_M else LOWER_M);
    assert ([LESS] + numbers)[1..] == numbers;
  }

  /** The fields, with a semicolon between each two. */
  function Listed(fields: seq<bytes>): bytes
    requires fields != []
  {
    if |fields| == 1 then fields[0] else fields[0] + [SEMICOLON] + Listed(fields[1..])
  }

  ghost predicate Apart(fields: seq<bytes>) {
    fields != [] && forall k :: 0 <= k < |fields| ==> SEMICOLON !in fields[k]
  }

  /** The numbers of the fields, when every one is a number. */
  function NumbersOf(fields: seq<bytes>): Option<seq<uint32>> {
    if fields == [] then Some([])
    else
      var first, rest := ParseUnsigned(fields[0]), NumbersOf(fields[1..]);
      if first.Some? && rest.Some? then Some([first.value] + rest.value) else None
  }

  lemma NextNumber(text: bytes, start: nat)
    requires start <= |text|
    ensures var end := FindByte(text, SEMICOLON, start);
            var value := ParseUnsigned(text[start..end]);
            NumbersFrom(text, start)
            == if value.None? then None
               else if end == |text| then Some([value.value])
               else
                 var rest := NumbersFrom(text, end + 1);
                 if rest.None? then None else Some([value.value] + rest.value)
  {
    hide ParseUnsigned, FindByte;
  }

  lemma OneNumber(fields: seq<bytes>)
    requires |fields| == 1
    ensures NumbersOf(fields)
         == var value := ParseUnsigned(fields[0]); if value.None? then None else Some([value.value])
  {
    hide ParseUnsigned;
    var none: seq<uint32>, value := [], ParseUnsigned(fields[0]);
    assert fields[1..] == [] && NumbersOf(fields[1..]) == Some(none);
    assert value.Some? ==> [value.value] + none == [value.value];
  }

  lemma {:induction false} NumbersListed(fields: seq<bytes>)
    requires Apart(fields)
    ensures NumbersFrom(Listed(fields), 0) == NumbersOf(fields)
    decreases |fields|
  {
    hide ParseUnsigned, NumbersFrom, FindByte;
    var text := Listed(fields);
    NextNumber(text, 0);
    if |fields| == 1 {
      FindNothing(text, SEMICOLON, 0);
      assert text[0..|text|] == fields[0];
      OneNumber(fields);
    } else {
      var front, rest := fields[0] + [SEMICOLON], Listed(fields[1..]);
      FindFirst(text, SEMICOLON, 0, |fields[0]|);
      assert text[0..|fields[0]|] == fields[0] && text == front + rest;
      NumbersSuffix(front, rest, 0);
      NumbersListed(fields[1..]);
    }
  }

  lemma {:induction false} EveryTextIsListed(text: bytes) returns (fields: seq<bytes>)
    ensures Apart(fields) && text == Listed(fields)
    decreases |text|
  {
    hide FieldAt;
    var first := FieldAt(text, SEMICOLON, 0);
    Cut(text, SEMICOLON);
    if |first| == |text| {
      fields := [first];
    } else {
      var rest := EveryTextIsListed(text[|first| + 1..]);
      fields := [first] + rest;
      assert fields[1..] == rest;
    }
  }

  /**
   * CSI < button ; x ; y M or m is read when there are three fields and all are numbers: button,
   * modifiers and motion by their bits, both coordinates, pressed for M. Otherwise it is refused with 3.
   */
  lemma MouseIsRead(fields: seq<bytes>, pressed: bool)
    requires Apart(fields)
    ensures DecodeSeq(CSI + ([LESS] + Listed(fields)) + [if pressed then UPPER_M else LOWER_M])
         == var values := NumbersOf(fields);
            if values.Some? && |values.value| == 3 then
              var e := values.value[0];
              Ok(MouseInput(Mouse(e % 4, 4 * (e / 4 % 8), values.value[1], values.value[2], pressed, e / 32 % 2 == 1)))
            else Err(3)
  {
    hide And, DecodeSeq, Listed, NumbersOf, NumbersFrom;
    MouseSequence(Listed(fields), pressed);
    NumbersListed(fields);
    var values := NumbersOf(fields);
    if values.Some? && values.value != [] {
      MouseBits(values.value[0]);
    }
  }

  /** Everything that is neither a paste, a key nor a mouse report is refused with 1. */
  lemma OthersAreRefused(sequence: bytes)
    requires !(PASTE_START <= sequence && |sequence| >= 6 && sequence[|sequence| - 6..] == PASTE_END)
    requires |sequence| < 4 || !(CSI <= sequence)
             || (sequence[|sequence| - 1] != LETTER_U
                 && !(sequence[2] == LESS && sequence[|sequence| - 1] in {UPPER_M, LOWER_M}))
    ensures DecodeSeq(sequence) == Err(1)
  {
    hide DecodeKey, DecodeMouse;
  }
}

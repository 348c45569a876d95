/** What a control sequence fed to the emulator does, cell by cell, and what an OSC string reports. */
module TerminalControls {
  import opened Bytes
  import opened Decimal
  import opened Terminals

  // ----- the fields of a control sequence

  /** The fields, with a semicolon between each two. */
  function Listed(fields: seq<bytes>): bytes
    requires fields != []
  {
    if |fields| == 1 then fields[0] else fields[0] + [SEMICOLON] + Listed(fields[1..])
  }

  ghost predicate FieldOk(field: bytes) {
    SEMICOLON !in field && forall i :: 0 <= i < |field| ==> !(0x40 <= field[i] <= 0x7E)
  }

  ghost predicate FieldsOk(fields: seq<bytes>) {
    fields != [] && forall k :: 0 <= k < |fields| ==> FieldOk(fields[k])
  }

  /** A field as a number: 0 and a field that is missing, empty or no 32-bit number count as 1. */
  function NumberOf(fields: seq<bytes>, k: nat): (n: nat)
    ensures n >= 1
  {
    if k >= |fields| then 1
    else
      var value := ParseUnsigned(fields[k]);
      if value.Some? && value.value > 0 then value.value else 1
  }

  lemma FindFirst(text: bytes, b: byte, from: nat, at: nat)
    requires from <= at <= |text| && (at < |text| ==> text[at] == b) && forall i :: from <= i < at ==> text[i] != b
    ensures FindByte(text, b, from) == at
  {
  }

  lemma {:induction false} FindInSuffix(front: bytes, rest: bytes, start: nat)
    requires start <= |rest|
    ensures FindByte(front + rest, SEMICOLON, |front| + start) == |front| + FindByte(rest, SEMICOLON, start)
    decreases |rest| - start
  {
    if start < |rest| && rest[start] != SEMICOLON {
      FindInSuffix(front, rest, start + 1);
    }
  }

  lemma FieldsAre(parameters: bytes, start: nat)
    requires start <= |parameters|
    ensures var end := FindByte(parameters, SEMICOLON, start);
            Fields(parameters, start)
            == [FieldValue(parameters[start..end])] + if end == |parameters| then [] else Fields(parameters, end + 1)
  {
    hide FieldValue, FindByte;
  }

  lemma {:induction false} FieldsSuffix(front: bytes, rest: bytes, start: nat)
    requires start <= |rest|
    ensures Fields(front + rest, |front| + start) == Fields(rest, start)
    decreases |rest| - start
  {
    hide FieldValue, FindByte, Fields;
    FieldsAre(rest, start);
    FieldsAre(front + rest, |front| + start);
    var end := FindByte(rest, SEMICOLON, start);
    FindInSuffix(front, rest, start);
    assert (front + rest)[|front| + start..|front| + end] == rest[start..end];
    if end < |rest| {
      FieldsSuffix(front, rest, end + 1);
    }
  }

  lemma {:induction false} FieldsListed(fields: seq<bytes>)
    requires FieldsOk(fields)
    ensures |Fields(Listed(fields), 0)| == |fields|
    ensures forall k :: 0 <= k < |fields| ==> Fields(Listed(fields), 0)[k] == FieldValue(fields[k])
    decreases |fields|
  {
    hide FieldValue, Fields, FindByte;
    var text := Listed(fields);
    NextField(text, 0);
    if |fields| == 1 {
      FindFirst(text, SEMICOLON, 0, |text|);
      assert text[0..|text|] == fields[0];
    } else {
      var rest := fields[1..];
      FindFirst(text, SEMICOLON, 0, |fields[0]|);
      assert text[0..|fields[0]|] == fields[0];
      assert text == (fields[0] + [SEMICOLON]) + Listed(rest);
      FieldsSuffix(fields[0] + [SEMICOLON], Listed(rest), 0);
      FieldsListed(rest);
      var values := Fields(text, 0);
      assert values[1..] == Fields(Listed(rest), 0);
      forall k | 0 <= k < |fields|
        ensures values[k] == FieldValue(fields[k])
      {
        if k > 0 {
          assert values[k] == values[1..][k - 1] && fields[k] == rest[k - 1];
        }
      }
    }
  }

  lemma {:induction false} ListedOk(fields: seq<bytes>)
    requires FieldsOk(fields)
    ensures forall i :: 0 <= i < |Listed(fields)| ==> !(0x40 <= Listed(fields)[i] <= 0x7E)
  {
    if |fields| > 1 {
      ListedOk(fields[1..]);
    }
    assert FieldOk(fields[0]);
  }

  // ----- one sequence

  function ControlSequence(fields: seq<bytes>, final: byte): bytes
    requires fields != []
  {
    [ESC, LEFT_BRACKET] + Listed(fields) + [final]
  }

  lemma {:induction false} FinalIsLast(input: bytes, from: nat)
    requires from < |input| && 0x40 <= input[|input| - 1] <= 0x7E
    requires forall i :: from <= i < |input| - 1 ==> !(0x40 <= input[i] <= 0x7E)
    ensures FindFinal(input, from) == |input| - 1
    decreases |input| - from
  {
    if from < |input| - 1 {
      FinalIsLast(input, from + 1);
    }
  }

  lemma SequenceFed(g: Grid, fields: seq<bytes>, final: byte)
    requires GridValid(g) && FieldsOk(fields) && 0x40 <= final <= 0x7E
    ensures var input := ControlSequence(fields, final);
            PutsNoFeed(input, 0) && FeedFrom(g, input, 0) == Fed(HandleCsi(g, Listed(fields), final), [])
  {
    hide GridValid, FeedFrom, HandleCsi, FindFinal, GridAfter, PutsNoFeed, Listed;
    var parameters, input := Listed(fields), ControlSequence(fields, final);
    ListedOk(fields);
    assert forall i :: 2 <= i < |input| - 1 ==> input[i] == parameters[i - 2];
    FinalIsLast(input, 2);
    assert input[2..|input| - 1] == parameters;
    ItemCases(input, 0);
    NothingPut(input);
    NextItem(g, input, 0);
    FeedsOf(g, input, 0);
    CsiKeepsValid(g, parameters, final);
    FeedEnds(HandleCsi(g, parameters, final), input);
  }

  lemma NothingPut(input: bytes)
    requires input != [] && ItemAt(input, 0) == Csi(|input| - 1)
    ensures PutsNoFeed(input, 0)
  {
    hide FindFinal;
  }

  /** The cell at (row, col), or a space outside the screen. */
  function Cell(g: Grid, row: nat, col: nat): byte {
    if row < |g.screen| && col < |g.screen[row]| then g.screen[row][col] else SPACE
  }

  function Clamp(n: nat, size: nat): nat {
    if n < size then n else if size == 0 then 0 else size - 1
  }

  /** CSI row ; column H or f places the cursor, counting from one and staying on the screen. */
  lemma CursorIsPlaced(g: Grid, fields: seq<bytes>, final: byte)
    requires GridValid(g) && FieldsOk(fields) && (final == UPPER_H || final == LOWER_F)
    ensures var input := ControlSequence(fields, final);
            && PutsNoFeed(input, 0)
            && FeedFrom(g, input, 0)
               == Fed(g.(row := Clamp(NumberOf(fields, 0) - 1, g.rows),
                         col := Clamp(NumberOf(fields, 1) - 1, g.columns)), [])
  {
    hide FeedFrom, Fields, PutsNoFeed, ControlSequence;
    SequenceFed(g, fields, final);
    FieldsListed(fields);
  }

  /** CSI 2 J blanks every cell, and J with any other number does nothing. */
  lemma ScreenIsCleared(g: Grid, fields: seq<bytes>)
    requires GridValid(g) && FieldsOk(fields)
    ensures var input := ControlSequence(fields, UPPER_J);
            && PutsNoFeed(input, 0)
            && var fed := FeedFrom(g, input, 0);
               && fed.osc == [] && GridValid(fed.grid) && fed.grid == g.(screen := fed.grid.screen)
               && forall row: nat, col: nat ::
                    Cell(fed.grid, row, col) == if NumberOf(fields, 0) == 2 then SPACE else Cell(g, row, col)
  {
    hide FeedFrom, Fields, PutsNoFeed, ControlSequence;
    SequenceFed(g, fields, UPPER_J);
    FieldsListed(fields);
  }

  /** CSI K blanks the cursor's line from the cursor on, whatever its fields, and nothing else. */
  lemma LineIsErased(g: Grid, fields: seq<bytes>)
    requires GridValid(g) && FieldsOk(fields)
    ensures var input := ControlSequence(fields, UPPER_K);
            && PutsNoFeed(input, 0)
            && var fed := FeedFrom(g, input, 0);
               && fed.osc == [] && GridValid(fed.grid) && fed.grid == g.(screen := fed.grid.screen)
               && forall row: nat, col: nat ::
                    Cell(fed.grid, row, col) == if row == g.row && col >= g.col then SPACE else Cell(g, row, col)
  {
    hide FeedFrom, Fields, PutsNoFeed, ControlSequence;
    SequenceFed(g, fields, UPPER_K);
  }

  /** Every other control sequence is passed over. */
  lemma OthersDoNothing(g: Grid, fields: seq<bytes>, final: byte)
    requires GridValid(g) && FieldsOk(fields) && 0x40 <= final <= 0x7E
    requires final !in {UPPER_H, LOWER_F, UPPER_J, UPPER_K}
    ensures var input := ControlSequence(fields, final);
            PutsNoFeed(input, 0) && FeedFrom(g, input, 0) == Fed(g, [])
  {
    hide FeedFrom, Fields, PutsNoFeed, ControlSequence;
    SequenceFed(g, fields, final);
  }

  lemma DigitsOk(n: nat)
    ensures FieldOk(Digits(n))
  {
    hide Digits;
  }

  /** With printed numbers: row `r` and column `c` of the screen, each at least one and at most the last. */
  lemma CursorGoesTo(g: Grid, r: uint32, c: uint32, final: byte)
    requires GridValid(g) && (final == UPPER_H || final == LOWER_F)
    ensures var input := [ESC, LEFT_BRACKET] + Digits(r) + [SEMICOLON] + Digits(c) + [final];
            && PutsNoFeed(input, 0)
            && FeedFrom(g, input, 0)
               == Fed(g.(row := Clamp(if r == 0 then 0 else r - 1, g.rows),
                         col := Clamp(if c == 0 then 0 else c - 1, g.columns)), [])
  {
    hide FeedFrom, Digits, PutsNoFeed, ParseUnsigned, FieldOk;
    var fields := [Digits(r), Digits(c)];
    DigitsOk(r);
    DigitsOk(c);
    CursorIsPlaced(g, fields, final);
    ParsePrinted(r);
    ParsePrinted(c);
    assert Listed(fields[1..]) == Digits(c);
    assert ControlSequence(fields, final) == [ESC, LEFT_BRACKET] + Digits(r) + [SEMICOLON] + Digits(c) + [final];
  }

  // ----- one byte

  lemma ByteIsPut(g: Grid, b: byte)
    requires GridValid(g) && (g.rows > 0 || b != LF)
    ensures (b != LF ==> PutsNoFeed([b], 0)) && FeedFrom(g, [b], 0) == Fed(Put(g, b), [])
  {
    hide GridValid, FeedFrom, Put, GridAfter;
    var input := [b];
    assert ItemAt(input, 0) == Byte && After(input, 0, Byte) == 1;
    NextItem(g, input, 0);
    FeedsOf(g, input, 0);
    PutKeepsValid(g, b);
    FeedEnds(Put(g, b), input);
  }

  /**
   * A printable byte goes into the cell of the cursor, which stops in the last column. A line feed goes
   * one line down in the same column; in the last line the screen moves up by one, leaving its top line.
   * A carriage return goes to the first column, and every other byte does nothing.
   */
  lemma ByteIsShown(g: Grid, b: byte)
    requires GridValid(g) && (g.rows > 0 || b != LF)
    ensures var h := FeedFrom(g, [b], 0).grid;
            && GridValid(h)
            && if b == CR then h == g.(col := 0)
               else if b == LF && g.row + 1 < g.rows then h == g.(row := g.row + 1)
               else if b == LF then
                 && h == g.(screen := h.screen, evicted := g.evicted + [g.screen[0]])
                 && forall row: nat, col: nat :: Cell(h, row, col) == Cell(g, row + 1, col)
               else if 0x20 <= b < 0x80 && g.rows > 0 && g.columns > 0 then
                 && h == g.(screen := h.screen, col := if g.col + 1 == g.columns then g.col else g.col + 1)
                 && forall row: nat, col: nat ::
                      Cell(h, row, col) == if row == g.row && col == g.col then b else Cell(g, row, col)
               else h == g
  {
    hide FeedFrom;
    ByteIsPut(g, b);
    PutKeepsValid(g, b);
    if b == LF && g.row + 1 >= g.rows {
      var h := Put(g, b);
      forall row: nat, col: nat
        ensures Cell(h, row, col) == Cell(g, row + 1, col)
      {
        assert row + 1 < g.rows ==> h.screen[row] == g.screen[row + 1];
      }
    }
  }

  /** A line that is resized keeps its bytes as far as it goes, and is filled up with spaces. */
  lemma FitCells(line: bytes, columns: nat)
    ensures |Fit(line, columns)| == columns
    ensures forall col :: 0 <= col < columns ==> Fit(line, columns)[col] == if col < |line| then line[col] else SPACE
  {
  }

  // ----- OSC strings

  /** The payload neither holds nor, with what follows, completes an ESC backslash. */
  ghost predicate Unended(payload: bytes) {
    BEL !in payload && forall i, j :: 0 <= i && i + 1 == j < |payload| ==> payload[i] != ESC || payload[j] != BACKSLASH
  }

  lemma {:induction false} NoTerminator(input: bytes, from: nat, end: nat)
    requires from <= end <= |input|
    requires forall i, j :: from <= i < end && i + 1 == j < |input| ==> input[i] != ESC || input[j] != BACKSLASH
    requires end == |input| || (end + 1 < |input| && input[end] == ESC && input[end + 1] == BACKSLASH)
    ensures FindTerminator(input, from) == end
    decreases end - from
  {
    if from < end {
      NoTerminator(input, from + 1, end);
    }
  }

  /** What the callback of an OSC string is given: what is before the first semicolon, and what is after it. */
  ghost predicate Divided(payload: bytes, parts: (bytes, bytes)) {
    if SEMICOLON in payload then payload == parts.0 + [SEMICOLON] + parts.1 && SEMICOLON !in parts.0
    else parts == ([], [])
  }

  lemma OscPartsDivide(payload: bytes)
    ensures Divided(payload, OscParts(payload))
  {
    var at := FindByte(payload, SEMICOLON, 0);
    if at < |payload| {
      assert payload == payload[..at] + [SEMICOLON] + payload[at + 1..];
    }
  }

  function OscInput(payload: bytes, bell: bool): bytes {
    [ESC, RIGHT_BRACKET] + payload + if bell then [BEL] else [ESC, BACKSLASH]
  }

  lemma OscItem(payload: bytes, bell: bool)
    requires Unended(payload)
    ensures var input, end := OscInput(payload, bell), 2 + |payload|;
            ItemAt(input, 0) == Osc(end) && After(input, 0, Osc(end)) == |input| && input[2..end] == payload
  {
    hide FindByte, FindTerminator, ItemAt, After;
    var input, end := OscInput(payload, bell), 2 + |payload|;
    assert forall i :: 2 <= i < end ==> input[i] == payload[i - 2] && payload[i - 2] in payload;
    forall i, j | 2 <= i < end && i + 1 == j < |input|
      ensures input[i] != ESC || input[j] != BACKSLASH
    {
      if j < end {
        assert payload[i - 2] != ESC || payload[j - 2] != BACKSLASH;
      } else {
        assert input[j] == if bell then BEL else ESC;
      }
    }
    if bell {
      FindFirst(input, BEL, 2, end);
      NoTerminator(input, 2, |input|);
    } else {
      FindFirst(input, BEL, 2, |input|);
      NoTerminator(input, 2, end);
    }
    assert input[2..end] == payload;
    ItemCases(input, 0);
  }

  /** An OSC string, ended by BEL or by ESC and a backslash, is reported once and leaves the grid alone. */
  lemma OscIsReported(g: Grid, payload: bytes, bell: bool) returns (parts: (bytes, bytes))
    requires GridValid(g) && Unended(payload)
    ensures Divided(payload, parts)
    ensures var input := [ESC, RIGHT_BRACKET] + payload + if bell then [BEL] else [ESC, BACKSLASH];
            PutsNoFeed(input, 0) && FeedFrom(g, input, 0) == Fed(g, [parts])
  {
    hide GridValid, FeedFrom, GridAfter, PutsNoFeed, OscParts, Divided, ItemAt, After, OscOf;
    var input, end := OscInput(payload, bell), 2 + |payload|;
    parts := OscParts(payload);
    OscPartsDivide(payload);
    OscItem(payload, bell);
    OscPutsNothing(input, end);
    NextItem(g, input, 0);
    FeedsOf(g, input, 0);
    FeedEnds(g, input);
    assert [parts] + [] == [parts];
  }

  lemma OscPutsNothing(input: bytes, end: nat)
    requires input != [] && ItemAt(input, 0) == Osc(end) && After(input, 0, Osc(end)) == |input|
    ensures PutsNoFeed(input, 0)
  {
    hide ItemAt;
  }
}

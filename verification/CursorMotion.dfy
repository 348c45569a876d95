/** One cursor of TTyUtils-TextCursor and its motions. */
module CursorMotion {
  import opened Bytes
  import opened Grapheme
  import opened Clusters
  import opened LineIndexes
  import opened TextBuffer

  /** A cursor: where it is, where its selection starts, its preferred column. */
  datatype Cursor = Cursor(position: Position, anchor: Position, sticky: nat)

  datatype Motion = Left | Right | Up | Down | WordLeft | WordRight | ParagraphUp | ParagraphDown

  // ----- by cluster

  function LineLength(tab: Table, text: bytes, line: nat): nat {
    CountFrom(tab, LineText(text, line), 0)
  }

  function LeftOf(tab: Table, text: bytes, p: Position): Position {
    if p.col > 0 then Pos(p.line, p.col - 1)
    else if p.line > 0 then Pos(p.line - 1, LineLength(tab, text, p.line - 1))
    else p
  }

  function RightOf(tab: Table, text: bytes, p: Position): Position {
    if p.col < LineLength(tab, text, p.line) then Pos(p.line, p.col + 1)
    else if p.line + 1 < |LineStarts(text)| then Pos(p.line + 1, 0)
    else p
  }

  // ----- by word

  predicate IsWord(b: byte) {
    IsAlnum(b) || b == UNDERSCORE
  }

  /** The word bytes are the ASCII digits, letters and the underscore. */
  lemma WordBytes(b: byte)
    ensures IsWord(b)
       <==> '0' <= b as char <= '9' || 'A' <= b as char <= 'Z' || 'a' <= b as char <= 'z' || b as char == '_'
  {
  }

  function SkipRun(tab: Table, text: bytes, offset: nat, word: bool): (end: nat)
    requires offset <= |text|
    ensures offset <= end <= |text|
    decreases |text| - offset
  {
    if offset < |text| && IsWord(text[offset]) == word
    then SkipRun(tab, text, NextBreak(tab, text, offset), word) else offset
  }

  function PriorFrom(tab: Table, text: bytes, at: nat, offset: nat): (prior: nat)
    requires at < offset <= |text|
    ensures at <= prior < offset
    decreases offset - at
  {
    if NextBreak(tab, text, at) < offset then PriorFrom(tab, text, NextBreak(tab, text, at), offset) else at
  }

  /** The last boundary before `offset`. */
  function Prior(tab: Table, text: bytes, offset: nat): (prior: nat)
    requires 0 < offset <= |text|
    ensures prior < offset
  {
    PriorFrom(tab, text, 0, offset)
  }

  function BackToWord(tab: Table, text: bytes, offset: nat): (to: nat)
    requires offset <= |text|
    ensures to <= offset
  {
    if offset == 0 then 0
    else
      var prior := Prior(tab, text, offset);
      if IsWord(text[prior]) then prior else BackToWord(tab, text, prior)
  }

  function BackOverWord(tab: Table, text: bytes, offset: nat): (to: nat)
    requires offset <= |text|
    ensures to <= offset
  {
    if offset == 0 || !IsWord(text[Prior(tab, text, offset)]) then offset
    else BackOverWord(tab, text, Prior(tab, text, offset))
  }

  function WordLeftOf(tab: Table, text: bytes, offset: nat): (to: nat)
    requires offset <= |text|
    ensures to <= offset
  {
    BackOverWord(tab, text, BackToWord(tab, text, offset))
  }

  function WordRightOf(tab: Table, text: bytes, offset: nat): (to: nat)
    requires offset <= |text|
    ensures offset <= to <= |text|
  {
    if offset < |text| && IsWord(text[offset]) then SkipRun(tab, text, offset, true)
    else SkipRun(tab, text, offset, false)
  }

  /** `move_word`. */
  method MoveWord(tab: Table, text: bytes, position: Position, forward: bool) returns (moved: Position)
    ensures OffsetOf(tab, text, position) <= |text|
    ensures moved == PositionOf(tab, text, if forward then WordRightOf(tab, text, OffsetOf(tab, text, position))
                                           else WordLeftOf(tab, text, OffsetOf(tab, text, position)))
  {
    hide NextBreak, OffsetIn, PositionIn, LineStarts, Prior, IsWord;
    var index := new LineIndex(tab, text);
    var offset := index.Offset(position, text);
    OffsetBounded(tab, text, position);
    if forward {
      var startedWord := offset < |text| && IsWord(text[offset]);
      offset := FindRunEnd(tab, text, offset, true);
      if !startedWord {
        offset := FindRunEnd(tab, text, offset, false);
      }
    } else {
      offset := FindWordStart(tab, text, offset);
    }
    moved := index.Position(offset, text);
  }

  method FindRunEnd(tab: Table, text: bytes, offset: nat, word: bool) returns (end: nat)
    requires offset <= |text|
    ensures end == SkipRun(tab, text, offset, word)
  {
    hide NextBreak, IsWord;
    end := offset;
    while end < |text| && IsWord(text[end]) == word
      invariant end <= |text| && SkipRun(tab, text, end, word) == SkipRun(tab, text, offset, word)
      decreases |text| - end
    {
      end := FindNextBreak(tab, text, end);
    }
  }

  method FindPrior(tab: Table, text: bytes, offset: nat) returns (prior: nat)
    requires 0 < offset <= |text|
    ensures prior == Prior(tab, text, offset)
  {
    hide NextBreak;
    prior := 0;
    while true
      invariant prior < offset && PriorFrom(tab, text, prior, offset) == Prior(tab, text, offset)
      decreases offset - prior
    {
      var next := FindNextBreak(tab, text, prior);
      if next >= offset {
        return;
      }
      prior := next;
    }
  }

  method FindWordStart(tab: Table, text: bytes, offset: nat) returns (to: nat)
    requires offset <= |text|
    ensures to == WordLeftOf(tab, text, offset)
  {
    hide NextBreak, Prior, IsWord;
    to := offset;
    while to > 0
      invariant to <= |text| && BackToWord(tab, text, to) == BackToWord(tab, text, offset)
    {
      to := FindPrior(tab, text, to);
      if IsWord(text[to]) {
        assert to == BackToWord(tab, text, offset);
        break;
      }
    }
    assert to == BackToWord(tab, text, offset);
    while to > 0
      invariant to <= |text| && BackOverWord(tab, text, to) == WordLeftOf(tab, text, offset)
    {
      var prior := FindPrior(tab, text, to);
      if !IsWord(text[prior]) {
        break;
      }
      to := prior;
    }
  }

  // ----- by paragraph

  function UpOverEmpty(text: bytes, line: nat): nat {
    if line > 0 && LineText(text, line) == [] then UpOverEmpty(text, line - 1) else line
  }

  function UpOverFull(text: bytes, line: nat): nat {
    if line > 0 && LineText(text, line - 1) != [] then UpOverFull(text, line - 1) else line
  }

  function DownOverFull(text: bytes, line: nat): nat
    decreases |LineStarts(text)| - line
  {
    if line + 1 < |LineStarts(text)| && LineText(text, line + 1) != [] then DownOverFull(text, line + 1) else line
  }

  function DownOverEmpty(text: bytes, line: nat): nat
    decreases |LineStarts(text)| - line
  {
    if line + 1 < |LineStarts(text)| && LineText(text, line) == [] then DownOverEmpty(text, line + 1) else line
  }

  // ----- all motions

  function Target(tab: Table, text: bytes, c: Cursor, motion: Motion): Position {
    var p := c.position;
    OffsetBounded(tab, text, p);
    match motion
    case Left => LeftOf(tab, text, p)
    case Right => RightOf(tab, text, p)
    case Up =>
      if p.line > 0 then Pos(p.line - 1, Min(c.sticky, LineLength(tab, text, p.line - 1))) else p
    case Down =>
      if p.line + 1 < |LineStarts(text)| then Pos(p.line + 1, Min(c.sticky, LineLength(tab, text, p.line + 1))) else p
    case WordLeft => PositionOf(tab, text, WordLeftOf(tab, text, OffsetOf(tab, text, p)))
    case WordRight => PositionOf(tab, text, WordRightOf(tab, text, OffsetOf(tab, text, p)))
    case ParagraphUp => Pos(UpOverFull(text, UpOverEmpty(text, p.line)), 0)
    case ParagraphDown => Pos(DownOverEmpty(text, DownOverFull(text, p.line)), 0)
  }

  function Moved(tab: Table, text: bytes, c: Cursor, motion: Motion, extend: bool): Cursor {
    var p := Target(tab, text, c, motion);
    Cursor(p, if extend then c.anchor else c.position, p.col)
  }

  /** `Cursor::move`. */
  method Move(c: Cursor, buffer: Buffer, motion: Motion, extend: bool) returns (moved: Cursor)
    ensures moved == Moved(buffer.tab, buffer.Text(), c, motion, extend)
  {
    hide PositionOf, OffsetOf, LineText, LineStarts, WordLeftOf, WordRightOf, CountFrom, ClustersFrom;
    var position, anchor := c.position, if extend then c.anchor else c.position;
    var index := new LineIndex(buffer.tab, buffer.Text());
    var lines := index.Lines();
    match motion {
      case Left =>
        if position.col > 0 {
          position := Pos(position.line, position.col - 1);
        } else if position.line > 0 {
          var length := FindLineLength(buffer, position.line - 1);
          position := Pos(position.line - 1, length);
        }
      case Right =>
        var length := FindLineLength(buffer, position.line);
        if position.col < length {
          position := Pos(position.line, position.col + 1);
        } else if position.line + 1 < lines {
          position := Pos(position.line + 1, 0);
        }
      case Up =>
        if position.line > 0 {
          var length := FindLineLength(buffer, position.line - 1);
          position := Pos(position.line - 1, Min(c.sticky, length));
        }
      case Down =>
        if position.line + 1 < lines {
          var length := FindLineLength(buffer, position.line + 1);
          position := Pos(position.line + 1, Min(c.sticky, length));
        }
      case WordLeft =>
        position := MoveWord(buffer.tab, buffer.Text(), position, false);
      case WordRight =>
        position := MoveWord(buffer.tab, buffer.Text(), position, true);
      case ParagraphUp =>
        var line := FindParagraphUp(buffer, position.line);
        position := Pos(line, 0);
      case ParagraphDown =>
        var line := FindParagraphDown(buffer, position.line, lines);
        position := Pos(line, 0);
    }
    moved := Cursor(position, anchor, position.col);
  }

  method FindLineLength(buffer: Buffer, line: nat) returns (length: nat)
    ensures length == LineLength(buffer.tab, buffer.Text(), line)
  {
    var text := buffer.Line(line);
    length := Count(buffer.tab, text);
  }

  method FindParagraphUp(buffer: Buffer, start: nat) returns (line: nat)
    ensures line == UpOverFull(buffer.Text(), UpOverEmpty(buffer.Text(), start))
  {
    hide LineText;
    line := start;
    while line > 0
      invariant UpOverEmpty(buffer.Text(), line) == UpOverEmpty(buffer.Text(), start)
    {
      var current := buffer.Line(line);
      if current != [] {
        break;
      }
      line := line - 1;
    }
    assert line == UpOverEmpty(buffer.Text(), start);
    ghost var top := line;
    while line > 0
      invariant UpOverFull(buffer.Text(), line) == UpOverFull(buffer.Text(), top)
    {
      var above := buffer.Line(line - 1);
      if above == [] {
        break;
      }
      line := line - 1;
    }
  }

  method FindParagraphDown(buffer: Buffer, start: nat, lines: nat) returns (line: nat)
    requires lines == |LineStarts(buffer.Text())|
    ensures line == DownOverEmpty(buffer.Text(), DownOverFull(buffer.Text(), start))
  {
    hide LineText, LineStarts;
    line := start;
    while line + 1 < lines
      invariant DownOverFull(buffer.Text(), line) == DownOverFull(buffer.Text(), start)
    {
      var below := buffer.Line(line + 1);
      if below == [] {
        break;
      }
      line := line + 1;
    }
    assert line == DownOverFull(buffer.Text(), start);
    ghost var bottom := line;
    while line + 1 < lines
      invariant DownOverEmpty(buffer.Text(), line) == DownOverEmpty(buffer.Text(), bottom)
    {
      var current := buffer.Line(line);
      if current != [] {
        break;
      }
      line := line + 1;
    }
  }
}

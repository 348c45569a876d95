/** What every run of the escape-sequence parser keeps: invariants, chunk independence, recovery. */
module AutomatonLaws {
  import opened Bytes
  import opened Automatons

  // ----- what holds in every state a parser can reach

  ghost predicate ParameterBytes(s: bytes) {
    forall i :: 0 <= i < |s| ==> 0x20 <= s[i] <= 0x3F
  }

  /** Printable text is pending only in ground; a CSI collects only parameter and intermediate bytes. */
  ghost predicate Inv(p: Parser) {
    && (p.printable != [] ==> p.mode == Ground)
    && (p.mode in {Ground, Escape} ==> p.sequence == [])
    && (p.mode == Csi ==> ParameterBytes(p.sequence))
  }

  /** Parameter and intermediate bytes, then one final byte (section 5.4 of ECMA-48). */
  ghost predicate CsiPayload(s: bytes) {
    s != [] && ParameterBytes(s[..|s| - 1]) && 0x40 <= s[|s| - 1] <= 0x7E
  }

  ghost predicate EventOk(e: Event) {
    && (e.CsiSequence? ==> CsiPayload(e.payload))
    && (e.Print? ==> e.text != [])
  }

  ghost predicate EventsOk(events: seq<Event>) {
    forall i :: 0 <= i < |events| ==> EventOk(events[i])
  }

  lemma StepKeepsInv(p: Parser, b: byte)
    requires Inv(p)
    ensures Inv(Step(p, b).parser) && EventsOk(Step(p, b).events)
  {
    hide StepGround, StepEscape, StepCsi, StepOsc, StepDcs, StepStringEscape, StepC1, EventsOk;
    FlushedOk(p);
    if b == ESC || b == CAN || b == SUB {
    } else if p.mode != Ground && 0x80 <= b <= 0x9F {
      C1KeepsInv(p, b);
    } else if p.mode == Ground {
      GroundKeepsInv(p, b);
    } else if p.mode == Csi {
      CsiKeepsInv(p, b);
    } else {
      StringKeepsInv(p, b);
    }
  }

  lemma FlushedOk(p: Parser)
    ensures EventsOk(Flushed(p)) && EventsOk([])
  {
  }

  lemma GroundKeepsInv(p: Parser, b: byte)
    requires Inv(p) && p.mode == Ground
    ensures Inv(StepGround(p, b).parser) && EventsOk(StepGround(p, b).events)
  {
  }

  lemma CsiKeepsInv(p: Parser, b: byte)
    requires Inv(p) && p.mode == Csi
    ensures Inv(StepCsi(p, b).parser) && EventsOk(StepCsi(p, b).events)
  {
    assert (p.sequence + [b])[..|p.sequence|] == p.sequence;
  }

  lemma C1KeepsInv(p: Parser, b: byte)
    requires Inv(p) && p.mode != Ground
    ensures Inv(StepC1(p, b).parser) && EventsOk(StepC1(p, b).events)
  {
  }

  lemma StringKeepsInv(p: Parser, b: byte)
    requires Inv(p)
    ensures p.mode == Escape ==> Inv(StepEscape(p, b).parser) && EventsOk(StepEscape(p, b).events)
    ensures p.mode == Osc ==> Inv(StepOsc(p, b).parser) && EventsOk(StepOsc(p, b).events)
    ensures p.mode == Dcs ==> Inv(StepDcs(p, b).parser) && EventsOk(StepDcs(p, b).events)
    ensures p.mode == StringEscape ==>
              Inv(StepStringEscape(p, b).parser) && EventsOk(StepStringEscape(p, b).events)
  {
  }

  /** Over any input every reported CSI is well formed, and the invariant is kept. */
  lemma {:induction false} StepAllKeepsInv(p: Parser, input: bytes)
    requires Inv(p)
    ensures Inv(StepAll(p, input).parser) && EventsOk(StepAll(p, input).events)
    decreases |input|
  {
    hide Step, Inv, EventOk;
    if input != [] {
      StepKeepsInv(p, input[0]);
      StepAllKeepsInv(Step(p, input[0]).parser, input[1..]);
    }
  }

  // ----- chunks

  /** Adds an event to a trace in which adjacent prints are joined. */
  function Push(joined: seq<Event>, e: Event): seq<Event> {
    var n := |joined|;
    if e.Print? && n > 0 && joined[n - 1].Print? then joined[..n - 1] + [Print(joined[n - 1].text + e.text)]
    else joined + [e]
  }

  function JoinFrom(joined: seq<Event>, events: seq<Event>): seq<Event>
    decreases |events|
  {
    if events == [] then joined else JoinFrom(Push(joined, events[0]), events[1..])
  }

  /** The trace with adjacent prints joined: what the handlers learn about the text. */
  function Joined(events: seq<Event>): seq<Event> {
    JoinFrom([], events)
  }

  lemma {:induction false} JoinAppend(joined: seq<Event>, a: seq<Event>, b: seq<Event>)
    ensures JoinFrom(joined, a + b) == JoinFrom(JoinFrom(joined, a), b)
    decreases |a|
  {
    hide Push;
    if a == [] {
      assert a + b == b;
    } else {
      assert (a + b)[1..] == a[1..] + b;
      JoinAppend(Push(joined, a[0]), a[1..], b);
    }
  }

  lemma JoinTwoPrints(joined: seq<Event>, x: bytes, y: bytes)
    ensures Push(Push(joined, Print(x)), Print(y)) == Push(joined, Print(x + y))
  {
    var n := |joined|;
    if n > 0 && joined[n - 1].Print? {
      assert (joined[n - 1].text + x) + y == joined[n - 1].text + (x + y);
    }
  }

  lemma FedCons(p: Parser, input: bytes)
    requires input != []
    ensures var first := Step(p, input[0]);
            var rest := Fed(first.parser, input[1..]);
            Fed(p, input) == Outcome(rest.parser, first.events + rest.events)
  {
    hide Step;
    var first := Step(p, input[0]);
    var rest := StepAll(first.parser, input[1..]);
    assert first.events + (rest.events + Flushed(rest.parser)) == first.events + rest.events + Flushed(rest.parser);
  }

  /** Text that was pending when the input began may as well have been reported before it. */
  lemma {:induction false} PendingText(joined: seq<Event>, p: Parser, input: bytes, x: bytes, y: bytes)
    requires p.mode == Ground && x != [] && p.printable == x + y
    ensures var late, early := Fed(p, input), Fed(p.(printable := y), input);
            && late.parser == early.parser
            && JoinFrom(joined, late.events) == JoinFrom(joined, [Print(x)] + early.events)
    decreases |input|
  {
    hide *;
    var q := p.(printable := y);
    if input == [] {
      FlushJoins(joined, x, y);
      FedNothing(p);
      FedNothing(q);
    } else {
      var b := input[0];
      PendingSteps(p, b, y);
      FedCons(p, input);
      FedCons(q, input);
      var late, early := Step(p, b), Step(q, b);
      if late.parser == early.parser && late.parser.printable == [] {
        var rest := Fed(late.parser, input[1..]).events;
        TextThenEvents(joined, x, y, Step(p.(printable := []), b).events);
        JoinSame(joined, late.events, [Print(x)] + early.events, rest);
        assert [Print(x)] + (early.events + rest) == ([Print(x)] + early.events) + rest;
      } else {
        assert (x + y) + [b] == x + (y + [b]);
        PendingText(joined, late.parser, input[1..], x, y + [b]);
        NothingFirst(Fed(late.parser, input[1..]).events);
        NothingFirst(Fed(early.parser, input[1..]).events);
      }
    }
  }

  lemma NothingFirst(events: seq<Event>)
    ensures [] + events == events
  {
  }

  lemma FedNothing(p: Parser)
    ensures Fed(p, []) == Outcome(p.(printable := []), if p.printable == [] then [] else [Print(p.printable)])
  {
  }

  /** Traces that join alike still do when the same events follow. */
  lemma JoinSame(joined: seq<Event>, a: seq<Event>, b: seq<Event>, rest: seq<Event>)
    requires JoinFrom(joined, a) == JoinFrom(joined, b)
    ensures JoinFrom(joined, a + rest) == JoinFrom(joined, b + rest)
  {
    JoinAppend(joined, a, rest);
    JoinAppend(joined, b, rest);
  }

  /** The two ways a step can treat pending text, for the same parser with less of it pending. */
  lemma PendingSteps(p: Parser, b: byte, y: bytes)
    requires p.printable != [] && p.mode == Ground
    ensures var q, bare := p.(printable := y), p.(printable := []);
            || (Step(p, b) == Outcome(p.(printable := p.printable + [b]), [])
                && Step(q, b) == Outcome(q.(printable := y + [b]), []))
            || (Step(p, b).parser == Step(q, b).parser && Step(p, b).parser.printable == []
                && Step(p, b).events == [Print(p.printable)] + Step(bare, b).events
                && Step(q, b).events == (if y == [] then [] else [Print(y)]) + Step(bare, b).events)
  {
  }

  lemma FlushJoins(joined: seq<Event>, x: bytes, y: bytes)
    ensures JoinFrom(joined, [Print(x + y)])
         == JoinFrom(joined, [Print(x)] + if y == [] then [] else [Print(y)])
  {
    TextThenEvents(joined, x, y, []);
    assert [Print(x + y)] + [] == [Print(x + y)];
    assert [Print(x)] + ((if y == [] then [] else [Print(y)]) + []) == [Print(x)] + if y == [] then [] else [Print(y)];
  }

  lemma TextThenEvents(joined: seq<Event>, x: bytes, y: bytes, events: seq<Event>)
    ensures JoinFrom(joined, [Print(x + y)] + events)
         == JoinFrom(joined, [Print(x)] + ((if y == [] then [] else [Print(y)]) + events))
  {
    hide Push;
    if y == [] {
      assert x + y == x && [] + events == events;
    } else {
      JoinTwoPrints(joined, x, y);
      assert ([Print(x)] + ([Print(y)] + events))[1..] == [Print(y)] + events;
      assert ([Print(y)] + events)[1..] == events;
    }
    assert ([Print(x + y)] + events)[1..] == events;
  }

  lemma {:induction false} StepAllAppend(p: Parser, a: bytes, b: bytes)
    ensures var first := StepAll(p, a);
            var second := StepAll(first.parser, b);
            StepAll(p, a + b) == Outcome(second.parser, first.events + second.events)
    decreases |a|
  {
    hide Step;
    if a == [] {
      assert a + b == b;
    } else {
      assert (a + b)[1..] == a[1..] + b;
      StepAllAppend(Step(p, a[0]).parser, a[1..], b);
    }
  }

  /** A chunk, up to its flush, and then the rest of the input. */
  lemma FedAppend(p: Parser, a: bytes, b: bytes)
    ensures var o := StepAll(p, a);
            var rest := Fed(o.parser, b);
            Fed(p, a + b) == Outcome(rest.parser, o.events + rest.events)
  {
    hide Step, StepAll;
    StepAllAppend(p, a, b);
    var o := StepAll(p, a);
    var rest := StepAll(o.parser, b);
    assert o.events + (rest.events + Flushed(rest.parser)) == o.events + rest.events + Flushed(rest.parser);
  }

  /** Flushing before the rest of the input changes nothing but where prints are cut. */
  lemma FlushFirst(joined: seq<Event>, p: Parser, input: bytes)
    requires p.printable != [] ==> p.mode == Ground
    ensures var late, early := Fed(p, input), Fed(p.(printable := []), input);
            && late.parser == early.parser
            && JoinFrom(joined, late.events) == JoinFrom(joined, Flushed(p) + early.events)
  {
    hide Fed, JoinFrom;
    if p.printable != [] {
      assert p.printable + [] == p.printable;
      PendingText(joined, p, input, p.printable, []);
    } else {
      assert p.(printable := []) == p;
      assert [] + Fed(p, input).events == Fed(p, input).events;
    }
  }

  lemma FedIsFlushed(p: Parser, input: bytes)
    ensures var o := StepAll(p, input);
            Fed(p, input) == Outcome(o.parser.(printable := []), o.events + Flushed(o.parser))
  {
  }

  /** If two continuations join to the same trace, so do the whole traces. */
  lemma JoinContinues(joined: seq<Event>, first: seq<Event>, rest: seq<Event>, flushed: seq<Event>, other: seq<Event>)
    requires JoinFrom(JoinFrom(joined, first), rest) == JoinFrom(JoinFrom(joined, first), flushed + other)
    ensures JoinFrom(joined, first + rest) == JoinFrom(joined, (first + flushed) + other)
  {
    hide JoinFrom;
    JoinAppend(joined, first, rest);
    JoinAppend(joined, first, flushed + other);
    assert (first + flushed) + other == first + (flushed + other);
  }

  /** Feeding two chunks is feeding them as one, up to joining the prints at the seam. */
  lemma TwoChunks(joined: seq<Event>, p: Parser, a: bytes, b: bytes)
    requires Inv(p)
    ensures var first := Fed(p, a);
            var second, whole := Fed(first.parser, b), Fed(p, a + b);
            && whole.parser == second.parser
            && JoinFrom(joined, whole.events) == JoinFrom(joined, first.events + second.events)
  {
    hide *;
    var o := StepAll(p, a);
    FedIsFlushed(p, a);
    StepAllKeepsInv(p, a);
    PendingOnlyInGround(o.parser);
    FedAppend(p, a, b);
    FlushFirst(JoinFrom(joined, o.events), o.parser, b);
    JoinContinues(joined, o.events, Fed(o.parser, b).events, Flushed(o.parser),
                  Fed(o.parser.(printable := []), b).events);
  }

  lemma PendingOnlyInGround(p: Parser)
    requires Inv(p)
    ensures p.printable != [] ==> p.mode == Ground
  {
  }

  /** However the input is cut into chunks, the joined trace and the final state are those of one chunk. */
  lemma {:induction false} ChunksDoNotMatter(joined: seq<Event>, p: Parser, chunks: seq<bytes>)
    requires Inv(p) && chunks != []
    ensures var pieces, whole := FedChunks(p, chunks), Fed(p, Flatten(chunks));
            && pieces.parser == whole.parser
            && JoinFrom(joined, pieces.events) == JoinFrom(joined, whole.events)
    decreases |chunks|
  {
    hide Inv, Step, Push, Fed;
    var first := Fed(p, chunks[0]);
    if |chunks| == 1 {
      assert chunks[1..] == [] && Flatten(chunks) == chunks[0] + [] == chunks[0];
      assert FedChunks(p, chunks).events == first.events + [] == first.events;
    } else {
      FedKeepsInv(p, chunks[0]);
      var rest := Flatten(chunks[1..]);
      ChunksDoNotMatter(JoinFrom(joined, first.events), first.parser, chunks[1..]);
      TwoChunks(joined, p, chunks[0], rest);
      JoinAppend(joined, first.events, FedChunks(first.parser, chunks[1..]).events);
      JoinAppend(joined, first.events, Fed(first.parser, rest).events);
    }
  }

  lemma FedKeepsInv(p: Parser, input: bytes)
    requires Inv(p)
    ensures Inv(Fed(p, input).parser) && EventsOk(Fed(p, input).events) && Fed(p, input).parser.printable == []
  {
    StepAllKeepsInv(p, input);
  }

  /** Any two ways of cutting the same input give the same joined trace and the same final state. */
  lemma ChunkIndependence(p: Parser, chunks: seq<bytes>, others: seq<bytes>)
    requires Inv(p) && chunks != [] && others != [] && Flatten(chunks) == Flatten(others)
    ensures FedChunks(p, chunks).parser == FedChunks(p, others).parser
    ensures Joined(FedChunks(p, chunks).events) == Joined(FedChunks(p, others).events)
  {
    ChunksDoNotMatter([], p, chunks);
    ChunksDoNotMatter([], p, others);
  }

  // ----- recovery

  /** Parsers that differ at most in which kind of string was last escaped. */
  ghost predicate Alike(p: Parser, q: Parser) {
    && p.mode == q.mode && p.sequence == q.sequence && p.printable == q.printable
    && (p.mode == StringEscape ==> p.stringIsOsc == q.stringIsOsc)
  }

  lemma StepAlike(p: Parser, q: Parser, b: byte)
    requires Alike(p, q)
    ensures Alike(Step(p, b).parser, Step(q, b).parser) && Step(p, b).events == Step(q, b).events
  {
  }

  lemma {:induction false} StepAllAlike(p: Parser, q: Parser, input: bytes)
    requires Alike(p, q)
    ensures Alike(StepAll(p, input).parser, StepAll(q, input).parser)
    ensures StepAll(p, input).events == StepAll(q, input).events
    decreases |input|
  {
    hide Step, Alike;
    if input != [] {
      StepAlike(p, q, input[0]);
      StepAllAlike(Step(p, input[0]).parser, Step(q, input[0]).parser, input[1..]);
    }
  }

  /** After CAN or SUB in any state, everything that follows is parsed as by a fresh parser. */
  lemma CancelRecovers(p: Parser, b: byte, input: bytes)
    requires b == CAN || b == SUB
    ensures Step(p, b).events == Flushed(p)
    ensures Fed(Step(p, b).parser, input).events == Fed(INITIAL, input).events
  {
    StepAllAlike(Step(p, b).parser, INITIAL, input);
  }

  // ----- what ends a string

  predicate EndsString(events: seq<Event>) {
    exists i :: 0 <= i < |events| && (events[i].OscString? || events[i].DcsString?)
  }

  /** Inside a string only BEL ends it, and only an OSC; 0x9C is dropped and ends neither kind. */
  lemma StringEndsAt(p: Parser, b: byte)
    requires p.mode == Osc || p.mode == Dcs
    ensures EndsString(Step(p, b).events) <==> p.mode == Osc && b == BEL
    ensures b == 0x9C ==> Step(p, b) == Outcome(p, [])
  {
    if p.mode == Osc && b == BEL {
      assert Step(p, b).events[0] == OscString(p.sequence);
    }
  }

  /** After an ESC inside a string only a backslash ends it; ESC, CAN and SUB abandon it, other bytes resume it. */
  lemma StringEscapeEndsAt(p: Parser, b: byte)
    requires p.mode == StringEscape
    ensures EndsString(Step(p, b).events) <==> b == BACKSLASH
    ensures b == BACKSLASH ==>
              Step(p, b).events == [if p.stringIsOsc then OscString(p.sequence) else DcsString(p.sequence)]
  {
    if b == BACKSLASH {
      assert EndsString([Step(p, b).events[0]]);
    }
  }
}

/** What the chunks mean to their reader, and what the timeout does to a lone escape, a split host
    reply and a bracketed paste. */
module RawMeaning {
  import opened Machine
  import opened RawRecogniser
  import opened RawStability
  import opened RawFramer
  import opened RawTheorems
  import opened RawRuns

  // ----- chunks -----

  /** The events the drain loop recognises, one per chunk. */
  function DrainedEvents(p: Parsers, f: Framer): seq<Event>
    requires !f.loneEscapeRecentlyFlushed
    decreases |f.buffer|, f.discardUntil.Some?, 0
  {
    if f.discardUntil == Some(OrphanedSgrMouseTail) then
      var t := DiscardOrphanedSgrMouseTail(f.buffer, f.discardedTailBytes);
      if t.done then DrainedEvents(p, StopDiscarding(f, t.buffer)) else []
    else if f.discardUntil.Some? then
      var n := Terminator(f.buffer, f.discardUntil.value);
      if n.None? then [] else
      TerminatorInBuffer(f.buffer, f.discardUntil.value);
      DrainedEvents(p, StopDiscarding(f, f.buffer[n.value..]))
    else
      var e := ExtractOneEvent(p, f.buffer);
      if e.None? then [] else [e.value.event] + DrainedEvents(p, Consume(f, e.value))
  }

  /** Taken alone, each chunk yields its event and nothing is left over; only a run of escapes in
      front of a mouse report does not. */
  ghost predicate StandAlone(p: Parsers, chunks: seq<Bytes>, events: seq<Event>) {
    && |chunks| == |events|
    && forall i :: 0 <= i < |chunks| ==>
         chunks[i] != []
         && (AllEsc(chunks[i]) || ExtractOneEvent(p, chunks[i]) == Some(Extracted(events[i], |chunks[i]|)))
  }

  lemma StandAloneEmit(p: Parsers, chunk: Bytes, rest: Output, event: Event, events: seq<Event>)
    requires StandAlone(p, rest.chunks, events) && chunk != []
    requires AllEsc(chunk) || ExtractOneEvent(p, chunk) == Some(Extracted(event, |chunk|))
    ensures StandAlone(p, Emit(chunk, rest).chunks, [event] + events)
  {}

  lemma {:induction false} ChunksStandAlone(p: Parsers, f: Framer)
    requires !f.loneEscapeRecentlyFlushed
    ensures StandAlone(p, DrainSettled(p, f).chunks, DrainedEvents(p, f))
    decreases |f.buffer|, f.discardUntil.Some?
  {
    if f.discardUntil == Some(OrphanedSgrMouseTail) {
      var t := DiscardOrphanedSgrMouseTail(f.buffer, f.discardedTailBytes);
      if t.done {
        ChunksStandAlone(p, StopDiscarding(f, t.buffer));
      }
    } else if f.discardUntil.Some? {
      var n := Terminator(f.buffer, f.discardUntil.value);
      if n.Some? {
        TerminatorInBuffer(f.buffer, f.discardUntil.value);
        ChunksStandAlone(p, StopDiscarding(f, f.buffer[n.value..]));
      }
    } else {
      var e := ExtractOneEvent(p, f.buffer);
      if e.Some? {
        var n := e.value.consumed;
        ChunksStandAlone(p, Consume(f, e.value));
        if !AllEsc(f.buffer[..n]) {
          ExtractionStandsAlone(p, f.buffer, n);
        }
        StandAloneEmit(p, f.buffer[..n], DrainSettled(p, Consume(f, e.value)), e.value.event,
                       DrainedEvents(p, Consume(f, e.value)));
      }
    }
  }

  /** A lone escape reads as the Escape key; longer escape runs read as nothing. */
  function ReadEvent(chunk: Bytes, event: Event, escape: TerminalKey): seq<Event> {
    if chunk == [ESC] then [Key(escape)] else if AllEsc(chunk) then [] else [event]
  }

  function ReadEvents(chunks: seq<Bytes>, events: seq<Event>, escape: TerminalKey): seq<Event>
    requires |chunks| == |events|
  {
    if chunks == [] then []
    else ReadEvent(chunks[0], events[0], escape) + ReadEvents(chunks[1..], events[1..], escape)
  }

  lemma {:induction false} EscapeRunIsNoSequence(buf: Bytes)
    requires buf != [] && AllEsc(buf)
    ensures CompleteEscapeSequenceLen(buf).None?
  {
    if |buf| > 1 {
      EscapeRunIsNoSequence(buf[1..]);
      assert buf[0] == ESC && buf[1] == ESC;
      assert EscapedMouse(buf).None? by {
        if |buf| >= 3 { assert buf[2] == ESC; }
      }
    }
  }

  /** Reading the chunks back gives the events the drain loop saw. */
  lemma {:induction false} ReadingBack(p: Parsers, chunks: seq<Bytes>, events: seq<Event>, escape: TerminalKey)
    requires StandAlone(p, chunks, events)
    ensures EventsFromChunks(p, chunks, escape) == ReadEvents(chunks, events, escape)
    decreases chunks
  {
    if chunks != [] {
      assert StandAlone(p, chunks[1..], events[1..]);
      ReadingBack(p, chunks[1..], events[1..], escape);
      if AllEsc(chunks[0]) {
        EscapeRunIsNoSequence(chunks[0]);
        assert chunks[0][0] == ESC;
        assert !(PASTE_START <= chunks[0]) by {
          if |chunks[0]| >= 2 { assert chunks[0][1] == ESC; }
        }
      }
    }
  }

  /** The state the drain loop proper starts in, past a report whose escape was flushed; none if
      the bytes are still held as the start of such a report. */
  function DrainStart(f: Framer): Option<Framer> {
    var g := f.(loneEscapeRecentlyFlushed := false);
    if !f.loneEscapeRecentlyFlushed then Some(g)
    else if StartsWithIncompleteOrphanedSgrMouseTail(f.buffer) then None
    else if CompleteOrphanedSgrMouseTail(f.buffer).None? then Some(g)
    else Some(g.(buffer := f.buffer[CompleteOrphanedSgrMouseTail(f.buffer).value..]))
  }

  /** The events the drain loop recognises in any state. */
  function AvailableEvents(p: Parsers, f: Framer): seq<Event> {
    if DrainStart(f).None? then [] else DrainedEvents(p, DrainStart(f).value)
  }

  /** In any state, what a push hands on reads back as the events the drain loop saw. */
  lemma PushedChunksReadBack(p: Parsers, f: Framer, data: Bytes, escape: TerminalKey)
    ensures var chunks, events := Push(p, f, data).chunks, AvailableEvents(p, WithMore(f, data));
      && StandAlone(p, chunks, events)
      && EventsFromChunks(p, chunks, escape) == ReadEvents(chunks, events, escape)
  {
    var g := WithMore(f, data);
    if DrainStart(g).Some? {
      ChunksStandAlone(p, DrainStart(g).value);
      assert DrainAvailableChunks(p, g) == DrainSettled(p, DrainStart(g).value);
    }
    ReadingBack(p, Push(p, f, data).chunks, AvailableEvents(p, g), escape);
  }

  lemma {:induction false} DrainedHoldsNoEvent(p: Parsers, f: Framer)
    requires !f.loneEscapeRecentlyFlushed
    ensures var g := DrainSettled(p, f).framer;
      g.discardUntil.None? ==> ExtractOneEvent(p, g.buffer).None?
    decreases |f.buffer|, f.discardUntil.Some?
  {
    if f.discardUntil == Some(OrphanedSgrMouseTail) {
      var t := DiscardOrphanedSgrMouseTail(f.buffer, f.discardedTailBytes);
      if t.done {
        DrainedHoldsNoEvent(p, StopDiscarding(f, t.buffer));
      }
    } else if f.discardUntil.Some? {
      var n := Terminator(f.buffer, f.discardUntil.value);
      if n.Some? {
        TerminatorInBuffer(f.buffer, f.discardUntil.value);
        DrainedHoldsNoEvent(p, StopDiscarding(f, f.buffer[n.value..]));
      }
    } else {
      var e := ExtractOneEvent(p, f.buffer);
      if e.Some? {
        DrainedHoldsNoEvent(p, Consume(f, e.value));
      }
    }
  }

  lemma TimeoutHandsOnBuffer(p: Parsers, f: Framer)
    ensures var late := TimeoutDrained(p, f).chunks;
      late == [] || (late == [f.buffer] && f.discardUntil.None?)
  {}

  lemma EventsOfOneChunk(p: Parsers, chunk: Bytes, escape: TerminalKey)
    ensures EventsFromChunks(p, [chunk], escape)
         == if chunk == [ESC] then [Key(escape)]
            else if ExtractOneEvent(p, chunk).None? then [] else [ExtractOneEvent(p, chunk).value.event]
  {
    assert [chunk][1..] == [] && EventsFromChunks(p, [], escape) == [];
  }

  // ----- what every reachable state keeps -----

  predicate Sound(f: Framer) {
    && f.hostColorRepliesAwaited <= HOST_COLOR_QUERY_REPLIES
    && (f.heldPendingColorEsc ==> f.hostColorRepliesAwaited > 0)
    && (f.discardUntil.Some? ==> f.discardedTailBytes <= MAX_DISCARDED_CONTROL_TAIL_BYTES
                                 && !f.loneEscapeRecentlyFlushed)
    && (f.discardUntil == Some(OrphanedSgrMouseTail) ==> f.buffer == [])
    && (f.loneEscapeRecentlyFlushed ==> StartsWithIncompleteOrphanedSgrMouseTail(f.buffer))
  }

  /** `Sound` but for bytes that were just read. */
  predicate SoundBeforeDrain(f: Framer) {
    && f.hostColorRepliesAwaited <= HOST_COLOR_QUERY_REPLIES
    && (f.heldPendingColorEsc ==> f.hostColorRepliesAwaited > 0)
    && (f.discardUntil.Some? ==> f.discardedTailBytes <= MAX_DISCARDED_CONTROL_TAIL_BYTES
                                 && !f.loneEscapeRecentlyFlushed)
  }

  lemma {:induction false} DrainIsSound(p: Parsers, f: Framer)
    requires SoundBeforeDrain(f) && !f.loneEscapeRecentlyFlushed
    ensures Sound(DrainSettled(p, f).framer) && !DrainSettled(p, f).framer.loneEscapeRecentlyFlushed
    decreases |f.buffer|, f.discardUntil.Some?
  {
    if f.discardUntil == Some(OrphanedSgrMouseTail) {
      var t := DiscardOrphanedSgrMouseTail(f.buffer, f.discardedTailBytes);
      if t.done {
        DrainIsSound(p, StopDiscarding(f, t.buffer));
      }
    } else if f.discardUntil.Some? {
      var n := Terminator(f.buffer, f.discardUntil.value);
      if n.Some? {
        TerminatorInBuffer(f.buffer, f.discardUntil.value);
        DrainIsSound(p, StopDiscarding(f, f.buffer[n.value..]));
      }
    } else {
      var e := ExtractOneEvent(p, f.buffer);
      if e.Some? {
        DrainIsSound(p, Consume(f, e.value));
      }
    }
  }

  lemma AvailableIsSound(p: Parsers, f: Framer)
    requires SoundBeforeDrain(f)
    ensures Sound(DrainAvailableChunks(p, f).framer)
  {
    if f.loneEscapeRecentlyFlushed && StartsWithIncompleteOrphanedSgrMouseTail(f.buffer) {
    } else if f.loneEscapeRecentlyFlushed && CompleteOrphanedSgrMouseTail(f.buffer).Some? {
      DrainIsSound(p, f.(buffer := f.buffer[CompleteOrphanedSgrMouseTail(f.buffer).value..],
                         loneEscapeRecentlyFlushed := false));
    } else {
      DrainIsSound(p, f.(loneEscapeRecentlyFlushed := false));
    }
  }

  lemma TimeoutIsSound(p: Parsers, f: Framer)
    requires Sound(f)
    ensures Sound(TimeoutDrained(p, f).framer)
  {
    if f.discardUntil.Some? {
      DiscardingTimeoutIsSound(p, f);
    } else if f.loneEscapeRecentlyFlushed {
      FlushedTimeoutIsSound(p, f);
    } else {
      QuietTimeoutIsSound(p, f);
    }
  }

  lemma DiscardingTimeoutIsSound(p: Parsers, f: Framer)
    requires Sound(f) && f.discardUntil.Some?
    ensures Sound(TimeoutDrained(p, f).framer)
  {}

  lemma FlushedTimeoutIsSound(p: Parsers, f: Framer)
    requires Sound(f) && f.loneEscapeRecentlyFlushed
    ensures Sound(TimeoutDrained(p, f).framer)
  {
    if f.buffer != [] {
      assert f.buffer[0] == 0x5b;
      assert ORPHANED_START <= f.buffer || f.buffer == [0x5b];
    }
  }

  lemma QuietTimeoutIsSound(p: Parsers, f: Framer)
    requires Sound(f) && f.discardUntil.None? && !f.loneEscapeRecentlyFlushed
    ensures Sound(TimeoutDrained(p, f).framer)
  {}

  /** At most two colour replies are awaited, an escape is held only while one is, and discarding
      counts at most 128 bytes, in every state of every run. */
  lemma {:induction false} EveryStateIsSound(p: Parsers, f: Framer, inputs: seq<Input>)
    requires Sound(f)
    ensures Sound(Play(p, f, inputs).framer)
    decreases inputs
  {
    if inputs != [] {
      var next := Step(p, f, inputs[0]).framer;
      assert Sound(next) by {
        match inputs[0] {
          case Read(data) =>
            AvailableIsSound(p, f.(buffer := f.buffer + data));
          case Timeout =>
            AvailableIsSound(p, f);
            TimeoutIsSound(p, DrainAvailableChunks(p, f).framer);
          case _ =>
        }
      }
      EveryStateIsSound(p, next, inputs[1..]);
    }
  }

  const BRACKET: Bytes := [0x5b]

  lemma FlushedHoldsBracketOrNothing(p: Parsers, f: Framer)
    requires Sound(f) && f.loneEscapeRecentlyFlushed
    ensures DrainAvailableChunks(p, f) == Output([], f)
    ensures TimeoutDrained(p, f).chunks == [] || (f.buffer == BRACKET && p.key(BRACKET).Some?)
  {
    if f.buffer != [] {
      assert f.buffer[0] == 0x5b;
      assert ORPHANED_START <= f.buffer || f.buffer == BRACKET;
    }
  }

  lemma UnflushedDrainsToNoEvent(p: Parsers, f: Framer)
    requires Sound(f) && !f.loneEscapeRecentlyFlushed
    ensures var d := DrainAvailableChunks(p, f).framer;
      !d.loneEscapeRecentlyFlushed && (d.discardUntil.None? ==> ExtractOneEvent(p, d.buffer).None?)
  {
    DrainedHoldsNoEvent(p, f);
    DrainIsSound(p, f);
  }

  lemma BracketIsItsKey(p: Parsers)
    requires p.key(BRACKET).Some?
    ensures ExtractOneEvent(p, BRACKET) == Some(Extracted(Key(p.key(BRACKET).value), 1))
  {
    assert BRACKET[..1] == BRACKET && BRACKET[1..] == [];
  }

  /** A chunk that only a timeout completes is handed on for the byte stream, but the event reader
      finds no event in it, with two exceptions: the lone escape, and the bracket that was held
      back because an escape had just been flushed. */
  lemma TimedOutChunkEvents(p: Parsers, f: Framer, escape: TerminalKey)
    requires Sound(f)
    ensures var timedOut := TimeoutDrained(p, DrainAvailableChunks(p, f).framer).chunks;
      && (timedOut == [BRACKET] ==> f.loneEscapeRecentlyFlushed && p.key(BRACKET).Some?)
      && EventsFromChunks(p, timedOut, escape)
         == if timedOut == [[ESC]] then [Key(escape)]
            else if timedOut == [BRACKET] then [Key(p.key(BRACKET).value)]
            else []
  {
    var d := DrainAvailableChunks(p, f).framer;
    TimeoutHandsOnBuffer(p, d);
    EventsOfOneChunk(p, d.buffer, escape);
    if f.loneEscapeRecentlyFlushed {
      FlushedHoldsBracketOrNothing(p, f);
      if p.key(BRACKET).Some? {
        BracketIsItsKey(p);
      }
    } else {
      UnflushedDrainsToNoEvent(p, f);
      DrainedBracketHasNoKey(p, d);
    }
  }

  lemma DrainedBracketHasNoKey(p: Parsers, f: Framer)
    requires f.discardUntil.None? ==> ExtractOneEvent(p, f.buffer).None?
    ensures TimeoutDrained(p, f).chunks != [BRACKET]
  {
    TimeoutHandsOnBuffer(p, f);
    if p.key(BRACKET).Some? {
      BracketIsItsKey(p);
    }
  }

  /** Both exceptions happen: after an escape and a pause, a bracket and a pause. */
  lemma HeldBracketHasItsKey(p: Parsers, escape: TerminalKey)
    requires p.key(BRACKET).Some?
    ensures var o := Play(p, FRESH, [Read([ESC]), Timeout, Read(BRACKET)]);
      && o.chunks == [[ESC]] && FlushTimeout(p, o.framer).chunks == [BRACKET]
      && EventsFromChunks(p, [BRACKET], escape) == [Key(p.key(BRACKET).value)]
  {
    PushLoneEscape(p, FRESH);
    var pressed := FRESH.(buffer := [ESC]);
    TimeoutOnLoneEscape(p, pressed);
    var flushed := FRESH.(loneEscapeRecentlyFlushed := true);
    assert FlushTimeout(p, pressed) == Output([[ESC]], flushed);
    assert flushed.buffer + BRACKET == BRACKET;
    var held := flushed.(buffer := BRACKET);
    assert Push(p, flushed, BRACKET) == Output([], held);
    PlayThree(p, FRESH, Read([ESC]), Timeout, Read(BRACKET));
    BracketTimesOut(p, held);
    BracketIsItsKey(p);
    EventsOfOneChunk(p, BRACKET, escape);
  }

  /** The rule itself: Alt with an opening bracket, once timed out, is handed on and read as nothing,
      though its bytes parse as a key. */
  lemma AltBracketIsReadAsNothing(p: Parsers, escape: TerminalKey)
    requires p.key([ESC, 0x5b]).Some?
    ensures var o := Play(p, FRESH, [Read([ESC, 0x5b]), Timeout]);
      o.chunks == [[ESC, 0x5b]] && EventsFromChunks(p, o.chunks, escape) == []
  {
    var alt: Bytes := [ESC, 0x5b];
    var held := FRESH.(buffer := alt);
    assert alt[2..] == [] && ExtractOneEvent(p, alt).None?;
    assert FRESH.buffer + alt == alt && Push(p, FRESH, alt) == Output([], held);
    AltBracketTimesOut(p, held);
    PlayTwo(p, FRESH, Read(alt), Timeout);
    EventsOfOneChunk(p, alt, escape);
  }

  lemma AltBracketTimesOut(p: Parsers, f: Framer)
    requires f == FRESH.(buffer := [ESC, 0x5b]) && p.key(f.buffer).Some? && ExtractOneEvent(p, f.buffer).None?
    ensures FlushTimeout(p, f).chunks == [[ESC, 0x5b]]
  {
    assert DrainAvailableChunks(p, f) == Output([], f);
    PlainBytesAreUtf8(f.buffer);
    assert TimeoutDrained(p, f).chunks == [f.buffer];
  }

  lemma BracketTimesOut(p: Parsers, f: Framer)
    requires f.discardUntil.None? && f.loneEscapeRecentlyFlushed && f.buffer == BRACKET && p.key(BRACKET).Some?
    ensures FlushTimeout(p, f).chunks == [BRACKET]
  {
    assert DrainAvailableChunks(p, f) == Output([], f);
    PlainBytesAreUtf8(BRACKET);
    assert TimeoutDrained(p, f).chunks == [BRACKET];
  }

  // ----- a lone escape -----

  lemma DrainLoneEscape(p: Parsers, f: Framer)
    requires f.discardUntil.None? && f.buffer == [ESC]
    ensures DrainAvailableChunks(p, f) == Output([], f.(loneEscapeRecentlyFlushed := false))
  {
    assert ExtractOneEvent(p, [ESC]).None?;
    assert !StartsWithIncompleteOrphanedSgrMouseTail([ESC]);
    assert CompleteOrphanedSgrMouseTail([ESC]).None?;
  }

  lemma TimeoutOnLoneEscape(p: Parsers, f: Framer)
    requires f.discardUntil.None? && f.buffer == [ESC]
    ensures FlushTimeout(p, f) == TimeoutLoneEscape(f.(loneEscapeRecentlyFlushed := false))
  {
    DrainLoneEscape(p, f);
    assert !StartsWithIncompleteHostColorSchemeReport([ESC]);
  }

  lemma TimeoutOnNothing(p: Parsers, f: Framer)
    requires f.discardUntil.None? && f.buffer == []
    ensures FlushTimeout(p, f) == Output([], f)
  {
    assert ExtractOneEvent(p, []).None?;
    if !f.loneEscapeRecentlyFlushed {
      assert DrainSettled(p, f) == Output([], f);
    }
  }

  /** Escape followed by two quiet periods is handed on exactly once: in the first unless a colour
      reply is awaited and no escape was held before, and then in the second. After it no reply is
      awaited, so the next escape is not held. */
  lemma LoneEscapeIsHandedOnOnce(p: Parsers, f: Framer)
    requires f.discardUntil.None? && f.buffer == []
    ensures var pushed := Push(p, f, [ESC]);
      var first := FlushTimeout(p, pushed.framer);
      var second := FlushTimeout(p, first.framer);
      && pushed.chunks == []
      && first.chunks + second.chunks == [[ESC]]
      && (first.chunks == [] <==> f.hostColorRepliesAwaited > 0 && !f.heldPendingColorEsc)
      && second.framer.buffer == []
      && second.framer.loneEscapeRecentlyFlushed && second.framer.hostColorRepliesAwaited == 0
  {
    PushLoneEscape(p, f);
    var pushed := Push(p, f, [ESC]).framer;
    TimeoutOnLoneEscape(p, pushed);
    var first := FlushTimeout(p, pushed).framer;
    if first.buffer == [ESC] {
      TimeoutOnLoneEscape(p, first);
    } else {
      TimeoutOnNothing(p, first);
    }
  }

  /** While a colour reply is awaited, a quiet period between its escape and the rest does not
      break the reply apart. */
  lemma HeldEscapeRejoinsReply(p: Parsers, f: Framer, rest: Bytes)
    requires f.discardUntil.None? && f.buffer == [] && f.hostColorRepliesAwaited > 0 && !f.heldPendingColorEsc
    requires ExtractOneEvent(p, [ESC] + rest).Some?
          && ExtractOneEvent(p, [ESC] + rest).value.consumed == |[ESC] + rest|
    ensures Play(p, f, [Read([ESC]), Timeout, Read(rest)]).chunks == [[ESC] + rest]
  {
    var pushed := f.(buffer := [ESC], loneEscapeRecentlyFlushed := false);
    var held := pushed.(heldPendingColorEsc := true);
    PushLoneEscape(p, f);
    TimeoutOnLoneEscape(p, pushed);
    assert FlushTimeout(p, pushed) == Output([], held);
    PushRest(p, held, rest);
    PlayThree(p, f, Read([ESC]), Timeout, Read(rest));
  }

  lemma PushLoneEscape(p: Parsers, f: Framer)
    requires f.discardUntil.None? && f.buffer == []
    ensures Push(p, f, [ESC]) == Output([], f.(buffer := [ESC], loneEscapeRecentlyFlushed := false))
  {
    assert f.buffer + [ESC] == [ESC];
    DrainLoneEscape(p, f.(buffer := [ESC]));
  }

  lemma PushRest(p: Parsers, f: Framer, rest: Bytes)
    requires f.discardUntil.None? && !f.loneEscapeRecentlyFlushed && f.buffer == [ESC]
    requires ExtractOneEvent(p, [ESC] + rest).Some?
          && ExtractOneEvent(p, [ESC] + rest).value.consumed == |[ESC] + rest|
    ensures Push(p, f, rest).chunks == [[ESC] + rest]
  {
    var g := f.(buffer := [ESC] + rest);
    DrainWhole(p, g, ExtractOneEvent(p, g.buffer).value);
    assert Push(p, f, rest) == DrainSettled(p, g);
  }

  lemma DrainWhole(p: Parsers, f: Framer, e: Extracted)
    requires Settled(f) && f.discardUntil.None?
    requires ExtractOneEvent(p, f.buffer) == Some(e) && e.consumed == |f.buffer|
    ensures DrainSettled(p, f) == Output([f.buffer], Consume(f, e))
  {
    DrainTakesEvent(p, f, e);
    assert f.buffer[..e.consumed] == f.buffer;
    assert Consume(f, e).buffer == [];
    assert DrainSettled(p, Consume(f, e)) == Output([], Consume(f, e));
  }

  lemma PlayThree(p: Parsers, f: Framer, a: Input, b: Input, c: Input)
    ensures var x := Step(p, f, a);
      var y := Step(p, x.framer, b);
      var z := Step(p, y.framer, c);
      Play(p, f, [a, b, c]) == Output(x.chunks + (y.chunks + z.chunks), z.framer)
  {
    var x := Step(p, f, a);
    var y := Step(p, x.framer, b);
    var z := Step(p, y.framer, c);
    PlayOne(p, f, a, [b, c]);
    PlayOne(p, x.framer, b, [c]);
    PlayOne(p, y.framer, c, []);
    assert [a, b, c] == [a] + [b, c] && [b, c] == [b] + [c] && [c] == [c] + [];
    assert Play(p, z.framer, []) == Output([], z.framer);
    assert z.chunks + [] == z.chunks;
  }

  lemma PlayTwo(p: Parsers, f: Framer, a: Input, b: Input)
    ensures var x := Step(p, f, a);
      var y := Step(p, x.framer, b);
      Play(p, f, [a, b]) == Output(x.chunks + y.chunks, y.framer)
  {
    var x := Step(p, f, a);
    var y := Step(p, x.framer, b);
    PlayOne(p, f, a, [b]);
    PlayOne(p, x.framer, b, []);
    assert [a, b] == [a] + [b] && [b] == [b] + [];
    assert Play(p, y.framer, []) == Output([], y.framer);
    assert y.chunks + [] == y.chunks;
  }

  lemma PlayOne(p: Parsers, f: Framer, a: Input, rest: seq<Input>)
    ensures var x := Step(p, f, a);
      var y := Play(p, x.framer, rest);
      Play(p, f, [a] + rest) == Output(x.chunks + y.chunks, y.framer)
  {
    assert ([a] + rest)[1..] == rest;
  }
}

/** What the framer guarantees over whole runs, however reads are cut and whenever timeouts fall. */
module RawTheorems {
  import opened Machine
  import opened RawRecogniser
  import opened RawStability
  import opened RawFramer

  // ----- reads may be cut anywhere -----

  /** States in which the bytes to come are not a mouse report whose start is already gone. */
  predicate Settled(f: Framer) {
    !f.loneEscapeRecentlyFlushed && f.discardUntil != Some(OrphanedSgrMouseTail)
  }

  function WithMore(f: Framer, data: Bytes): Framer {
    f.(buffer := f.buffer + data)
  }

  lemma {:induction false} DrainStaysSettled(p: Parsers, f: Framer)
    requires Settled(f)
    ensures Settled(DrainSettled(p, f).framer)
    decreases |f.buffer|, f.discardUntil.Some?
  {
    if f.discardUntil.Some? {
      var n := Terminator(f.buffer, f.discardUntil.value);
      if n.Some? {
        TerminatorInBuffer(f.buffer, f.discardUntil.value);
        DrainStaysSettled(p, StopDiscarding(f, f.buffer[n.value..]));
      }
    } else {
      var e := ExtractOneEvent(p, f.buffer);
      if e.Some? {
        DrainStaysSettled(p, Consume(f, e.value));
      }
    }
  }

  lemma ConsumeCommutes(p: Parsers, f: Framer, more: Bytes, e: Extracted)
    requires ExtractOneEvent(p, f.buffer) == Some(e)
    ensures ExtractOneEvent(p, f.buffer + more) == Some(e)
    ensures Consume(WithMore(f, more), e) == WithMore(Consume(f, e), more)
    ensures (f.buffer + more)[..e.consumed] == f.buffer[..e.consumed]
  {
    ExtractionExtends(p, f.buffer, f.buffer + more);
    assert (f.buffer + more)[e.consumed..] == f.buffer[e.consumed..] + more;
  }

  lemma TerminatorCommutes(f: Framer, more: Bytes, family: Family, n: nat)
    requires Terminator(f.buffer, family) == Some(n)
    ensures n <= |f.buffer| && Terminator(f.buffer + more, family) == Some(n)
    ensures StopDiscarding(WithMore(f, more), (f.buffer + more)[n..])
         == WithMore(StopDiscarding(f, f.buffer[n..]), more)
  {
    TerminatorInBuffer(f.buffer, family);
    TerminatorOnPrefix(f.buffer, f.buffer + more, family);
    assert (f.buffer + more)[n..] == f.buffer[n..] + more;
  }

  ghost predicate DrainsInTwo(p: Parsers, f: Framer, more: Bytes) {
    Settled(f) && Settled(DrainSettled(p, f).framer)
    && var first := DrainSettled(p, f);
       var second := DrainSettled(p, WithMore(first.framer, more));
       DrainSettled(p, WithMore(f, more)) == Output(first.chunks + second.chunks, second.framer)
  }

  lemma DrainTakesEvent(p: Parsers, f: Framer, e: Extracted)
    requires Settled(f) && f.discardUntil.None? && ExtractOneEvent(p, f.buffer) == Some(e)
    ensures DrainSettled(p, f) == Emit(f.buffer[..e.consumed], DrainSettled(p, Consume(f, e)))
  {}

  lemma EmitJoins(chunk: Bytes, rest: Output, second: Output)
    ensures Emit(chunk, Output(rest.chunks + second.chunks, second.framer))
         == Output(Emit(chunk, rest).chunks + second.chunks, second.framer)
  {
    assert [chunk] + (rest.chunks + second.chunks) == [chunk] + rest.chunks + second.chunks;
  }

  lemma ExtractingDrainsInTwo(p: Parsers, f: Framer, more: Bytes, e: Extracted)
    requires Settled(f) && f.discardUntil.None? && ExtractOneEvent(p, f.buffer) == Some(e)
    requires DrainsInTwo(p, Consume(f, e), more)
    ensures DrainsInTwo(p, f, more)
  {
    var g := WithMore(f, more);
    assert ExtractOneEvent(p, g.buffer) == Some(e) && Consume(g, e) == WithMore(Consume(f, e), more)
        && g.buffer[..e.consumed] == f.buffer[..e.consumed] by {
      ConsumeCommutes(p, f, more, e);
    }
    DrainTakesEvent(p, f, e);
    DrainTakesEvent(p, g, e);
    var rest := DrainSettled(p, Consume(f, e));
    EmitJoins(f.buffer[..e.consumed], rest, DrainSettled(p, WithMore(rest.framer, more)));
  }

  /** Draining what is there and then what comes is draining everything at once. */
  lemma {:induction false} DrainInTwo(p: Parsers, f: Framer, more: Bytes)
    requires Settled(f)
    ensures DrainsInTwo(p, f, more)
    decreases |f.buffer|, f.discardUntil.Some?
  {
    if f.discardUntil.Some? {
      var family := f.discardUntil.value;
      var n := Terminator(f.buffer, family);
      if n.Some? {
        TerminatorInBuffer(f.buffer, family);
        TerminatorCommutes(f, more, family, n.value);
        DrainInTwo(p, StopDiscarding(f, f.buffer[n.value..]), more);
      }
    } else {
      var e := ExtractOneEvent(p, f.buffer);
      if e.Some? {
        DrainInTwo(p, Consume(f, e.value), more);
        ExtractingDrainsInTwo(p, f, more, e.value);
      }
    }
  }

  /** Pushing two reads gives the chunks and the state of pushing them as one. */
  lemma PushInTwo(p: Parsers, f: Framer, a: Bytes, b: Bytes)
    requires Settled(f)
    ensures var first := Push(p, f, a);
      var second := Push(p, first.framer, b);
      Settled(first.framer) && Push(p, f, a + b) == Output(first.chunks + second.chunks, second.framer)
  {
    assert f.buffer + (a + b) == f.buffer + a + b;
    DrainInTwo(p, WithMore(f, a), b);
  }

  function PushAll(p: Parsers, f: Framer, cuts: seq<Bytes>): Output
    decreases cuts
  {
    if cuts == [] then Output([], f)
    else
      var first := Push(p, f, cuts[0]);
      var rest := PushAll(p, first.framer, cuts[1..]);
      Output(first.chunks + rest.chunks, rest.framer)
  }

  function Flatten(cuts: seq<Bytes>): Bytes {
    if cuts == [] then [] else cuts[0] + Flatten(cuts[1..])
  }

  /** However a byte stream is cut into reads, the chunks and the final state are the same. */
  lemma {:induction false} ReadsMayBeCutAnywhere(p: Parsers, f: Framer, cuts: seq<Bytes>)
    requires Settled(f) && cuts != []
    ensures PushAll(p, f, cuts) == Push(p, f, Flatten(cuts))
    decreases cuts
  {
    if |cuts| == 1 {
      assert Flatten(cuts) == cuts[0];
      assert PushAll(p, Push(p, f, cuts[0]).framer, []) == Output([], Push(p, f, cuts[0]).framer);
    } else {
      PushInTwo(p, f, cuts[0], Flatten(cuts[1..]));
      ReadsMayBeCutAnywhere(p, Push(p, f, cuts[0]).framer, cuts[1..]);
    }
  }

  ghost predicate SameWhenCut(p: Parsers, f: Framer, a: Bytes, b: Bytes) {
    var first := Push(p, f, a);
    var second := Push(p, first.framer, b);
    Push(p, f, a + b) == Output(first.chunks + second.chunks, second.framer)
  }

  ghost predicate CutInvariant(p: Parsers, f: Framer) {
    forall a, b :: SameWhenCut(p, f, a, b)
  }

  lemma DifferentWhenCut(p: Parsers, f: Framer, a: Bytes, b: Bytes)
    requires Push(p, f, a + b).chunks == [] && Push(p, f, a + b).framer.buffer == []
    requires Push(p, f, a).chunks != []
          || Push(p, Push(p, f, a).framer, b).chunks != []
          || Push(p, Push(p, f, a).framer, b).framer.buffer != []
    ensures !CutInvariant(p, f)
  {
    assert !SameWhenCut(p, f, a, b);
  }

  /** While the tail of a mouse report is dropped the cut does matter: the byte that exceeds the
      limit takes the rest of its own read with it. */
  lemma CutMattersWhileDroppingMouseTail(p: Parsers, f: Framer)
    requires f.discardUntil == Some(OrphanedSgrMouseTail) && !f.loneEscapeRecentlyFlushed && f.buffer == []
    ensures !CutInvariant(p, f)
  {
    var room := SatSub(MAX_DISCARDED_CONTROL_TAIL_BYTES, f.discardedTailBytes);
    var a: Bytes := seq(room + 1, i => 0x30);
    var b: Bytes := [0x78];
    assert (a + b)[..room] == a[..room];
    OverflowDropsRead(p, f, a);
    OverflowDropsRead(p, f, a + b);
    var idle := StopDiscarding(f, []);
    assert idle.buffer + b == b;
    assert Push(p, idle, b) == DrainSettled(p, idle.(buffer := b));
    DifferentWhenCut(p, f, a, b);
  }

  lemma OverflowDropsRead(p: Parsers, f: Framer, data: Bytes)
    requires f.discardUntil == Some(OrphanedSgrMouseTail) && !f.loneEscapeRecentlyFlushed && f.buffer == []
    requires SatSub(MAX_DISCARDED_CONTROL_TAIL_BYTES, f.discardedTailBytes) < |data|
    requires AllMouseTail(data[..SatSub(MAX_DISCARDED_CONTROL_TAIL_BYTES, f.discardedTailBytes)])
    ensures Push(p, f, data) == Output([], StopDiscarding(f, []))
  {
    assert f.buffer + data == data;
    assert DrainSettled(p, StopDiscarding(f, [])) == Output([], StopDiscarding(f, []));
  }
}

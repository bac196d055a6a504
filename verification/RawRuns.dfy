/** Runs of the framer: which bytes survive, what its chunks mean, and what its state keeps. */
module RawRuns {
  import opened Machine
  import opened RawRecogniser
  import opened RawStability
  import opened RawFramer
  import opened RawTheorems

  datatype Input = Read(data: Bytes) | Timeout | QuerySent | TrackSchemeChanges

  function Step(p: Parsers, f: Framer, input: Input): Output {
    match input
    case Read(data) => Push(p, f, data)
    case Timeout => FlushTimeout(p, f)
    case QuerySent => Output([], HostColorQuerySent(f))
    case TrackSchemeChanges => Output([], f.(hostColorSchemeChangeTracking := true))
  }

  function Play(p: Parsers, f: Framer, inputs: seq<Input>): Output
    decreases inputs
  {
    if inputs == [] then Output([], f)
    else
      var first := Step(p, f, inputs[0]);
      var rest := Play(p, first.framer, inputs[1..]);
      Output(first.chunks + rest.chunks, rest.framer)
  }

  function BytesRead(inputs: seq<Input>): Bytes {
    if inputs == [] then []
    else DataOf(inputs[0]) + BytesRead(inputs[1..])
  }

  predicate NoTimeouts(inputs: seq<Input>) {
    inputs == [] || (!inputs[0].Timeout? && NoTimeouts(inputs[1..]))
  }

  // ----- subsequences -----

  ghost predicate Subsequence(a: Bytes, b: Bytes)
    decreases b
  {
    a == [] || (b != [] && ((a[0] == b[0] && Subsequence(a[1..], b[1..])) || Subsequence(a, b[1..])))
  }

  lemma {:induction false} SubsequenceReflexive(a: Bytes)
    ensures Subsequence(a, a)
  {
    if a != [] {
      SubsequenceReflexive(a[1..]);
    }
  }

  lemma {:induction false} SubsequenceTransitive(a: Bytes, b: Bytes, c: Bytes)
    requires Subsequence(a, b) && Subsequence(b, c)
    ensures Subsequence(a, c)
    decreases c
  {
    if a != [] {
      if b[0] == c[0] && Subsequence(b[1..], c[1..]) {
        if a[0] == b[0] && Subsequence(a[1..], b[1..]) {
          SubsequenceTransitive(a[1..], b[1..], c[1..]);
        } else {
          SubsequenceTransitive(a, b[1..], c[1..]);
        }
      } else {
        SubsequenceTransitive(a, b, c[1..]);
      }
    }
  }

  lemma {:induction false} SubsequenceAppend(a: Bytes, b: Bytes, c: Bytes, d: Bytes)
    requires Subsequence(a, b) && Subsequence(c, d)
    ensures Subsequence(a + c, b + d)
    decreases b
  {
    if b == [] {
      assert a + c == c && b + d == d;
    } else {
      assert (b + d)[1..] == b[1..] + d && (b + d)[0] == b[0];
      if a == [] {
        assert [] + c == c;
        SubsequenceAppend(a, b[1..], c, d);
      } else if a[0] == b[0] && Subsequence(a[1..], b[1..]) {
        SubsequenceAppend(a[1..], b[1..], c, d);
        assert (a + c)[1..] == a[1..] + c;
      } else {
        SubsequenceAppend(a, b[1..], c, d);
      }
    }
  }

  lemma SuffixIsSubsequence(b: Bytes, n: nat)
    requires n <= |b|
    ensures Subsequence(b[n..], b)
  {
    SubsequenceReflexive(b[n..]);
    assert Subsequence([], b[..n]);
    SubsequenceAppend([], b[..n], b[n..], b[n..]);
    assert [] + b[n..] == b[n..] && b[..n] + b[n..] == b;
  }

  // ----- conservation -----

  lemma {:induction false} FlattenAppend(a: seq<Bytes>, b: seq<Bytes>)
    ensures Flatten(a + b) == Flatten(a) + Flatten(b)
  {
    if a == [] {
      assert a + b == b;
    } else {
      assert (a + b)[1..] == a[1..] + b;
      FlattenAppend(a[1..], b);
    }
  }

  /** The bytes an output still accounts for: those in its chunks and those it left in the buffer. */
  function Kept(o: Output): Bytes {
    Flatten(o.chunks) + o.framer.buffer
  }

  lemma KeptWithoutChunks(f: Framer)
    ensures Kept(Output([], f)) == f.buffer
  {}

  lemma KeptEmitted(chunk: Bytes, rest: Output)
    ensures Kept(Emit(chunk, rest)) == chunk + Kept(rest)
  {
    assert ([chunk] + rest.chunks)[1..] == rest.chunks;
  }

  lemma KeptJoined(first: Output, rest: Output)
    ensures Kept(Output(first.chunks + rest.chunks, rest.framer)) == Flatten(first.chunks) + Kept(rest)
  {
    FlattenAppend(first.chunks, rest.chunks);
  }

  lemma JoinKeeps(first: Output, rest: Output, source: Bytes, more: Bytes)
    requires Subsequence(Kept(first), source) && Subsequence(Kept(rest), first.framer.buffer + more)
    ensures Subsequence(Kept(Output(first.chunks + rest.chunks, rest.framer)), source + more)
  {
    var here := Flatten(first.chunks);
    KeptJoined(first, rest);
    SubsequenceReflexive(here);
    SubsequenceReflexive(more);
    SubsequenceAppend(here, here, Kept(rest), first.framer.buffer + more);
    SubsequenceAppend(Kept(first), source, more, more);
    assert here + (first.framer.buffer + more) == Kept(first) + more;
    SubsequenceTransitive(here + Kept(rest), Kept(first) + more, source + more);
  }

  lemma JoinLosesNothing(first: Output, rest: Output, source: Bytes, more: Bytes)
    requires Kept(first) == source && Kept(rest) == first.framer.buffer + more
    ensures Kept(Output(first.chunks + rest.chunks, rest.framer)) == source + more
  {
    KeptJoined(first, rest);
    assert Flatten(first.chunks) + (first.framer.buffer + more) == Kept(first) + more;
  }

  lemma LaterSuffix(o: Output, source: Bytes, n: nat)
    requires n <= |source| && Subsequence(Kept(o), source[n..])
    ensures Subsequence(Kept(o), source)
  {
    SuffixIsSubsequence(source, n);
    SubsequenceTransitive(Kept(o), source[n..], source);
  }

  lemma EmitKeeps(rest: Output, source: Bytes, n: nat)
    requires n <= |source| && Subsequence(Kept(rest), source[n..])
    ensures Subsequence(Kept(Emit(source[..n], rest)), source)
  {
    KeptEmitted(source[..n], rest);
    SubsequenceReflexive(source[..n]);
    SubsequenceAppend(source[..n], source[..n], Kept(rest), source[n..]);
    assert source[..n] + source[n..] == source;
  }

  lemma TailDiscardKeepsSuffix(buf: Bytes, counted: nat) returns (n: nat)
    ensures n <= |buf| && DiscardOrphanedSgrMouseTail(buf, counted).buffer == buf[n..]
  {
    n := |buf| - |DiscardOrphanedSgrMouseTail(buf, counted).buffer|;
  }

  lemma {:induction false} DrainKeepsBytes(p: Parsers, f: Framer)
    requires !f.loneEscapeRecentlyFlushed
    ensures Subsequence(Kept(DrainSettled(p, f)), f.buffer)
    decreases |f.buffer|, f.discardUntil.Some?
  {
    KeptWithoutChunks(f);
    SubsequenceReflexive(f.buffer);
    if f.discardUntil == Some(OrphanedSgrMouseTail) {
      var t := DiscardOrphanedSgrMouseTail(f.buffer, f.discardedTailBytes);
      var n := TailDiscardKeepsSuffix(f.buffer, f.discardedTailBytes);
      if t.done {
        DrainKeepsBytes(p, StopDiscarding(f, t.buffer));
      } else {
        KeptWithoutChunks(f.(buffer := t.buffer, discardedTailBytes := t.counted));
        SubsequenceReflexive(t.buffer);
      }
      LaterSuffix(DrainSettled(p, f), f.buffer, n);
    } else if f.discardUntil.Some? {
      var n := Terminator(f.buffer, f.discardUntil.value);
      if n.Some? {
        TerminatorInBuffer(f.buffer, f.discardUntil.value);
        DrainKeepsBytes(p, StopDiscarding(f, f.buffer[n.value..]));
        LaterSuffix(DrainSettled(p, f), f.buffer, n.value);
      }
    } else {
      var e := ExtractOneEvent(p, f.buffer);
      if e.Some? {
        DrainKeepsBytes(p, Consume(f, e.value));
        EmitKeeps(DrainSettled(p, Consume(f, e.value)), f.buffer, e.value.consumed);
      }
    }
  }

  lemma {:induction false} DrainLosesNothing(p: Parsers, f: Framer)
    requires !f.loneEscapeRecentlyFlushed && f.discardUntil.None?
    ensures Kept(DrainSettled(p, f)) == f.buffer
    ensures DrainSettled(p, f).framer.discardUntil.None? && !DrainSettled(p, f).framer.loneEscapeRecentlyFlushed
    decreases |f.buffer|
  {
    KeptWithoutChunks(f);
    var e := ExtractOneEvent(p, f.buffer);
    if e.Some? {
      DrainLosesNothing(p, Consume(f, e.value));
      KeptEmitted(f.buffer[..e.value.consumed], DrainSettled(p, Consume(f, e.value)));
      assert f.buffer[..e.value.consumed] + f.buffer[e.value.consumed..] == f.buffer;
    }
  }

  lemma AvailableKeepsBytes(p: Parsers, f: Framer)
    ensures Subsequence(Kept(DrainAvailableChunks(p, f)), f.buffer)
  {
    if f.loneEscapeRecentlyFlushed && StartsWithIncompleteOrphanedSgrMouseTail(f.buffer) {
      KeptWithoutChunks(f);
      SubsequenceReflexive(f.buffer);
    } else if f.loneEscapeRecentlyFlushed && CompleteOrphanedSgrMouseTail(f.buffer).Some? {
      var n := CompleteOrphanedSgrMouseTail(f.buffer).value;
      var g := f.(buffer := f.buffer[n..], loneEscapeRecentlyFlushed := false);
      DrainKeepsBytes(p, g);
      LaterSuffix(DrainSettled(p, g), f.buffer, n);
    } else {
      DrainKeepsBytes(p, f.(loneEscapeRecentlyFlushed := false));
    }
  }

  lemma DiscardingLeavesSuffix(f: Framer, family: Family) returns (n: nat)
    ensures n <= |f.buffer| && TimeoutWhileDiscarding(f, family).buffer == f.buffer[n..]
  {
    n := |f.buffer| - |TimeoutWhileDiscarding(f, family).buffer|;
  }

  lemma TimeoutLeavesAllOrNothing(p: Parsers, f: Framer)
    requires TimeoutDrained(p, f).chunks == [] && f.discardUntil.None?
    ensures var rest := TimeoutDrained(p, f).framer.buffer;
      || rest == f.buffer || rest == []
      || (CompleteOrphanedSgrMouseTail(f.buffer).Some?
          && rest == f.buffer[CompleteOrphanedSgrMouseTail(f.buffer).value..])
  {}

  lemma TimeoutLeavesSuffix(p: Parsers, f: Framer) returns (n: nat)
    requires TimeoutDrained(p, f).chunks == []
    ensures n <= |f.buffer| && TimeoutDrained(p, f).framer.buffer == f.buffer[n..]
  {
    if f.discardUntil.Some? {
      n := DiscardingLeavesSuffix(f, f.discardUntil.value);
      return;
    }
    TimeoutLeavesAllOrNothing(p, f);
    var rest := TimeoutDrained(p, f).framer.buffer;
    n := if rest == f.buffer then 0
         else if rest == [] then |f.buffer|
         else CompleteOrphanedSgrMouseTail(f.buffer).value;
  }

  lemma TimeoutKeepsBytes(p: Parsers, f: Framer)
    ensures Subsequence(Kept(TimeoutDrained(p, f)), f.buffer)
  {
    var o := TimeoutDrained(p, f);
    if o.chunks == [] {
      var n := TimeoutLeavesSuffix(p, f);
      KeptWithoutChunks(o.framer);
      SuffixIsSubsequence(f.buffer, n);
    } else {
      assert o == Emit(f.buffer, Output([], o.framer)) && o.framer.buffer == [];
      KeptEmitted(f.buffer, Output([], o.framer));
      KeptWithoutChunks(o.framer);
      SubsequenceReflexive(f.buffer);
      assert f.buffer + [] == f.buffer;
    }
  }

  lemma FlushKeepsBytes(p: Parsers, f: Framer)
    ensures Subsequence(Kept(FlushTimeout(p, f)), f.buffer)
  {
    var d := DrainAvailableChunks(p, f);
    AvailableKeepsBytes(p, f);
    TimeoutKeepsBytes(p, d.framer);
    assert d.framer.buffer + [] == d.framer.buffer && f.buffer + [] == f.buffer;
    JoinKeeps(d, TimeoutDrained(p, d.framer), f.buffer, []);
  }

  function DataOf(input: Input): Bytes {
    if input.Read? then input.data else []
  }

  lemma StepKeepsBytes(p: Parsers, f: Framer, input: Input)
    ensures Subsequence(Kept(Step(p, f, input)), f.buffer + DataOf(input))
  {
    assert f.buffer + [] == f.buffer;
    match input {
      case Read(data) =>
        AvailableKeepsBytes(p, f.(buffer := f.buffer + data));
      case Timeout =>
        FlushKeepsBytes(p, f);
      case QuerySent =>
        KeptWithoutChunks(HostColorQuerySent(f));
        SubsequenceReflexive(f.buffer);
      case TrackSchemeChanges =>
        KeptWithoutChunks(f.(hostColorSchemeChangeTracking := true));
        SubsequenceReflexive(f.buffer);
    }
  }

  lemma Associative(a: Bytes, b: Bytes, c: Bytes)
    ensures a + b + c == a + (b + c)
  {}

  lemma ReadingOn(buffer: Bytes, inputs: seq<Input>)
    requires inputs != []
    ensures buffer + DataOf(inputs[0]) + BytesRead(inputs[1..]) == buffer + BytesRead(inputs)
  {
    Associative(buffer, DataOf(inputs[0]), BytesRead(inputs[1..]));
  }

  /** Over any run, with whatever timeouts, the bytes handed on and those still buffered are bytes
      that were read, in the order they were read, none of them twice. */
  lemma {:induction false} RunKeepsBytes(p: Parsers, f: Framer, inputs: seq<Input>)
    ensures Subsequence(Kept(Play(p, f, inputs)), f.buffer + BytesRead(inputs))
    decreases inputs
  {
    if inputs == [] {
      KeptWithoutChunks(f);
      SubsequenceReflexive(f.buffer);
      assert f.buffer + [] == f.buffer;
    } else {
      var first := Step(p, f, inputs[0]);
      StepKeepsBytes(p, f, inputs[0]);
      RunKeepsBytes(p, first.framer, inputs[1..]);
      JoinKeeps(first, Play(p, first.framer, inputs[1..]), f.buffer + DataOf(inputs[0]), BytesRead(inputs[1..]));
      ReadingOn(f.buffer, inputs);
    }
  }

  lemma ReadLosesNothing(p: Parsers, f: Framer, input: Input)
    requires !f.loneEscapeRecentlyFlushed && f.discardUntil.None? && !input.Timeout?
    ensures var o := Step(p, f, input);
      Kept(o) == f.buffer + DataOf(input) && !o.framer.loneEscapeRecentlyFlushed && o.framer.discardUntil.None?
  {
    if input.Read? {
      DrainLosesNothing(p, f.(buffer := f.buffer + input.data));
    } else {
      KeptWithoutChunks(Step(p, f, input).framer);
      assert f.buffer + [] == f.buffer;
    }
  }

  /** Without timeouts no byte is lost. */
  lemma {:induction false} RunWithoutTimeoutsLosesNothing(p: Parsers, f: Framer, inputs: seq<Input>)
    requires !f.loneEscapeRecentlyFlushed && f.discardUntil.None?
    requires NoTimeouts(inputs)
    ensures Kept(Play(p, f, inputs)) == f.buffer + BytesRead(inputs)
    decreases inputs
  {
    if inputs == [] {
      KeptWithoutChunks(f);
    } else {
      var first := Step(p, f, inputs[0]);
      assert Kept(first) == f.buffer + DataOf(inputs[0])
          && !first.framer.loneEscapeRecentlyFlushed && first.framer.discardUntil.None? by {
        ReadLosesNothing(p, f, inputs[0]);
      }
      RunWithoutTimeoutsLosesNothing(p, first.framer, inputs[1..]);
      JoinLosesNothing(first, Play(p, first.framer, inputs[1..]),
                       f.buffer + DataOf(inputs[0]), BytesRead(inputs[1..]));
      ReadingOn(f.buffer, inputs);
    }
  }
}

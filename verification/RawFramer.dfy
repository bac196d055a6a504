/** The framer that cuts a stream of reads into one chunk per input event, with its discard mode,
    its held escape and its idle timeout (`RawInputByteFramer`). The functions give one step as a
    value; the class runs the same step in place. */
module RawFramer {
  import opened Machine
  import opened RawRecogniser

  const HOST_COLOR_QUERY_REPLIES := 2
  const MAX_ORPHANED_SGR_MOUSE_TAIL_BYTES := 32
  const MAX_DISCARDED_CONTROL_TAIL_BYTES := 128
  const ORPHANED_START: Bytes := [0x5b, 0x3c]

  datatype Framer = Framer(
    buffer: Bytes,
    discardUntil: Option<Family>,
    discardedTailBytes: nat,
    loneEscapeRecentlyFlushed: bool,
    hostColorRepliesAwaited: nat,
    heldPendingColorEsc: bool,
    hostColorSchemeChangeTracking: bool)

  const FRESH := Framer([], None, 0, false, 0, false, false)

  datatype Output = Output(chunks: seq<Bytes>, framer: Framer)

  predicate MouseTailByte(b: Byte) {
    0x30 <= b <= 0x39 || b == 0x3b
  }

  const MOUSE_TAIL_STOPS: set<Byte> := set b: Byte | 0 <= b < 256 && !MouseTailByte(b)

  predicate AllMouseTail(buf: Bytes) {
    forall i :: 0 <= i < |buf| ==> MouseTailByte(buf[i])
  }

  predicate StartsWithIncompleteSgrMouseSequence(buf: Bytes) {
    CSI_MOUSE <= buf && AllMouseTail(buf[3..])
  }

  predicate StartsWithIncompleteOrphanedSgrMouseTail(buf: Bytes) {
    && |buf| <= MAX_ORPHANED_SGR_MOUSE_TAIL_BYTES
    && (buf <= ORPHANED_START || (ORPHANED_START <= buf && AllMouseTail(buf[2..])))
  }

  /** Length of a mouse report whose escape was already flushed. */
  function CompleteOrphanedSgrMouseTail(buf: Bytes): (r: Option<nat>)
    ensures r.Some? ==> 1 <= r.value <= |buf|
  {
    var n := Terminator(buf, OrphanedSgrMouseTail);
    if n.None? || n.value > MAX_ORPHANED_SGR_MOUSE_TAIL_BYTES then None
    else if !ValidUtf8([ESC] + buf[..n.value]) then None
    else if ParseSgrMouse([ESC] + buf[..n.value]).None? then None
    else n
  }

  datatype TailDiscard = TailDiscard(buffer: Bytes, counted: nat, done: bool)

  function DiscardOrphanedSgrMouseTail(buf: Bytes, counted: nat): TailDiscard {
    var inspected := Min(|buf|, SatSub(MAX_DISCARDED_CONTROL_TAIL_BYTES, counted));
    var stop := FindAny(buf[..inspected], MOUSE_TAIL_STOPS);
    if stop.Some? then
      TailDiscard(buf[if buf[stop.value] in MOUSE_FINALS then stop.value + 1 else stop.value..], counted, true)
    else
      TailDiscard([], counted + inspected, |buf| > inspected)
  }

  predicate StartsWithIncompleteDefaultColorResponse(buf: Bytes) {
    && ControlFamily(buf) == Some(Osc) && Terminator(buf, Osc).None?
    && ([ESC, 0x5d, 0x31, 0x30, 0x3b] <= buf || [ESC, 0x5d, 0x31, 0x31, 0x3b] <= buf)
  }

  predicate StartsWithIncompleteHostColorSchemeReport(buf: Bytes) {
    && [ESC, 0x5b, 0x3f] <= buf
    && (buf <= DARK_REPORT || buf <= LIGHT_REPORT)
    && |buf| < |DARK_REPORT|
  }

  predicate PendingPaste(buf: Bytes) {
    PASTE_START <= buf && Find(buf, PASTE_END).None?
  }

  const OSC_TAIL_BYTES: set<Byte> :=
    (set b: Byte | 0x30 <= b <= 0x39)
    + {0x3b, 0x3a, 0x2f, 0x23, 0x3f, 0x2e, 0x5f, 0x2d, 0x2b, 0x72, 0x67, 0x62, 0x52, 0x47, 0x42, 0x1b}

  const SCHEME_TAIL_BYTES: set<Byte> := (set b: Byte | 0x30 <= b <= 0x39) + {0x3b, 0x3f, 0x6e}

  predicate PlausibleControlStringTail(family: Family, buf: Bytes) {
    match family
    case Osc => forall i :: 0 <= i < |buf| ==> buf[i] in OSC_TAIL_BYTES
    case StTerminated => buf != [] && buf[|buf| - 1] == ESC
    case HostColorSchemeCsi => forall i :: 0 <= i < |buf| ==> buf[i] in SCHEME_TAIL_BYTES
    case OrphanedSgrMouseTail => forall i :: 0 <= i < |buf| ==> MouseTailByte(buf[i]) || buf[i] in MOUSE_FINALS
  }

  function HostColorQuerySent(f: Framer): Framer {
    f.(hostColorRepliesAwaited := HOST_COLOR_QUERY_REPLIES, heldPendingColorEsc := false)
  }

  /** Bookkeeping for one event, whose bytes then leave the buffer. */
  function Consume(f: Framer, e: Extracted): Framer
    requires e.consumed <= |f.buffer|
  {
    var counted :=
      if e.event.HostDefaultColor? then
        f.(hostColorRepliesAwaited := SatSub(f.hostColorRepliesAwaited, 1))
      else if f.hostColorSchemeChangeTracking && e.event.HostColorSchemeChanged? then
        HostColorQuerySent(f)
      else f;
    counted.(heldPendingColorEsc := false, buffer := f.buffer[e.consumed..])
  }

  function StopDiscarding(f: Framer, rest: Bytes): Framer {
    f.(buffer := rest, discardUntil := None, discardedTailBytes := 0)
  }

  function Emit(chunk: Bytes, o: Output): Output {
    Output([chunk] + o.chunks, o.framer)
  }

  function DrainAvailableChunks(p: Parsers, f: Framer): Output
    decreases |f.buffer|, f.discardUntil.Some?
  {
    if f.loneEscapeRecentlyFlushed && StartsWithIncompleteOrphanedSgrMouseTail(f.buffer) then
      Output([], f)
    else if f.loneEscapeRecentlyFlushed && CompleteOrphanedSgrMouseTail(f.buffer).Some? then
      DrainAvailableChunks(p, f.(buffer := f.buffer[CompleteOrphanedSgrMouseTail(f.buffer).value..],
                                 loneEscapeRecentlyFlushed := false))
    else
      DrainSettled(p, f.(loneEscapeRecentlyFlushed := false))
  }

  function DrainSettled(p: Parsers, f: Framer): Output
    requires !f.loneEscapeRecentlyFlushed
    decreases |f.buffer|, f.discardUntil.Some?, 0
  {
    if f.discardUntil == Some(OrphanedSgrMouseTail) then
      var t := DiscardOrphanedSgrMouseTail(f.buffer, f.discardedTailBytes);
      if t.done then DrainSettled(p, StopDiscarding(f, t.buffer))
      else Output([], f.(buffer := t.buffer, discardedTailBytes := t.counted))
    else if f.discardUntil.Some? then
      var n := Terminator(f.buffer, f.discardUntil.value);
      if n.None? then Output([], f)
      else DrainSettled(p, StopDiscarding(f, f.buffer[n.value..]))
    else
      var e := ExtractOneEvent(p, f.buffer);
      if e.None? then Output([], f)
      else Emit(f.buffer[..e.value.consumed], DrainSettled(p, Consume(f, e.value)))
  }

  function Push(p: Parsers, f: Framer, data: Bytes): Output {
    DrainAvailableChunks(p, f.(buffer := f.buffer + data))
  }

  function EnterDiscard(f: Framer, family: Family, counted: nat): Framer {
    f.(buffer := [], discardedTailBytes := counted,
       discardUntil := if counted <= MAX_DISCARDED_CONTROL_TAIL_BYTES then Some(family) else None)
  }

  function TimeoutWhileDiscarding(f: Framer, family: Family): Framer {
    var total := f.discardedTailBytes + |f.buffer|;
    if family != OrphanedSgrMouseTail && PlausibleControlStringTail(family, f.buffer)
       && total <= MAX_DISCARDED_CONTROL_TAIL_BYTES then
      f.(discardedTailBytes := total,
         buffer := if f.buffer != [] && f.buffer[|f.buffer| - 1] == ESC then [ESC] else [])
    else
      StopDiscarding(f, [])
  }

  function TimeoutLoneEscape(f: Framer): Output {
    if f.hostColorRepliesAwaited > 0 && !f.heldPendingColorEsc then
      Output([], f.(heldPendingColorEsc := true))
    else
      Output([[ESC]], f.(buffer := [], hostColorRepliesAwaited := 0, heldPendingColorEsc := false,
                         loneEscapeRecentlyFlushed := true))
  }

  /** The timeout once everything complete was drained. */
  function TimeoutDrained(p: Parsers, f: Framer): Output {
    if f.discardUntil.Some? then
      Output([], TimeoutWhileDiscarding(f, f.discardUntil.value))
    else if f.buffer == [] then
      Output([], f)
    else if f.loneEscapeRecentlyFlushed && ORPHANED_START <= f.buffer then
      var n := CompleteOrphanedSgrMouseTail(f.buffer);
      var g := f.(loneEscapeRecentlyFlushed := false);
      Output([], if n.Some? then g.(buffer := f.buffer[n.value..])
                 else EnterDiscard(g, OrphanedSgrMouseTail, |f.buffer|))
    else if StartsWithIncompleteSgrMouseSequence(f.buffer) then
      Output([], EnterDiscard(f, OrphanedSgrMouseTail, |f.buffer|))
    else if PendingPaste(f.buffer) then
      Output([], f)
    else if StartsWithIncompleteDefaultColorResponse(f.buffer) then
      Output([], f)
    else if StartsWithIncompleteHostColorSchemeReport(f.buffer) then
      Output([], EnterDiscard(f, HostColorSchemeCsi, 0))
    else if ControlFamily(f.buffer).Some? && Terminator(f.buffer, ControlFamily(f.buffer).value).None? then
      Output([], EnterDiscard(f, ControlFamily(f.buffer).value, 0))
    else if f.buffer == [ESC] then
      TimeoutLoneEscape(f)
    else if ValidUtf8(f.buffer) && p.key(f.buffer).Some? then
      Output([f.buffer], f.(buffer := []))
    else if StartsWithIncompleteUtf8Char(f.buffer) then
      Output([], f)
    else if f.buffer[0] == ESC && StartsWithIncompleteUtf8Char(f.buffer[1..]) then
      Output([], f)
    else
      Output([], f.(loneEscapeRecentlyFlushed := false, buffer := []))
  }

  function FlushTimeout(p: Parsers, f: Framer): Output {
    var d := DrainAvailableChunks(p, f);
    var t := TimeoutDrained(p, d.framer);
    Output(d.chunks + t.chunks, t.framer)
  }

  /** The events behind the chunks, as the reader of the chunks sees them. */
  function EventsFromChunks(p: Parsers, chunks: seq<Bytes>, escape: TerminalKey): seq<Event> {
    if chunks == [] then []
    else
      var rest := EventsFromChunks(p, chunks[1..], escape);
      if chunks[0] == [ESC] then [Key(escape)] + rest
      else if ExtractOneEvent(p, chunks[0]).None? then rest
      else [ExtractOneEvent(p, chunks[0]).value.event] + rest
  }

  class RawInputByteFramer {
    var buffer: Bytes
    var discardUntil: Option<Family>
    var discardedTailBytes: nat
    var loneEscapeRecentlyFlushed: bool
    var hostColorRepliesAwaited: nat
    var heldPendingColorEsc: bool
    var hostColorSchemeChangeTracking: bool

    constructor ()
      ensures State() == FRESH
    {
      buffer, discardUntil, discardedTailBytes := [], None, 0;
      loneEscapeRecentlyFlushed, hostColorRepliesAwaited := false, 0;
      heldPendingColorEsc, hostColorSchemeChangeTracking := false, false;
    }

    function State(): Framer
      reads this
    {
      Framer(buffer, discardUntil, discardedTailBytes, loneEscapeRecentlyFlushed,
             hostColorRepliesAwaited, heldPendingColorEsc, hostColorSchemeChangeTracking)
    }

    method QuerySent()
      modifies this`hostColorRepliesAwaited, this`heldPendingColorEsc
      ensures State() == HostColorQuerySent(old(State()))
    {
      hostColorRepliesAwaited, heldPendingColorEsc := HOST_COLOR_QUERY_REPLIES, false;
    }

    method EnableTracking()
      modifies this`hostColorSchemeChangeTracking
      ensures State() == old(State()).(hostColorSchemeChangeTracking := true)
    {
      hostColorSchemeChangeTracking := true;
    }

    method PushBytes(p: Parsers, data: Bytes) returns (chunks: seq<Bytes>)
      modifies this
      ensures Output(chunks, State()) == Push(p, old(State()), data)
    {
      buffer := buffer + data;
      chunks := Drain(p);
    }

    /** Drops the tail of a mouse report byte by byte; false while more of it may follow. */
    method DiscardTail() returns (done: bool)
      modifies this`buffer, this`discardedTailBytes
      ensures TailDiscard(buffer, discardedTailBytes, done)
           == DiscardOrphanedSgrMouseTail(old(buffer), old(discardedTailBytes))
    {
      var inspected := Min(|buffer|, SatSub(MAX_DISCARDED_CONTROL_TAIL_BYTES, discardedTailBytes));
      var index := 0;
      while index < inspected
        invariant 0 <= index <= inspected
        invariant buffer == old(buffer) && discardedTailBytes == old(discardedTailBytes)
        invariant forall i :: 0 <= i < index ==> MouseTailByte(buffer[i])
      {
        var b := buffer[index];
        if !MouseTailByte(b) {
          StopsAt(buffer[..inspected], index);
          buffer := buffer[if b in MOUSE_FINALS then index + 1 else index..];
          return true;
        }
        index := index + 1;
      }
      discardedTailBytes := discardedTailBytes + inspected;
      done := |buffer| > inspected;
      buffer := [];
    }

    /** One turn of the drain loop: `again` is false when nothing more can be drained. */
    method DrainTurn(p: Parsers) returns (again: bool, chunk: seq<Bytes>)
      modifies this
      ensures var rest := DrainAvailableChunks(p, State());
        DrainAvailableChunks(p, old(State()))
        == if again then Output(chunk + rest.chunks, rest.framer) else Output([], State())
      ensures again ==> |buffer| < old(|buffer|) || (|buffer| == old(|buffer|) && discardUntil.None? && old(discardUntil.Some?))
      ensures again || chunk == []
    {
      if loneEscapeRecentlyFlushed {
        if StartsWithIncompleteOrphanedSgrMouseTail(buffer) {
          return false, [];
        }
        var dropped := DropFlushedReport();
        if dropped {
          return true, [];
        }
      }
      again, chunk := SettledTurn(p);
    }

    /** The bytes after a flushed escape either make a whole report, which is dropped, or none. */
    method DropFlushedReport() returns (dropped: bool)
      requires loneEscapeRecentlyFlushed
      modifies this`buffer, this`loneEscapeRecentlyFlushed
      ensures var n := CompleteOrphanedSgrMouseTail(old(buffer));
        && dropped == n.Some?
        && State() == old(State()).(loneEscapeRecentlyFlushed := false,
                                    buffer := if n.Some? then old(buffer)[n.value..] else old(buffer))
    {
      var n := CompleteOrphanedSgrMouseTail(buffer);
      loneEscapeRecentlyFlushed := false;
      dropped := n.Some?;
      if dropped {
        buffer := buffer[n.value..];
      }
    }

    /** One turn once no flushed escape is in the way. */
    method SettledTurn(p: Parsers) returns (again: bool, chunk: seq<Bytes>)
      requires !loneEscapeRecentlyFlushed
      modifies this
      ensures !loneEscapeRecentlyFlushed
      ensures var rest := DrainSettled(p, State());
        DrainSettled(p, old(State()))
        == if again then Output(chunk + rest.chunks, rest.framer) else Output([], State())
      ensures again ==> |buffer| < old(|buffer|) || (|buffer| == old(|buffer|) && discardUntil.None? && old(discardUntil.Some?))
      ensures again || chunk == []
    {
      if discardUntil.Some? {
        again := DiscardTurn();
        chunk := [];
      } else {
        again, chunk := TakeEvent(p);
      }
    }

    /** Drops what is to be discarded; false while its end has not come. */
    method DiscardTurn() returns (again: bool)
      requires discardUntil.Some?
      modifies this`buffer, this`discardUntil, this`discardedTailBytes
      ensures
        if old(discardUntil) == Some(OrphanedSgrMouseTail) then
          var t := DiscardOrphanedSgrMouseTail(old(buffer), old(discardedTailBytes));
          && again == t.done
          && State() == if t.done then StopDiscarding(old(State()), t.buffer)
                        else old(State()).(buffer := t.buffer, discardedTailBytes := t.counted)
        else
          var n := Terminator(old(buffer), old(discardUntil).value);
          && again == n.Some? && (n.Some? ==> n.value <= old(|buffer|))
          && State() == if n.Some? then StopDiscarding(old(State()), old(buffer)[n.value..]) else old(State())
    {
      if discardUntil == Some(OrphanedSgrMouseTail) {
        again := DiscardTail();
      } else {
        var n := Terminator(buffer, discardUntil.value);
        again := n.Some?;
        if again {
          TerminatorInBuffer(buffer, discardUntil.value);
          buffer := buffer[n.value..];
        }
      }
      if again {
        discardUntil, discardedTailBytes := None, 0;
      }
    }

    method TakeEvent(p: Parsers) returns (again: bool, chunk: seq<Bytes>)
      modifies this
      ensures var e := ExtractOneEvent(p, old(buffer));
        if e.None? then !again && chunk == [] && State() == old(State())
        else again && chunk == [old(buffer)[..e.value.consumed]] && State() == Consume(old(State()), e.value)
    {
      var e := ExtractOneEvent(p, buffer);
      if e.None? {
        return false, [];
      }
      if e.value.event.HostDefaultColor? {
        hostColorRepliesAwaited := SatSub(hostColorRepliesAwaited, 1);
      } else if hostColorSchemeChangeTracking && e.value.event.HostColorSchemeChanged? {
        QuerySent();
      }
      heldPendingColorEsc := false;
      chunk := [buffer[..e.value.consumed]];
      buffer := buffer[e.value.consumed..];
      again := true;
    }

    method Drain(p: Parsers) returns (chunks: seq<Bytes>)
      modifies this
      ensures Output(chunks, State()) == DrainAvailableChunks(p, old(State()))
    {
      chunks := [];
      ghost var whole := DrainAvailableChunks(p, State());
      var again := true;
      while again
        invariant var rest := DrainAvailableChunks(p, State());
          whole == if again then Output(chunks + rest.chunks, rest.framer) else Output(chunks, State())
        decreases again, |buffer|, discardUntil.Some?
      {
        var chunk;
        ghost var before := chunks;
        again, chunk := DrainTurn(p);
        chunks := chunks + chunk;
        ghost var rest := DrainAvailableChunks(p, State());
        assert again ==> before + (chunk + rest.chunks) == chunks + rest.chunks;
      }
    }

    method Timeout(p: Parsers) returns (chunks: seq<Bytes>)
      modifies this
      ensures Output(chunks, State()) == FlushTimeout(p, old(State()))
    {
      chunks := Drain(p);
      var late := FlushPending(p);
      chunks := chunks + late;
    }

    /** What is left after draining: kept, discarded or handed on as it stands. */
    method FlushPending(p: Parsers) returns (late: seq<Bytes>)
      modifies this
      ensures Output(late, State()) == TimeoutDrained(p, old(State()))
    {
      late := [];
      if discardUntil.Some? {
        KeepDiscarding(discardUntil.value);
        return;
      }
      if buffer == [] {
        return;
      }
      if loneEscapeRecentlyFlushed && ORPHANED_START <= buffer {
        var n := CompleteOrphanedSgrMouseTail(buffer);
        loneEscapeRecentlyFlushed := false;
        if n.Some? {
          buffer := buffer[n.value..];
        } else {
          Discard(OrphanedSgrMouseTail, |buffer|);
        }
        return;
      }
      if StartsWithIncompleteSgrMouseSequence(buffer) {
        Discard(OrphanedSgrMouseTail, |buffer|);
        return;
      }
      if PendingPaste(buffer) || StartsWithIncompleteDefaultColorResponse(buffer) {
        return;
      }
      if StartsWithIncompleteHostColorSchemeReport(buffer) {
        Discard(HostColorSchemeCsi, 0);
        return;
      }
      var family := ControlFamily(buffer);
      if family.Some? && Terminator(buffer, family.value).None? {
        Discard(family.value, 0);
        return;
      }
      if buffer == [ESC] {
        late := FlushLoneEscape();
        return;
      }
      if ValidUtf8(buffer) && p.key(buffer).Some? {
        late, buffer := [buffer], [];
        return;
      }
      if StartsWithIncompleteUtf8Char(buffer) {
        return;
      }
      if buffer[0] == ESC && StartsWithIncompleteUtf8Char(buffer[1..]) {
        return;
      }
      loneEscapeRecentlyFlushed := false;
      buffer := [];
    }

    method FlushLoneEscape() returns (late: seq<Bytes>)
      requires buffer == [ESC]
      modifies this
      ensures Output(late, State()) == TimeoutLoneEscape(old(State()))
    {
      if hostColorRepliesAwaited > 0 && !heldPendingColorEsc {
        heldPendingColorEsc := true;
        return [];
      }
      hostColorRepliesAwaited, heldPendingColorEsc := 0, false;
      loneEscapeRecentlyFlushed := true;
      late, buffer := [buffer], [];
    }

    method KeepDiscarding(family: Family)
      modifies this`buffer, this`discardUntil, this`discardedTailBytes
      ensures State() == TimeoutWhileDiscarding(old(State()), family)
    {
      if family == OrphanedSgrMouseTail {
        buffer := [];
        discardUntil, discardedTailBytes := None, 0;
        return;
      }
      var keepSplitSt := buffer != [] && buffer[|buffer| - 1] == ESC;
      var keepDiscarding := PlausibleControlStringTail(family, buffer);
      discardedTailBytes := discardedTailBytes + |buffer|;
      buffer := [];
      if keepDiscarding && discardedTailBytes <= MAX_DISCARDED_CONTROL_TAIL_BYTES {
        if keepSplitSt {
          buffer := [ESC];
        }
      } else {
        discardUntil, discardedTailBytes := None, 0;
      }
    }

    method Discard(family: Family, counted: nat)
      modifies this`buffer, this`discardUntil, this`discardedTailBytes
      ensures State() == EnterDiscard(old(State()), family, counted)
    {
      discardedTailBytes := counted;
      discardUntil := if counted <= MAX_DISCARDED_CONTROL_TAIL_BYTES then Some(family) else None;
      buffer := [];
    }
  }

  lemma TerminatorInBuffer(buf: Bytes, family: Family)
    requires Terminator(buf, family).Some?
    ensures 1 <= Terminator(buf, family).value <= |buf|
  {}

  lemma StopsAt(buf: Bytes, index: nat)
    requires index < |buf| && !MouseTailByte(buf[index])
    requires forall i :: 0 <= i < index ==> MouseTailByte(buf[i])
    ensures FindAny(buf, MOUSE_TAIL_STOPS) == Some(index)
  {}
}

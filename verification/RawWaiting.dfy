/** What a quiet period does to input that is still on its way: what waits for its end, what is
    handed on, what is dropped together with its tail. */
module RawWaiting {
  import opened Machine
  import opened RawRecogniser
  import opened RawStability
  import opened RawFramer
  import opened RawTheorems
  import opened RawRuns
  import opened RawMeaning
  import opened RawPaste

  // ----- input that arrives slowly -----

  /** Quiet periods leave the buffer as it is. */
  ghost predicate Survives(p: Parsers, buf: Bytes) {
    forall f: Framer :: Open(f) && f.buffer == buf ==> FlushTimeout(p, f) == Output([], f)
  }

  /** The bytes make one event, and once `from` of them are in, the rest is waited for. */
  ghost predicate WaitsForEnd(p: Parsers, whole: Bytes, from: nat) {
    && ExtractOneEvent(p, whole).Some? && ExtractOneEvent(p, whole).value.consumed == |whole|
    && forall k :: from <= k < |whole| ==> ExtractOneEvent(p, whole[..k]).None? && Survives(p, whole[..k])
  }

  /** The first read that brings anything brings at least that much. */
  predicate StartsWith(inputs: seq<Input>, from: nat) {
    inputs == []
    || (if DataOf(inputs[0]) == [] then StartsWith(inputs[1..], from) else |DataOf(inputs[0])| >= from)
  }

  lemma NothingReadChangesNothing(p: Parsers, f: Framer, input: Input)
    requires Open(f) && f.buffer == [] && DataOf(input) == []
    ensures var o := Step(p, f, input); o.chunks == [] && Open(o.framer) && o.framer.buffer == []
  {
    if input.Timeout? {
      TimeoutOnNothing(p, f);
    } else if input.Read? {
      assert f.buffer + input.data == [];
      assert DrainSettled(p, f) == Output([], f);
    }
  }

  lemma ReadArrives(p: Parsers, f: Framer, whole: Bytes, from: nat, data: Bytes)
    requires Open(f) && WaitsForEnd(p, whole, from) && whole != []
    requires f.buffer + data <= whole && from <= |f.buffer + data|
    ensures var o := Push(p, f, data);
      && Open(o.framer)
      && if f.buffer + data == whole then o.chunks == [whole] && o.framer.buffer == []
         else o == Output([], f.(buffer := f.buffer + data))
  {
    var arrived := f.buffer + data;
    var g := f.(buffer := arrived);
    if arrived == whole {
      DrainWhole(p, g, ExtractOneEvent(p, whole).value);
    } else {
      assert arrived == whole[..|arrived|];
      assert DrainSettled(p, g) == Output([], g);
    }
  }

  lemma WaitsOneStep(p: Parsers, f: Framer, whole: Bytes, from: nat, input: Input)
    requires Open(f) && WaitsForEnd(p, whole, from) && f.buffer != whole && 1 <= from <= |f.buffer|
    requires f.buffer + DataOf(input) <= whole
    ensures var o := Step(p, f, input);
      && Open(o.framer)
      && if f.buffer + DataOf(input) == whole then o.chunks == [whole] && o.framer.buffer == []
         else o.chunks == [] && o.framer.buffer == f.buffer + DataOf(input)
  {
    assert f.buffer + [] == f.buffer;
    match input {
      case Read(data) => ReadArrives(p, f, whole, from, data);
      case Timeout => assert f.buffer == whole[..|f.buffer|];
      case _ =>
    }
  }

  /** However the rest is cut into reads, and whatever quiet periods and colour queries fall in
      between, input that waits for its end is handed on as one chunk. */
  lemma {:induction false} SlowInputArrivesWhole(p: Parsers, f: Framer, whole: Bytes, from: nat, inputs: seq<Input>)
    requires Open(f) && WaitsForEnd(p, whole, from) && 1 <= from
    requires f.buffer + BytesRead(inputs) == whole && f.buffer != whole
    requires from <= |f.buffer| || (f.buffer == [] && StartsWith(inputs, from))
    ensures Play(p, f, inputs).chunks == [whole]
    decreases inputs
  {
    assert f.buffer + [] == f.buffer;
    assert inputs != [];
    ReadingOn(f.buffer, inputs);
    var input, later := inputs[0], BytesRead(inputs[1..]);
    var arrived, next := f.buffer + DataOf(input), Step(p, f, input);
    assert arrived + later == whole && arrived <= whole;
    if arrived == [] {
      NothingReadChangesNothing(p, f, input);
      SlowInputArrivesWhole(p, next.framer, whole, from, inputs[1..]);
    } else {
      if f.buffer == [] {
        assert input.Read? && arrived == input.data;
        ReadArrives(p, f, whole, from, input.data);
      } else {
        WaitsOneStep(p, f, whole, from, input);
      }
      if arrived == whole {
        assert |later| == |whole| - |arrived|;
        NothingMoreComes(p, next.framer, inputs[1..]);
      } else {
        SlowInputArrivesWhole(p, next.framer, whole, from, inputs[1..]);
      }
    }
  }

  // ----- characters -----

  /** One encoded character. */
  predicate OneCharacter(c: Bytes) {
    c != [] && ValidUtf8(c) && |c| == LeadLength(c[0]) && c[0] != ESC
  }

  lemma CharacterPart(c: Bytes, k: nat)
    requires OneCharacter(c) && 0 < k < |c|
    ensures StartsWithIncompleteUtf8Char(c[..k]) && !ValidUtf8(c[..k])
    ensures c[..k][0] >= 0xc2 && FirstCompleteUtf8CharLen(c[..k]).None?
  {
    var a := c[..k];
    assert a[0] == c[0] && (k >= 2 ==> a[1] == c[1]);
    assert forall i :: 2 <= i < k ==> a[i] == c[i];
  }

  lemma WholeCharacter(c: Bytes)
    requires OneCharacter(c)
    ensures FirstCompleteUtf8CharLen(c) == Some(|c|)
  {
    assert c[..|c|] == c;
  }

  lemma CharacterPartSurvives(p: Parsers, a: Bytes)
    requires StartsWithIncompleteUtf8Char(a) && !ValidUtf8(a) && a[0] >= 0xc2 && FirstCompleteUtf8CharLen(a).None?
    ensures ExtractOneEvent(p, a).None? && Survives(p, a)
  {
    forall f: Framer | Open(f) && f.buffer == a ensures FlushTimeout(p, f) == Output([], f) {
      assert DrainAvailableChunks(p, f) == Output([], f);
      assert TimeoutDrained(p, f) == Output([], f);
    }
  }

  /** A character the key parser knows arrives whole, byte by byte and with pauses. */
  lemma SlowCharacterArrivesWhole(p: Parsers, f: Framer, c: Bytes, inputs: seq<Input>)
    requires Open(f) && f.buffer == [] && OneCharacter(c) && p.key(c).Some? && BytesRead(inputs) == c
    ensures Play(p, f, inputs).chunks == [c]
  {
    WholeCharacter(c);
    assert c[..|c|] == c && !(PASTE_START <= c);
    forall k | 1 <= k < |c| ensures ExtractOneEvent(p, c[..k]).None? && Survives(p, c[..k]) {
      CharacterPart(c, k);
      CharacterPartSurvives(p, c[..k]);
    }
    assert f.buffer + BytesRead(inputs) == c;
    AnyStart(inputs);
    SlowInputArrivesWhole(p, f, c, 1, inputs);
  }

  lemma {:induction false} AnyStart(inputs: seq<Input>)
    ensures StartsWith(inputs, 1)
    decreases inputs
  {
    if inputs != [] {
      AnyStart(inputs[1..]);
    }
  }

  lemma EscapedPartSurvives(p: Parsers, a: Bytes)
    requires StartsWithIncompleteUtf8Char(a) && !ValidUtf8(a) && a[0] >= 0xc2 && FirstCompleteUtf8CharLen(a).None?
    ensures ExtractOneEvent(p, [ESC] + a).None? && Survives(p, [ESC] + a)
  {
    var buf := [ESC] + a;
    assert buf[1..] == a && buf[1] == a[0] && buf[0] == ESC;
    assert CompleteEscapeSequenceLen(buf).None?;
    EscapedIsInvalid(buf);
    forall f: Framer | Open(f) && f.buffer == buf ensures FlushTimeout(p, f) == Output([], f) {
      assert DrainAvailableChunks(p, f) == Output([], f);
      assert TimeoutDrained(p, f) == Output([], f);
    }
  }

  lemma EscapedIsInvalid(buf: Bytes)
    requires |buf| >= 2 && buf[0] == ESC && !ValidUtf8(buf[1..])
    ensures !ValidUtf8(buf)
  {
    assert LeadLength(buf[0]) == 1;
  }

  lemma EscapedCharacter(p: Parsers, c: Bytes)
    requires OneCharacter(c) && |c| >= 2
    ensures var buf := [ESC] + c;
      ExtractOneEvent(p, buf).Some? && ExtractOneEvent(p, buf).value.consumed == |buf|
  {
    var buf := [ESC] + c;
    WholeCharacter(c);
    assert buf[1..] == c && buf[1] == c[0] >= 0xc2 && buf[..|buf|] == buf;
    assert CompleteEscapeSequenceLen(buf) == Some(|buf|);
    assert ValidUtf8(buf) by {
      assert LeadLength(buf[0]) == 1;
    }
  }

  /** So does Alt with a character of several bytes, once the first of these follows the escape. */
  lemma SlowAltCharacterArrivesWhole(p: Parsers, f: Framer, c: Bytes, inputs: seq<Input>)
    requires Open(f) && OneCharacter(c) && |c| >= 2 && f.buffer + BytesRead(inputs) == [ESC] + c
    requires 2 <= |f.buffer| <= |c| || (f.buffer == [] && StartsWith(inputs, 2))
    ensures Play(p, f, inputs).chunks == [[ESC] + c]
  {
    var whole := [ESC] + c;
    EscapedCharacter(p, c);
    forall k | 2 <= k < |whole| ensures ExtractOneEvent(p, whole[..k]).None? && Survives(p, whole[..k]) {
      CharacterPart(c, k - 1);
      assert whole[..k] == [ESC] + c[..k - 1];
      EscapedPartSurvives(p, c[..k - 1]);
    }
    SlowInputArrivesWhole(p, f, whole, 2, inputs);
  }

  // ----- colour replies -----

  /** A reply to a foreground or background colour query, with its terminator and nothing more. */
  predicate ColorReply(r: Bytes) {
    && ([ESC, 0x5d, 0x31, 0x30, 0x3b] <= r || [ESC, 0x5d, 0x31, 0x31, 0x3b] <= r)
    && Terminator(r, Osc) == Some(|r|) && ValidUtf8(r)
  }

  lemma ColorReplyPart(p: Parsers, r: Bytes, k: nat)
    requires ColorReply(r) && 5 <= k < |r|
    ensures ExtractOneEvent(p, r[..k]).None? && Survives(p, r[..k])
  {
    var a := r[..k];
    assert a[0] == ESC && a[1] == 0x5d;
    TerminatorOnPrefix(a, r, Osc);
    assert ControlFamily(a) == Some(Osc) && CompleteEscapeSequenceLen(a).None?;
    assert StartsWithIncompleteDefaultColorResponse(a);
    forall f: Framer | Open(f) && f.buffer == a ensures FlushTimeout(p, f) == Output([], f) {
      assert DrainAvailableChunks(p, f) == Output([], f);
      assert TimeoutDrained(p, f) == Output([], f);
    }
  }

  lemma WholeColorReply(p: Parsers, r: Bytes)
    requires ColorReply(r)
    ensures ExtractOneEvent(p, r).Some? && ExtractOneEvent(p, r).value.consumed == |r|
  {
    assert r[0] == ESC && r[1] == 0x5d && r[..|r|] == r;
    assert CompleteEscapeSequenceLen(r) == Some(|r|);
  }

  /** And a colour reply, once its introducer is in. */
  lemma SlowColorReplyArrivesWhole(p: Parsers, f: Framer, r: Bytes, inputs: seq<Input>)
    requires Open(f) && ColorReply(r) && f.buffer + BytesRead(inputs) == r && f.buffer != r
    requires 5 <= |f.buffer| || (f.buffer == [] && StartsWith(inputs, 5))
    ensures Play(p, f, inputs).chunks == [r]
  {
    WholeColorReply(p, r);
    forall k | 5 <= k < |r| ensures ExtractOneEvent(p, r[..k]).None? && Survives(p, r[..k]) {
      ColorReplyPart(p, r, k);
    }
    SlowInputArrivesWhole(p, f, r, 5, inputs);
  }

  // ----- sequences that a pause cuts in two are dropped with their tail -----

  /** Nothing left over from before. */
  predicate Idle(f: Framer) {
    Open(f) && f.buffer == [] && f.discardedTailBytes == 0
  }

  /** What a quiet period makes of these bytes: nothing is handed on, the tail is discarded. */
  ghost predicate TurnsToDiscard(p: Parsers, a: Bytes, family: Family, counted: nat) {
    && counted <= MAX_DISCARDED_CONTROL_TAIL_BYTES && ExtractOneEvent(p, a).None?
    && forall f: Framer :: Open(f) && f.buffer == a ==>
         FlushTimeout(p, f)
         == Output([], f.(buffer := [], discardUntil := Some(family), discardedTailBytes := counted))
  }

  /** The tail ends the discarding with its last byte. */
  predicate EndsDiscard(b: Bytes, family: Family, counted: nat) {
    if family == OrphanedSgrMouseTail then DiscardOrphanedSgrMouseTail(b, counted) == TailDiscard([], counted, true)
    else Terminator(b, family) == Some(|b|)
  }

  lemma TailIsDropped(p: Parsers, f: Framer, family: Family, b: Bytes)
    requires f.discardUntil == Some(family) && !f.loneEscapeRecentlyFlushed && f.buffer == []
    requires EndsDiscard(b, family, f.discardedTailBytes)
    ensures Push(p, f, b) == Output([], StopDiscarding(f, []))
  {
    assert f.buffer + b == b;
    var idle := StopDiscarding(f, []);
    assert DrainSettled(p, idle) == Output([], idle);
    if family != OrphanedSgrMouseTail {
      assert b[|b|..] == [];
    }
  }

  /** The start is dropped at the quiet period, the tail when it comes, and nothing else changes. */
  lemma CutSequenceIsDropped(p: Parsers, f: Framer, a: Bytes, family: Family, counted: nat, b: Bytes)
    requires Idle(f) && a != [] && TurnsToDiscard(p, a, family, counted) && EndsDiscard(b, family, counted)
    ensures Play(p, f, [Read(a), Timeout, Read(b)]) == Output([], f)
  {
    var g := f.(buffer := a);
    assert f.buffer + a == a && DrainSettled(p, g) == Output([], g);
    var cut := f.(discardUntil := Some(family), discardedTailBytes := counted);
    assert FlushTimeout(p, g) == Output([], cut);
    TailIsDropped(p, cut, family, b);
    PlayThree(p, f, Read(a), Timeout, Read(b));
  }

  /** A control string other than a colour reply that a pause interrupts is dropped up to and with
      its terminator. */
  lemma CutControlStringIsDropped(p: Parsers, f: Framer, a: Bytes, b: Bytes, family: Family)
    requires Idle(f) && ControlFamily(a) == Some(family) && Terminator(a, family).None?
    requires !([ESC, 0x5d, 0x31, 0x30, 0x3b] <= a) && !([ESC, 0x5d, 0x31, 0x31, 0x3b] <= a)
    requires Terminator(b, family) == Some(|b|)
    ensures Play(p, f, [Read(a), Timeout, Read(b)]) == Output([], f)
  {
    assert TurnsToDiscard(p, a, family, 0) by {
      ControlStringTurnsToDiscard(p, a, family);
    }
    CutSequenceIsDropped(p, f, a, family, 0, b);
  }

  lemma ControlStringTurnsToDiscard(p: Parsers, a: Bytes, family: Family)
    requires ControlFamily(a) == Some(family) && Terminator(a, family).None?
    requires !([ESC, 0x5d, 0x31, 0x30, 0x3b] <= a) && !([ESC, 0x5d, 0x31, 0x31, 0x3b] <= a)
    ensures TurnsToDiscard(p, a, family, 0)
  {
    assert a[0] == ESC && a[1] != 0x5b && CompleteEscapeSequenceLen(a).None?;
    assert !(PASTE_START <= a) && ExtractOneEvent(p, a).None?;
    forall f: Framer | Open(f) && f.buffer == a
      ensures FlushTimeout(p, f)
           == Output([], f.(buffer := [], discardUntil := Some(family), discardedTailBytes := 0))
    {
      assert DrainAvailableChunks(p, f) == Output([], f);
      assert TimeoutDrained(p, f) == Output([], EnterDiscard(f, family, 0));
    }
  }

  /** A mouse report likewise, if pause and final byte fall within 128 bytes. */
  lemma CutMouseReportIsDropped(p: Parsers, f: Framer, a: Bytes, b: Bytes)
    requires Idle(f) && CSI_MOUSE <= a && AllMouseTail(a[3..]) && b != []
    requires AllMouseTail(b[..|b| - 1]) && b[|b| - 1] in MOUSE_FINALS && |a| + |b| <= 128
    ensures Play(p, f, [Read(a), Timeout, Read(b)]) == Output([], f)
  {
    MouseReportTurnsToDiscard(p, a);
    MouseTailEnds(b, |a|);
    CutSequenceIsDropped(p, f, a, OrphanedSgrMouseTail, |a|, b);
  }

  lemma MouseReportTurnsToDiscard(p: Parsers, a: Bytes)
    requires CSI_MOUSE <= a && AllMouseTail(a[3..]) && |a| <= 128
    ensures TurnsToDiscard(p, a, OrphanedSgrMouseTail, |a|)
  {
    var body := a[2..];
    assert a[0] == ESC && a[1] == 0x5b && a[2] == 0x3c;
    forall i | 0 <= i < |body| ensures body[i] !in MOUSE_FINALS {
      assert i > 0 ==> body[i] == a[3..][i - 1];
    }
    assert FindAny(body, MOUSE_FINALS).None? && CompleteEscapeSequenceLen(a).None?;
    assert ExtractOneEvent(p, a).None?;
    forall f: Framer | Open(f) && f.buffer == a
      ensures FlushTimeout(p, f)
           == Output([], f.(buffer := [], discardUntil := Some(OrphanedSgrMouseTail), discardedTailBytes := |a|))
    {
      assert DrainAvailableChunks(p, f) == Output([], f);
      assert TimeoutDrained(p, f) == Output([], EnterDiscard(f, OrphanedSgrMouseTail, |a|));
    }
  }

  lemma MouseTailEnds(b: Bytes, counted: nat)
    requires b != [] && AllMouseTail(b[..|b| - 1]) && b[|b| - 1] in MOUSE_FINALS && counted + |b| <= 128
    ensures EndsDiscard(b, OrphanedSgrMouseTail, counted)
  {
    assert b[..|b|] == b;
    forall i | 0 <= i < |b| - 1 ensures b[i] !in MOUSE_TAIL_STOPS {
      assert b[i] == b[..|b| - 1][i];
    }
    assert FindAny(b, MOUSE_TAIL_STOPS) == Some(|b| - 1);
    assert b[|b|..] == [];
  }

  /** And a colour scheme report. */
  lemma CutSchemeReportIsDropped(p: Parsers, f: Framer, a: Bytes, b: Bytes)
    requires Idle(f) && 3 <= |a| < |DARK_REPORT| && (a <= DARK_REPORT || a <= LIGHT_REPORT)
    requires Terminator(b, HostColorSchemeCsi) == Some(|b|)
    ensures Play(p, f, [Read(a), Timeout, Read(b)]) == Output([], f)
  {
    SchemeReportTurnsToDiscard(p, a);
    CutSequenceIsDropped(p, f, a, HostColorSchemeCsi, 0, b);
  }

  lemma SchemeReportTurnsToDiscard(p: Parsers, a: Bytes)
    requires 3 <= |a| < |DARK_REPORT| && (a <= DARK_REPORT || a <= LIGHT_REPORT)
    ensures TurnsToDiscard(p, a, HostColorSchemeCsi, 0)
  {
    var body := a[2..];
    assert a[0] == ESC && a[1] == 0x5b && a[2] == 0x3f;
    forall i | 0 <= i < |body| ensures body[i] !in CSI_FINALS {
      assert body[i] == a[i + 2];
      assert a[i + 2] == DARK_REPORT[i + 2] || a[i + 2] == LIGHT_REPORT[i + 2];
    }
    assert FindAny(body, CSI_FINALS).None? && CompleteEscapeSequenceLen(a).None?;
    assert ExtractOneEvent(p, a).None?;
    forall f: Framer | Open(f) && f.buffer == a
      ensures FlushTimeout(p, f)
           == Output([], f.(buffer := [], discardUntil := Some(HostColorSchemeCsi), discardedTailBytes := 0))
    {
      assert DrainAvailableChunks(p, f) == Output([], f);
      assert TimeoutDrained(p, f) == Output([], EnterDiscard(f, HostColorSchemeCsi, 0));
    }
  }

  /** A report whose escape was flushed before, and which a further pause cuts, is dropped as well. */
  lemma CutOrphanedReportIsDropped(p: Parsers, f: Framer, a: Bytes, b: Bytes)
    requires Idle(f.(loneEscapeRecentlyFlushed := false)) && f.loneEscapeRecentlyFlushed
    requires ORPHANED_START <= a && StartsWithIncompleteOrphanedSgrMouseTail(a) && b != []
    requires AllMouseTail(b[..|b| - 1]) && b[|b| - 1] in MOUSE_FINALS && |a| + |b| <= 128
    ensures Play(p, f, [Read(a), Timeout, Read(b)]) == Output([], f.(loneEscapeRecentlyFlushed := false))
  {
    var g := f.(buffer := a);
    assert f.buffer + a == a && Push(p, f, a) == Output([], g);
    assert CompleteOrphanedSgrMouseTail(a).None? by {
      assert forall i :: 0 <= i < |a| - 2 ==> MouseTailByte(a[2..][i]) && a[2..][i] == a[i + 2];
      assert forall i :: 0 <= i < |a| ==> a[i] !in MOUSE_FINALS;
    }
    var cut := f.(loneEscapeRecentlyFlushed := false, discardUntil := Some(OrphanedSgrMouseTail),
                  discardedTailBytes := |a|);
    assert FlushTimeout(p, g) == Output([], cut);
    MouseTailEnds(b, |a|);
    TailIsDropped(p, cut, OrphanedSgrMouseTail, b);
    PlayThree(p, f, Read(a), Timeout, Read(b));
  }

  // ----- tails that themselves arrive slowly -----

  /** A reply tail of plausible bytes that ends with its first final byte. */
  predicate PlausibleTail(t: Bytes, family: Family) {
    && t != [] && ESC !in t && (family == Osc || family == HostColorSchemeCsi)
    && Terminator(t, family) == Some(|t|)
    && forall i :: 0 <= i < |t| - 1 ==> t[i] in (if family == Osc then OSC_TAIL_BYTES else SCHEME_TAIL_BYTES)
  }

  ghost predicate Discarding(f: Framer, family: Family, counted: nat) {
    f.discardUntil == Some(family) && !f.loneEscapeRecentlyFlushed && f.discardedTailBytes == counted
  }

  lemma TailPartWaits(t: Bytes, k: nat, family: Family)
    requires PlausibleTail(t, family) && k < |t|
    ensures Terminator(t[..k], family).None? && PlausibleControlStringTail(family, t[..k])
    ensures t[..k] == [] || t[..k][k - 1] != ESC
  {
    TerminatorOnPrefix(t[..k], t, family);
    assert forall i :: 0 <= i < k ==> t[..k][i] == t[i];
    if k > 0 {
      assert t[k - 1] in t;
    }
  }

  lemma TailReadStep(p: Parsers, f: Framer, t: Bytes, family: Family, data: Bytes)
    requires Discarding(f, family, f.discardedTailBytes) && PlausibleTail(t, family)
    requires f.buffer + data <= t
    ensures var o := Push(p, f, data);
      && o.chunks == []
      && if f.buffer + data == t then Open(o.framer) && o.framer.buffer == []
         else o.framer == f.(buffer := f.buffer + data)
  {
    var arrived := f.buffer + data;
    var g := f.(buffer := arrived);
    if arrived == t {
      assert [] + t == t;
      TailIsDropped(p, f.(buffer := []), family, t);
      assert Push(p, f, data) == DrainSettled(p, g) == Push(p, f.(buffer := []), t);
    } else {
      assert arrived == t[..|arrived|];
      TailPartWaits(t, |arrived|, family);
      assert DrainSettled(p, g) == Output([], g);
    }
  }

  lemma TailStep(p: Parsers, f: Framer, t: Bytes, family: Family, input: Input)
    requires Discarding(f, family, f.discardedTailBytes) && PlausibleTail(t, family)
    requires f.buffer + DataOf(input) <= t && f.buffer != t && f.discardedTailBytes + |t| <= 128
    ensures var o := Step(p, f, input);
      && o.chunks == []
      && if f.buffer + DataOf(input) == t then Open(o.framer) && o.framer.buffer == []
         else if input.Timeout? then
           Discarding(o.framer, family, f.discardedTailBytes + |f.buffer|) && o.framer.buffer == []
         else Discarding(o.framer, family, f.discardedTailBytes) && o.framer.buffer == f.buffer + DataOf(input)
  {
    var arrived := f.buffer + DataOf(input);
    assert f.buffer + [] == f.buffer;
    match input {
      case Read(data) => TailReadStep(p, f, t, family, data);
      case Timeout =>
        assert f.buffer == t[..|f.buffer|];
        TailPartWaits(t, |f.buffer|, family);
        assert DrainSettled(p, f) == Output([], f);
      case _ =>
    }
  }

  lemma {:induction false} FoundInRest(t: Bytes, k: nat, last: Byte)
    requires FindAny(t, {last}) == Some(|t| - 1) && k < |t|
    ensures FindAny(t[k..], {last}) == Some(|t| - k - 1)
  {
    var rest := t[k..];
    assert forall i :: 0 <= i < |rest| ==> rest[i] == t[i + k];
  }

  lemma TailByLastByte(t: Bytes, family: Family)
    requires t != [] && ESC !in t && (family == Osc || family == HostColorSchemeCsi)
    ensures Terminator(t, family) == Some(|t|)
       <==> FindAny(t, {if family == Osc then 0x07 else 0x6e}) == Some(|t| - 1)
  {
    NoTerminatorWithoutEscape(t);
  }

  lemma TailRest(t: Bytes, k: nat, family: Family)
    requires PlausibleTail(t, family) && k < |t|
    ensures PlausibleTail(t[k..], family)
  {
    var rest := t[k..];
    assert forall i :: 0 <= i < |rest| ==> rest[i] == t[i + k];
    assert ESC !in rest by {
      assert forall x :: x in rest ==> x in t;
    }
    TailByLastByte(t, family);
    FoundInRest(t, k, if family == Osc then 0x07 else 0x6e);
    TailByLastByte(rest, family);
  }

  lemma NoTerminatorWithoutEscape(t: Bytes)
    requires ESC !in t
    ensures Find(t, ST).None?
  {
    forall i: int ensures !MatchAt(t, i, ST) {
      if 0 <= i && i + 2 <= |t| {
        assert t[i..i + 2][0] == t[i] && t[i] in t;
      }
    }
  }

  /** After a pause, a reply tail that itself comes with pauses is still dropped whole, as long as no
      more than 128 bytes are counted. */
  lemma {:induction false} SlowTailIsDropped(p: Parsers, f: Framer, t: Bytes, family: Family, inputs: seq<Input>)
    requires Discarding(f, family, f.discardedTailBytes) && PlausibleTail(t, family)
    requires f.buffer + BytesRead(inputs) == t && f.buffer != t && f.discardedTailBytes + |t| <= 128
    ensures Play(p, f, inputs).chunks == []
    decreases inputs
  {
    assert f.buffer + [] == f.buffer;
    assert inputs != [];
    ReadingOn(f.buffer, inputs);
    var input, later := inputs[0], BytesRead(inputs[1..]);
    var arrived, next := f.buffer + DataOf(input), Step(p, f, input).framer;
    assert arrived + later == t && arrived <= t;
    TailStep(p, f, t, family, input);
    if arrived == t {
      assert |later| == |t| - |arrived|;
      NothingMoreComes(p, next, inputs[1..]);
    } else if input.Timeout? {
      TailRest(t, |f.buffer|, family);
      assert t[|f.buffer|..] == later && [] + later == later;
      SlowTailIsDropped(p, next, later, family, inputs[1..]);
    } else {
      SlowTailIsDropped(p, next, t, family, inputs[1..]);
    }
  }

  /** A string terminator that a pause cuts after its escape still ends the discarding. */
  lemma CutTerminatorEndsDiscard(p: Parsers, f: Framer, family: Family)
    requires Discarding(f, family, f.discardedTailBytes) && (family == Osc || family == StTerminated)
    requires f.buffer != [] && f.buffer[|f.buffer| - 1] == ESC && Terminator(f.buffer, family).None?
    requires PlausibleControlStringTail(family, f.buffer) && f.discardedTailBytes + |f.buffer| <= 128
    ensures Play(p, f, [Timeout, Read([0x5c])]) == Output([], StopDiscarding(f, []))
  {
    assert DrainSettled(p, f) == Output([], f);
    var cut := f.(buffer := [ESC], discardedTailBytes := f.discardedTailBytes + |f.buffer|);
    assert FlushTimeout(p, f) == Output([], cut);
    var st: Bytes := [ESC] + [0x5c];
    assert st == ST;
    TerminatorEndsItself(st, family);
    assert cut.(buffer := []).buffer + st == st;
    TailIsDropped(p, cut.(buffer := []), family, st);
    assert Push(p, cut, [0x5c]) == Push(p, cut.(buffer := []), st);
    PlayTwo(p, f, Timeout, Read([0x5c]));
  }

  lemma TerminatorEndsItself(st: Bytes, family: Family)
    requires st == ST && (family == Osc || family == StTerminated)
    ensures Terminator(st, family) == Some(2)
  {
    assert st[0..2] == ST && MatchAt(st, 0, ST) && Find(st, ST) == Some(0);
    assert FindAny(st, {0x07}).None?;
  }

  /** After a colour query the next lone escape is held through one quiet period. */
  lemma QueryHoldsNextEscape(p: Parsers, f: Framer)
    requires f.discardUntil.None? && f.buffer == []
    ensures Play(p, f, [QuerySent, Read([ESC]), Timeout]).chunks == []
    ensures Play(p, f, [QuerySent, Read([ESC]), Timeout]).framer.buffer == [ESC]
  {
    var asked := f.(hostColorRepliesAwaited := 2, heldPendingColorEsc := false);
    assert Step(p, f, QuerySent) == Output([], asked);
    PushLoneEscape(p, asked);
    var pressed := asked.(buffer := [ESC], loneEscapeRecentlyFlushed := false);
    TimeoutOnLoneEscape(p, pressed);
    PlayThree(p, f, QuerySent, Read([ESC]), Timeout);
  }

  /** The bounds of every state, in numbers: two replies, 128 bytes of a discarded tail, 32 bytes of a
      report held after a flushed escape. */
  lemma SoundBounds(f: Framer)
    requires Sound(f)
    ensures f.hostColorRepliesAwaited <= 2
    ensures f.discardUntil.Some? ==> f.discardedTailBytes <= 128
    ensures f.loneEscapeRecentlyFlushed ==> |f.buffer| <= 32
  {}

  /** Thirty-two bytes are still held. */
  lemma HeldUpToThirtyTwo(p: Parsers, f: Framer, a: Bytes)
    requires f.loneEscapeRecentlyFlushed && f.discardUntil.None? && f.buffer == []
    requires [0x5b, 0x3c] <= a && |a| <= 32 && forall i :: 2 <= i < |a| ==> 0x30 <= a[i] <= 0x39 || a[i] == 0x3b
    ensures Push(p, f, a) == Output([], f.(buffer := a))
  {
    assert f.buffer + a == a;
    assert forall i :: 0 <= i < |a| - 2 ==> a[2..][i] == a[i + 2];
  }

  // ----- what a quiet period keeps -----

  /** The bytes a quiet period keeps waiting. */
  predicate StillOnItsWay(f: Framer) {
    || PendingPaste(f.buffer)
    || StartsWithIncompleteDefaultColorResponse(f.buffer)
    || StartsWithIncompleteUtf8Char(f.buffer)
    || (f.buffer != [] && f.buffer[0] == ESC && StartsWithIncompleteUtf8Char(f.buffer[1..]))
    || (f.buffer == [ESC] && f.hostColorRepliesAwaited > 0 && !f.heldPendingColorEsc)
  }

  /** Once everything complete is drained, a quiet period keeps what is still on its way, exactly as
      it is, and empties the buffer of everything else. */
  lemma QuietPeriodKeepsExactly(p: Parsers, f: Framer)
    requires Open(f) && f.buffer != []
    ensures var rest := TimeoutDrained(p, f).framer.buffer;
      rest == if StillOnItsWay(f) then f.buffer else []
  {
    var buf := f.buffer;
    if StartsWithIncompleteUtf8Char(buf) {
      PartIsInvalid(buf);
    } else if buf[0] == ESC && StartsWithIncompleteUtf8Char(buf[1..]) {
      PartIsInvalid(buf[1..]);
      EscapedIsInvalid(buf);
      assert |buf| >= 2 && buf[1] >= 0xc2;
    } else if PendingPaste(buf) {
      assert buf[2] == 0x32;
    }
  }

  lemma PartIsInvalid(a: Bytes)
    requires StartsWithIncompleteUtf8Char(a)
    ensures !ValidUtf8(a) && a[0] >= 0xc2
  {}
}

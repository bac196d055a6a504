/** Exactly when it matters where a read ends: in every sound state, as a test on what is held. */
module RawCuts {
  import opened Machine
  import opened RawRecogniser
  import opened RawStability
  import opened RawFramer
  import opened RawTheorems
  import opened RawMeaning
  import opened RawMouse

  // ----- the test -----

  const PLUS: Byte := 0x2b
  const PLUS_ONE: Bytes := [PLUS, 0x31]

  /** Shortest ways to finish a report oddly, before its final byte: with a sign in a number or with
      more fields than a report has. The parser takes both, the test for unfinished tails neither. */
  const ODD_ENDINGS: set<Bytes> := {
    [PLUS], PLUS_ONE, [SEMICOLON, PLUS], [0x31, SEMICOLON, PLUS],
    [SEMICOLON, PLUS, 0x31], [0x31, SEMICOLON, PLUS, 0x31],
    [SEMICOLON, PLUS, 0x31, SEMICOLON, 0x31], [0x30, SEMICOLON, PLUS, 0x31, SEMICOLON, 0x31],
    [0x3c, 0x30, SEMICOLON, PLUS, 0x31, SEMICOLON, 0x31],
    [0x5b, 0x3c, 0x30, SEMICOLON, PLUS, 0x31, SEMICOLON, 0x31]
  }

  predicate CompleteTail(buf: Bytes) {
    CompleteOrphanedSgrMouseTail(buf) == Some(|buf|)
  }

  /** Some odd ending still makes a whole report of the held bytes. */
  predicate CanEndOddly(held: Bytes) {
    exists e :: e in ODD_ENDINGS && CompleteTail(held + e + [0x4d])
  }

  /** A whole report that continues the held bytes, and a place to cut it where it does not look
      like an unfinished one. */
  predicate OddCut(held: Bytes, report: Bytes, k: nat) {
    && held <= report && |held| <= k < |report|
    && CompleteTail(report) && !StartsWithIncompleteOrphanedSgrMouseTail(report[..k])
  }

  // ----- cuts that do not matter -----

  lemma CutWhileUnfinished(p: Parsers, f: Framer, a: Bytes, b: Bytes)
    requires f.loneEscapeRecentlyFlushed && StartsWithIncompleteOrphanedSgrMouseTail(f.buffer + a)
    ensures SameWhenCut(p, f, a, b)
  {
    var first := Push(p, f, a);
    assert first == Output([], f.(buffer := f.buffer + a));
    assert f.buffer + (a + b) == f.buffer + a + b;
  }

  lemma UnfinishedOnPrefix(a: Bytes, b: Bytes)
    requires a <= b && StartsWithIncompleteOrphanedSgrMouseTail(b)
    ensures StartsWithIncompleteOrphanedSgrMouseTail(a)
  {
    if ORPHANED_START <= a {
      assert forall i :: 0 <= i < |a| - 2 ==> a[2..][i] == b[2..][i];
    }
  }

  lemma TailOnPrefix(a: Bytes, b: Bytes)
    requires a <= b
    ensures CompleteOrphanedSgrMouseTail(a).Some? ==> CompleteOrphanedSgrMouseTail(b) == CompleteOrphanedSgrMouseTail(a)
    ensures CompleteOrphanedSgrMouseTail(b).Some? && CompleteOrphanedSgrMouseTail(b).value <= |a|
        ==> CompleteOrphanedSgrMouseTail(a) == CompleteOrphanedSgrMouseTail(b)
  {
    TerminatorOnPrefix(a, b, OrphanedSgrMouseTail);
    var n := Terminator(b, OrphanedSgrMouseTail);
    if n.Some? && n.value <= |a| {
      assert a[..n.value] == b[..n.value];
    }
  }

  lemma TailStandsAlone(buf: Bytes, n: nat)
    requires CompleteOrphanedSgrMouseTail(buf) == Some(n)
    ensures CompleteTail(buf[..n])
  {
    TailOnPrefix(buf[..n], buf);
  }

  /** The state draining starts in once the held bytes turned out to be a whole report or none. */
  function Settle(f: Framer): Framer {
    var n := CompleteOrphanedSgrMouseTail(f.buffer);
    f.(loneEscapeRecentlyFlushed := false, buffer := if n.Some? then f.buffer[n.value..] else f.buffer)
  }

  lemma DrainsSettled(p: Parsers, f: Framer)
    requires f.loneEscapeRecentlyFlushed && !StartsWithIncompleteOrphanedSgrMouseTail(f.buffer)
    ensures DrainAvailableChunks(p, f) == DrainSettled(p, Settle(f))
  {}

  lemma SettleCommutes(f: Framer, more: Bytes)
    requires CompleteOrphanedSgrMouseTail(f.buffer).Some? || CompleteOrphanedSgrMouseTail(f.buffer + more).None?
    ensures Settle(WithMore(f, more)) == WithMore(Settle(f), more)
  {
    TailOnPrefix(f.buffer, f.buffer + more);
    var n := CompleteOrphanedSgrMouseTail(f.buffer);
    if n.Some? {
      assert (f.buffer + more)[n.value..] == f.buffer[n.value..] + more;
    }
  }

  lemma CutOnceSettled(p: Parsers, f: Framer, a: Bytes, b: Bytes)
    requires f.loneEscapeRecentlyFlushed && f.discardUntil.None?
    requires !StartsWithIncompleteOrphanedSgrMouseTail(f.buffer + a)
    requires CompleteOrphanedSgrMouseTail(f.buffer + a).Some? || CompleteOrphanedSgrMouseTail(f.buffer + a + b).None?
    ensures SameWhenCut(p, f, a, b)
  {
    var g := WithMore(f, a);
    assert f.buffer + (a + b) == f.buffer + a + b;
    FinishedByMore(f.buffer + a, b);
    DrainsSettled(p, g);
    DrainsSettled(p, WithMore(g, b));
    SettleCommutes(g, b);
    DrainInTwo(p, Settle(g), b);
  }

  lemma FinishedByMore(buf: Bytes, more: Bytes)
    requires !StartsWithIncompleteOrphanedSgrMouseTail(buf)
    ensures !StartsWithIncompleteOrphanedSgrMouseTail(buf + more)
  {
    if StartsWithIncompleteOrphanedSgrMouseTail(buf + more) {
      UnfinishedOnPrefix(buf, buf + more);
    }
  }

  lemma CutNeedsOddCut(p: Parsers, f: Framer, a: Bytes, b: Bytes)
    requires f.loneEscapeRecentlyFlushed && f.discardUntil.None? && !SameWhenCut(p, f, a, b)
    ensures exists report, k :: OddCut(f.buffer, report, k)
  {
    var part, whole := f.buffer + a, f.buffer + a + b;
    if StartsWithIncompleteOrphanedSgrMouseTail(part) {
      CutWhileUnfinished(p, f, a, b);
      assert false;
    }
    if CompleteOrphanedSgrMouseTail(part).Some? || CompleteOrphanedSgrMouseTail(whole).None? {
      CutOnceSettled(p, f, a, b);
      assert false;
    }
    OddCutFound(f.buffer, part, whole, CompleteOrphanedSgrMouseTail(whole).value);
  }

  lemma OddCutFound(held: Bytes, part: Bytes, whole: Bytes, n: nat)
    requires held <= part <= whole && !StartsWithIncompleteOrphanedSgrMouseTail(part)
    requires CompleteOrphanedSgrMouseTail(part).None? && CompleteOrphanedSgrMouseTail(whole) == Some(n)
    ensures |part| <= n <= |whole| && OddCut(held, whole[..n], |part|)
  {
    TailOnPrefix(part, whole);
    TailStandsAlone(whole, n);
    assert whole[..n][..|part|] == part;
  }

  // ----- cuts that do -----

  lemma OddCutMatters(p: Parsers, f: Framer, report: Bytes, k: nat)
    requires f.loneEscapeRecentlyFlushed && f.discardUntil.None? && OddCut(f.buffer, report, k)
    ensures !CutInvariant(p, f)
  {
    var a, b := report[|f.buffer|..k], report[k..];
    CutInTwo(f.buffer, report, k);
    WholeReportVanishes(p, f, a + b);
    StartOfReportShows(p, f, a, b);
    DifferentWhenCut(p, f, a, b);
  }

  lemma CutInTwo(held: Bytes, report: Bytes, k: nat)
    requires held <= report && |held| <= k <= |report|
    ensures var a, b := report[|held|..k], report[k..];
      held + (a + b) == report && held + a == report[..k] && held + a + b == report
  {}

  lemma WholeReportVanishes(p: Parsers, f: Framer, data: Bytes)
    requires f.loneEscapeRecentlyFlushed && f.discardUntil.None? && CompleteTail(f.buffer + data)
    ensures Push(p, f, data) == Output([], f.(loneEscapeRecentlyFlushed := false, buffer := []))
  {
    var g := WithMore(f, data);
    CompleteIsFinished(g.buffer);
    DrainsSettled(p, g);
    assert Settle(g).buffer == [];
    assert DrainSettled(p, Settle(g)) == Output([], Settle(g));
  }

  lemma StartOfReportShows(p: Parsers, f: Framer, a: Bytes, b: Bytes)
    requires f.loneEscapeRecentlyFlushed && f.discardUntil.None? && b != []
    requires CompleteTail(f.buffer + a + b) && !StartsWithIncompleteOrphanedSgrMouseTail(f.buffer + a)
    ensures var first := Push(p, f, a);
      first.chunks != [] || Push(p, first.framer, b).framer.buffer == f.buffer + a + b
  {
    var part := f.buffer + a;
    CompleteHasStart(part + b);
    NotUnfinishedIsLonger(part, b);
    TailOnPrefix(part, part + b);
    DrainsSettled(p, WithMore(f, a));
    var settled := f.(loneEscapeRecentlyFlushed := false, buffer := part);
    assert Push(p, f, a) == DrainSettled(p, settled);
    if ExtractOneEvent(p, part).None? {
      assert Push(p, f, a) == Output([], settled);
      FirstByteSettles(p, part, b);
    }
  }

  lemma NotUnfinishedIsLonger(part: Bytes, b: Bytes)
    requires ORPHANED_START <= part + b && !StartsWithIncompleteOrphanedSgrMouseTail(part)
    ensures ORPHANED_START <= part && part[0] == 0x5b
  {
    assert |part| < 2 ==> part <= ORPHANED_START;
    assert part[..2] == (part + b)[..2];
  }

  // An unrecognised plain first byte holds everything behind it.
  lemma FirstByteSettles(p: Parsers, a: Bytes, b: Bytes)
    requires a != [] && a[0] < 0x80 && a[0] != ESC && ExtractOneEvent(p, a).None?
    ensures ExtractOneEvent(p, a + b).None?
  {
    assert (a + b)[..1] == a[..1];
    assert a[..1][1..] == [];
  }

  // ----- what a whole report is -----

  predicate GoodCode(field: Bytes) {
    ParseUnsigned(field, 255).Some? && ParseMouseKind(ParseUnsigned(field, 255).value).Some?
  }

  predicate GoodCoordinate(field: Bytes) {
    ParseUnsigned(field, U16_MAX).Some? && ParseUnsigned(field, U16_MAX).value > 0
  }

  predicate GoodFields(fields: seq<Bytes>) {
    |fields| >= 3 && GoodCode(fields[0]) && GoodCoordinate(fields[1]) && GoodCoordinate(fields[2])
  }

  lemma ReportByFields(report: Bytes)
    requires ORPHANED_START <= report && |report| >= 3 && report[|report| - 1] in MOUSE_FINALS
    ensures ParseSgrMouse([ESC] + report).Some? <==> GoodFields(Fields(report[2..|report| - 1]))
  {
    var sequence := [ESC] + report;
    assert CSI_MOUSE <= sequence by {
      assert report[0] == 0x5b && report[1] == 0x3c;
    }
    assert sequence[3..|sequence| - 1] == report[2..|report| - 1];
    assert sequence[|sequence| - 1] == report[|report| - 1];
  }

  lemma CompleteHasStart(report: Bytes)
    requires CompleteTail(report)
    ensures ORPHANED_START <= report && 3 <= |report| <= MAX_ORPHANED_SGR_MOUSE_TAIL_BYTES
    ensures report[|report| - 1] in MOUSE_FINALS
    ensures forall i :: 0 <= i < |report| - 1 ==> report[i] !in MOUSE_FINALS
  {
    var sequence := [ESC] + report;
    assert report[..|report|] == report;
    assert CSI_MOUSE <= sequence && |sequence| >= 4;
    assert sequence[1] == report[0] && sequence[2] == report[1];
  }

  lemma CompleteHasGoodFields(report: Bytes)
    requires CompleteTail(report)
    ensures |report| >= 3 && GoodFields(Fields(report[2..|report| - 1]))
  {
    CompleteHasStart(report);
    assert report[..|report|] == report;
    ReportByFields(report);
  }

  lemma CompleteIsFinished(report: Bytes)
    requires CompleteTail(report)
    ensures !StartsWithIncompleteOrphanedSgrMouseTail(report)
  {
    CompleteHasStart(report);
    assert report[2..][|report| - 3] == report[|report| - 1];
  }

  lemma GoodFieldsComplete(report: Bytes)
    requires ORPHANED_START <= report && 3 <= |report| <= MAX_ORPHANED_SGR_MOUSE_TAIL_BYTES
    requires report[|report| - 1] in MOUSE_FINALS
    requires forall i :: 0 <= i < |report| - 1 ==> report[i] !in MOUSE_FINALS && report[i] < 0x80
    requires GoodFields(Fields(report[2..|report| - 1]))
    ensures CompleteTail(report)
  {
    var sequence := [ESC] + report;
    assert ValidUtf8(sequence) by {
      assert forall i :: 0 <= i < |sequence| ==> sequence[i] < 0x80;
      PlainBytesAreUtf8(sequence);
    }
    ReportByFields(report);
    TailEndsAtFinal(report);
  }

  lemma TailEndsAtFinal(report: Bytes)
    requires 1 <= |report| <= MAX_ORPHANED_SGR_MOUSE_TAIL_BYTES && report[|report| - 1] in MOUSE_FINALS
    requires forall i :: 0 <= i < |report| - 1 ==> report[i] !in MOUSE_FINALS
    requires ValidUtf8([ESC] + report) && ParseSgrMouse([ESC] + report).Some?
    ensures CompleteTail(report)
  {
    FinalEndsTail(report);
    WholeOf(report, |report|);
    TailByTerminator(report, |report|);
  }

  lemma TailByTerminator(buf: Bytes, n: nat)
    requires Terminator(buf, OrphanedSgrMouseTail) == Some(n) && n <= |buf| && n <= MAX_ORPHANED_SGR_MOUSE_TAIL_BYTES
    requires ValidUtf8([ESC] + buf[..n]) && ParseSgrMouse([ESC] + buf[..n]).Some?
    ensures CompleteOrphanedSgrMouseTail(buf) == Some(n)
  {}

  lemma FinalEndsTail(report: Bytes)
    requires report != [] && report[|report| - 1] in MOUSE_FINALS
    requires forall i :: 0 <= i < |report| - 1 ==> report[i] !in MOUSE_FINALS
    ensures Terminator(report, OrphanedSgrMouseTail) == Some(|report|)
  {
    assert FindAny(report, MOUSE_FINALS) == Some(|report| - 1);
  }

  lemma WholeOf(report: Bytes, n: nat)
    requires n == |report|
    ensures report[..n] == report
  {}

  // ----- fields -----

  /** The last field of the one text and the first of the other become one. */
  function Spliced(a: seq<Bytes>, b: seq<Bytes>): seq<Bytes>
    requires a != [] && b != []
  {
    a[..|a| - 1] + [a[|a| - 1] + b[0]] + b[1..]
  }

  lemma AtSeparator(text: Bytes) returns (front: Bytes, rest: Bytes)
    requires FindAny(text, {0x3b}).Some?
    ensures text == front + [SEMICOLON] + rest && |rest| < |text|
    ensures forall i :: 0 <= i < |front| ==> front[i] != SEMICOLON
    ensures Fields(text) == [front] + Fields(rest)
  {
    var at := FindAny(text, {0x3b}).value;
    front, rest := text[..at], text[at + 1..];
  }

  lemma {:induction false} FieldsOfConcat(a: Bytes, b: Bytes)
    ensures Fields(a + b) == Spliced(Fields(a), Fields(b))
    decreases |a|
  {
    var at := FindAny(a, {0x3b});
    if at.None? {
      FirstFieldGrows(a, b);
    } else {
      var front, rest := AtSeparator(a);
      FieldsOfConcat(rest, b);
      FieldBeforeConcat(front, rest, b);
    }
  }

  lemma FieldBeforeConcat(front: Bytes, rest: Bytes, b: Bytes)
    requires forall i :: 0 <= i < |front| ==> front[i] != SEMICOLON
    requires Fields(rest + b) == Spliced(Fields(rest), Fields(b))
    ensures Fields(front + [SEMICOLON] + rest + b) == Spliced([front] + Fields(rest), Fields(b))
  {
    Regrouped(front + [SEMICOLON], rest, b);
    FirstField(front, rest + b);
    SplicedBehind(front, Fields(rest), Fields(b));
  }

  lemma Regrouped(a: Bytes, b: Bytes, c: Bytes)
    ensures a + b + c == a + (b + c)
  {}

  lemma SplicedBehind(first: Bytes, a: seq<Bytes>, b: seq<Bytes>)
    requires a != [] && b != []
    ensures Spliced([first] + a, b) == [first] + Spliced(a, b)
  {}

  lemma SplicedOnto(a: Bytes, fields: seq<Bytes>)
    requires fields != []
    ensures Spliced([a], fields) == [a + fields[0]] + fields[1..]
  {}

  lemma FirstFieldGrows(a: Bytes, b: Bytes)
    requires forall i :: 0 <= i < |a| ==> a[i] != SEMICOLON
    ensures Fields(a + b) == Spliced([a], Fields(b))
  {
    var at := FindAny(b, {0x3b});
    if at.None? {
      JoinedField(a, b);
      SplicedOnto(a, [b]);
    } else {
      var front, rest := AtSeparator(b);
      FirstOfSeveral(a, front, rest);
    }
  }

  lemma FirstOfSeveral(a: Bytes, front: Bytes, rest: Bytes)
    requires forall i :: 0 <= i < |a| ==> a[i] != SEMICOLON
    requires forall i :: 0 <= i < |front| ==> front[i] != SEMICOLON
    ensures var b := front + [SEMICOLON] + rest;
      Fields(a + b) == Spliced([a], Fields(b))
  {
    FirstField(front, rest);
    GrownField(a, front, rest);
    SplicedOnto(a, [front] + Fields(rest));
    assert ([front] + Fields(rest))[1..] == Fields(rest);
  }

  lemma JoinedField(a: Bytes, b: Bytes)
    requires forall i :: 0 <= i < |a| ==> a[i] != SEMICOLON
    requires forall i :: 0 <= i < |b| ==> b[i] != SEMICOLON
    ensures Fields(b) == [b] && Fields(a + b) == [a + b]
  {
    LastField(a + b);
    LastField(b);
  }

  lemma GrownField(a: Bytes, front: Bytes, rest: Bytes)
    requires forall i :: 0 <= i < |a| ==> a[i] != SEMICOLON
    requires forall i :: 0 <= i < |front| ==> front[i] != SEMICOLON
    ensures Fields(a + (front + [SEMICOLON] + rest)) == [a + front] + Fields(rest)
  {
    assert a + (front + [SEMICOLON] + rest) == (a + front) + [SEMICOLON] + rest;
    FirstField(a + front, rest);
  }

  lemma LastField(text: Bytes)
    requires forall i :: 0 <= i < |text| ==> text[i] != SEMICOLON
    ensures Fields(text) == [text]
  {
    assert FindAny(text, {0x3b}).None?;
  }

  predicate Digits(text: Bytes) {
    forall i :: 0 <= i < |text| ==> 0x30 <= text[i] <= 0x39
  }

  /** Characters and separators of fields; one more than in their text. */
  function Extent(fields: seq<Bytes>): nat {
    if fields == [] then 0 else |fields[0]| + 1 + Extent(fields[1..])
  }

  lemma {:induction false} TextHasExtent(text: Bytes)
    ensures Extent(Fields(text)) == |text| + 1
    decreases |text|
  {
    var at := FindAny(text, {0x3b});
    if at.None? {
      assert Extent([text][1..]) == 0;
    } else {
      var front, rest := AtSeparator(text);
      TextHasExtent(rest);
      assert ([front] + Fields(rest))[1..] == Fields(rest);
    }
  }

  lemma {:induction false} FieldsAreDigits(text: Bytes)
    ensures AllMouseTail(text) <==> forall g :: g in Fields(text) ==> Digits(g)
    decreases |text|
  {
    var at := FindAny(text, {0x3b});
    if at.None? {
      assert Fields(text) == [text] + [];
      InFrontOr(text, []);
      WithoutSeparator(text);
    } else {
      var front, rest := AtSeparator(text);
      FieldsAreDigits(rest);
      TailInParts(front, rest);
      InFrontOr(front, Fields(rest));
    }
  }

  lemma WithoutSeparator(text: Bytes)
    requires forall i :: 0 <= i < |text| ==> text[i] != SEMICOLON
    ensures AllMouseTail(text) <==> Digits(text)
  {}

  lemma InFrontOr(front: Bytes, rest: seq<Bytes>)
    ensures (forall g :: g in [front] + rest ==> Digits(g)) <==> Digits(front) && forall g :: g in rest ==> Digits(g)
  {
    if forall g :: g in [front] + rest ==> Digits(g) {
      assert front in [front] + rest;
      assert forall g :: g in rest ==> g in [front] + rest;
    }
  }

  lemma TailInParts(front: Bytes, rest: Bytes)
    requires forall i :: 0 <= i < |front| ==> front[i] != SEMICOLON
    ensures AllMouseTail(front + [SEMICOLON] + rest) <==> Digits(front) && AllMouseTail(rest)
  {
    var text := front + [SEMICOLON] + rest;
    if AllMouseTail(text) {
      assert forall i :: 0 <= i < |front| ==> front[i] == text[i];
      assert forall i :: 0 <= i < |rest| ==> rest[i] == text[|front| + 1 + i];
    }
  }

  // ----- numbers -----

  lemma {:induction false} DigitsOnly(text: Bytes)
    requires ParseDigits(text).Some?
    ensures Digits(text)
  {
    if text != [] {
      DigitsOnly(text[..|text| - 1]);
    }
  }

  /** What a number contains besides digits is one sign in front. */
  lemma OddNumber(field: Bytes, max: nat)
    requires ParseUnsigned(field, max).Some?
    ensures field != []
    ensures !Digits(field) ==> field[0] == PLUS && |field| >= 2
  {
    if field[0] == PLUS {
      DigitsOnly(field[1..]);
    } else {
      DigitsOnly(field);
    }
  }

  /** Cutting digits off the end of a number makes it smaller. */
  lemma {:induction false} NumberStart(a: Bytes, b: Bytes)
    requires ParseDigits(a + b).Some?
    ensures ParseDigits(a).Some? && ParseDigits(a).value <= ParseDigits(a + b).value
    ensures b != [] ==> 10 * ParseDigits(a).value <= ParseDigits(a + b).value
  {
    if b == [] {
      assert a + b == a;
    } else {
      assert (a + b)[..|a + b| - 1] == a + b[..|b| - 1];
      NumberStart(a, b[..|b| - 1]);
    }
  }

  lemma {:induction false} NumberPlusOne(a: Bytes)
    requires ParseDigits(a).Some?
    ensures ParseDigits(a + [0x31]) == Some(ParseDigits(a).value * 10 + 1)
  {
    assert (a + [0x31])[..|a|] == a;
  }

  lemma NumberOf(field: Bytes, max: nat)
    requires field != [] && 0x30 <= field[0] <= 0x39
    ensures ParseUnsigned(field, max)
         == if ParseDigits(field).Some? && ParseDigits(field).value <= max then ParseDigits(field) else None
  {}

  /** A button code that still fits with more digits behind it is itself a code. */
  lemma CodeStart(held: Bytes, more: Bytes)
    requires held != [] && Digits(held) && GoodCode(held + more)
    ensures GoodCode(held)
  {
    NumberOf(held + more, 255);
    NumberOf(held, 255);
    NumberStart(held, more);
    if more == [] {
      assert held + more == held;
    } else {
      SmallCodes(ParseDigits(held).value);
    }
  }

  lemma SmallCodes(code: nat)
    requires code <= 25
    ensures ParseMouseKind(code).Some?
  {}

  lemma CoordinateStart(held: Bytes, more: Bytes)
    requires held != [] && Digits(held) && GoodCoordinate(held + more)
    ensures GoodCoordinate(held) || (more != [] && GoodCoordinate(held + [0x31]))
  {
    NumberOf(held + more, U16_MAX);
    NumberOf(held, U16_MAX);
    NumberStart(held, more);
    if more == [] {
      assert held + more == held;
    }
    NumberPlusOne(held);
    assert (held + [0x31])[0] == held[0];
    NumberOf(held + [0x31], U16_MAX);
  }

  lemma ShortNumbers()
    ensures GoodCode([0x30]) && GoodCoordinate([0x31]) && GoodCoordinate(PLUS_ONE)
  {
    OneDigit(0x30);
    OneDigit(0x31);
    assert PLUS_ONE[1..] == [0x31];
  }

  lemma OneDigit(d: Byte)
    requires 0x30 <= d <= 0x39
    ensures ParseDigits([d]) == Some(d - 0x30)
  {
    assert [d][..0] == [];
  }

  // ----- odd endings -----

  /** An ending whose fields, joined to the held ones, are good makes a whole report. */
  lemma EndingCompletes(held: Bytes, ending: Bytes)
    requires ORPHANED_START <= held && AllMouseTail(held[2..])
    requires |held| + |ending| < MAX_ORPHANED_SGR_MOUSE_TAIL_BYTES
    requires DigitsSignsSeparators(ending)
    requires GoodFields(Spliced(Fields(held[2..]), Fields(ending)))
    ensures CompleteTail(held + ending + [0x4d])
  {
    var report := held + ending + [0x4d];
    BodyOfEnded(held, ending);
    FieldsOfConcat(held[2..], ending);
    EndedBytes(held, ending);
    GoodFieldsComplete(report);
  }

  lemma BodyOfEnded(held: Bytes, ending: Bytes)
    requires ORPHANED_START <= held
    ensures var report := held + ending + [0x4d];
      ORPHANED_START <= report && report[|report| - 1] == 0x4d && report[2..|report| - 1] == held[2..] + ending
  {}

  lemma EndedBytes(held: Bytes, ending: Bytes)
    requires ORPHANED_START <= held && AllMouseTail(held[2..]) && DigitsSignsSeparators(ending)
    ensures var report := held + ending + [0x4d];
      forall i :: 0 <= i < |report| - 1 ==> report[i] !in MOUSE_FINALS && report[i] < 0x80
  {
    var report := held + ending + [0x4d];
    forall i | 0 <= i < |report| - 1 ensures report[i] !in MOUSE_FINALS && report[i] < 0x80 {
      if i < |held| {
        assert report[i] == held[i];
        assert i >= 2 ==> held[i] == held[2..][i - 2];
      } else {
        assert report[i] == ending[i - |held|];
      }
    }
  }

  predicate DigitsSignsSeparators(text: Bytes) {
    forall i :: 0 <= i < |text| ==> MouseTailByte(text[i]) || text[i] == PLUS
  }

  lemma OneFieldEndings()
    ensures Fields([PLUS]) == [[PLUS]] && Fields(PLUS_ONE) == [PLUS_ONE]
  {
    LastField([PLUS]);
    LastField(PLUS_ONE);
  }

  lemma TwoFieldEndings(a: Bytes, b: Bytes)
    requires Digits(a) && (forall i :: 0 <= i < |b| ==> b[i] != SEMICOLON)
    ensures Fields(a + [SEMICOLON] + b) == [a, b]
  {
    FirstField(a, b);
    LastField(b);
  }

  lemma ThreeFieldEndings(a: Bytes, b: Bytes, c: Bytes)
    requires Digits(a) && (forall i :: 0 <= i < |b| ==> b[i] != SEMICOLON) && Digits(c)
    ensures Fields(a + [SEMICOLON] + b + [SEMICOLON] + c) == [a, b, c]
  {
    ThreeFields(a, b, c);
  }

  // ----- from any odd cut to an odd ending -----

  /** The bytes of an odd cut's report that come after the held ones, without the final byte. */
  function Added(held: Bytes, report: Bytes): Bytes
    requires held <= report && |held| < |report|
  {
    report[|held|..|report| - 1]
  }

  lemma AddedIsOdd(held: Bytes, report: Bytes, k: nat)
    requires ORPHANED_START <= held && AllMouseTail(held[2..]) && OddCut(held, report, k)
    ensures !AllMouseTail(Added(held, report))
    ensures GoodFields(Spliced(Fields(held[2..]), Fields(Added(held, report))))
    ensures |held| + |Added(held, report)| < MAX_ORPHANED_SGR_MOUSE_TAIL_BYTES
  {
    CompleteHasStart(report);
    AddedFields(held, report);
    assert ORPHANED_START <= report[..k];
    AddedHasOddByte(held, report, k);
  }

  lemma AddedFields(held: Bytes, report: Bytes)
    requires ORPHANED_START <= held <= report && |held| < |report| && CompleteTail(report)
    ensures GoodFields(Spliced(Fields(held[2..]), Fields(Added(held, report))))
  {
    CompleteHasGoodFields(report);
    assert report[2..|report| - 1] == held[2..] + Added(held, report);
    FieldsOfConcat(held[2..], Added(held, report));
  }

  lemma AddedHasOddByte(held: Bytes, report: Bytes, k: nat)
    requires held <= report && 2 <= |held| <= k < |report|
    requires AllMouseTail(held[2..]) && !AllMouseTail(report[..k][2..])
    ensures !AllMouseTail(Added(held, report))
  {
    var part, added := report[..k], Added(held, report);
    var i :| 0 <= i < |part[2..]| && !MouseTailByte(part[2..][i]);
    assert part[2..][i] == report[i + 2];
    assert i + 2 >= |held|;
    assert added[i + 2 - |held|] == report[i + 2];
  }

  /** Where the added fields are odd: some field is no run of digits. */
  lemma OddField(added: Bytes) returns (i: nat)
    requires !AllMouseTail(added)
    ensures i < |Fields(added)| && !Digits(Fields(added)[i])
  {
    FieldsAreDigits(added);
    var g :| g in Fields(added) && !Digits(g);
    i :| i < |Fields(added)| && Fields(added)[i] == g;
  }

  function Width(fields: seq<Bytes>, i: nat): nat {
    if i < |fields| then |fields[i]| + 1 else 0
  }

  lemma ExtentOfFirst(fields: seq<Bytes>)
    ensures Extent(fields) >= Width(fields, 0) + Width(fields, 1) + Width(fields, 2)
    ensures |fields| > 3 ==> Extent(fields) >= Width(fields, 0) + Width(fields, 1) + Width(fields, 2) + 1
  {
    if |fields| > 1 {
      ExtentStep(fields);
      ExtentStep(fields[1..]);
      assert fields[1..][1..] == fields[2..];
      if |fields| > 2 {
        ExtentStep(fields[2..]);
        assert fields[2..][1..] == fields[3..];
        ExtentStep(fields[3..]);
      }
    }
  }

  lemma ExtentStep(fields: seq<Bytes>)
    ensures fields != [] ==> Extent(fields) == |fields[0]| + 1 + Extent(fields[1..])
  {}

  /** A number that starts with held digits has no sign in what was added. */
  lemma HeldDigitsStayDigits(last: Bytes, first: Bytes, max: nat)
    requires Digits(last) && ParseUnsigned(last + first, max).Some?
    ensures first == [] ==> last != []
    ensures !Digits(first) ==> last == [] && |first| >= 2
  {
    OddNumber(last + first, max);
    if last == [] {
      assert last + first == first;
    } else {
      assert (last + first)[0] == last[0];
      assert forall i :: 0 <= i < |first| ==> first[i] == (last + first)[|last| + i];
    }
  }

  /** What an ending must do for the held fields, and how long it may be. */
  ghost predicate Finishes(held: seq<Bytes>, ending: Bytes, room: nat)
    requires held != []
  {
    ending in ODD_ENDINGS && DigitsSignsSeparators(ending) && |ending| < room
    && GoodFields(Spliced(held, Fields(ending)))
  }

  lemma FinishInExtra(held: seq<Bytes>, added: seq<Bytes>, i: nat)
    requires |held| >= 4 && i < |added| && !Digits(added[i]) && GoodFields(Spliced(held, added))
    ensures Finishes(held, [PLUS], Extent(added))
  {
    OneFieldEndings();
    ExtentOfFirst(added);
  }

  lemma FinishRow(held: seq<Bytes>, added: seq<Bytes>, i: nat) returns (ending: Bytes)
    requires |held| == 3 && Digits(held[2])
    requires i < |added| && !Digits(added[i]) && GoodFields(Spliced(held, added))
    ensures Finishes(held, ending, Extent(added))
  {
    var last := held[2];
    ExtentOfFirst(added);
    HeldDigitsStayDigits(last, added[0], U16_MAX);
    if last == [] {
      ending := SignedRow(held);
    } else {
      CoordinateStart(last, added[0]);
      assert last + [] == last;
      ending := RowEnding(held, if GoodCoordinate(last) then [] else [0x31]);
    }
  }

  lemma SignedRow(held: seq<Bytes>) returns (ending: Bytes)
    requires |held| == 3 && GoodCode(held[0]) && GoodCoordinate(held[1]) && held[2] == []
    ensures |ending| == 2 && Finishes(held, ending, 3)
  {
    ShortNumbers();
    OneFieldEndings();
    ending := PLUS_ONE;
    assert held[2] + PLUS_ONE == PLUS_ONE;
  }

  lemma RowEnding(held: seq<Bytes>, digits: Bytes) returns (ending: Bytes)
    requires |held| == 3 && GoodCode(held[0]) && GoodCoordinate(held[1])
    requires (digits == [] || digits == [0x31]) && GoodCoordinate(held[2] + digits)
    ensures |ending| == |digits| + 2 && Finishes(held, ending, |ending| + 1)
  {
    ending := digits + [SEMICOLON] + [PLUS];
    TwoFieldEndings(digits, [PLUS]);
    assert ending == if digits == [] then [SEMICOLON, PLUS] else [0x31, SEMICOLON, PLUS];
    assert Spliced(held, [digits, [PLUS]]) == [held[0], held[1], held[2] + digits, [PLUS]];
  }

  lemma FinishColumn(held: seq<Bytes>, added: seq<Bytes>, i: nat) returns (ending: Bytes)
    requires |held| == 2 && Digits(held[1])
    requires i < |added| && !Digits(added[i]) && GoodFields(Spliced(held, added))
    ensures Finishes(held, ending, Extent(added))
  {
    var last := held[1];
    ExtentOfFirst(added);
    HeldDigitsStayDigits(last, added[0], U16_MAX);
    OddNumber(added[1], U16_MAX);
    if last == [] {
      ShortNumbers();
      assert last + [0x31] == [0x31];
      ending := ColumnEnding(held, [0x31]);
    } else {
      CoordinateStart(last, added[0]);
      assert last + [] == last;
      ending := ColumnEnding(held, if GoodCoordinate(last) then [] else [0x31]);
    }
  }

  lemma ColumnEnding(held: seq<Bytes>, digits: Bytes) returns (ending: Bytes)
    requires |held| == 2 && GoodCode(held[0])
    requires (digits == [] || digits == [0x31]) && GoodCoordinate(held[1] + digits)
    ensures |ending| == |digits| + 3 && Finishes(held, ending, |ending| + 1)
  {
    ShortNumbers();
    ending := digits + [SEMICOLON] + PLUS_ONE;
    TwoFieldEndings(digits, PLUS_ONE);
    assert ending == if digits == [] then [SEMICOLON, PLUS, 0x31] else [0x31, SEMICOLON, PLUS, 0x31];
    assert Spliced(held, [digits, PLUS_ONE]) == [held[0], held[1] + digits, PLUS_ONE];
  }

  lemma FinishCode(held: seq<Bytes>, added: seq<Bytes>, i: nat) returns (ending: Bytes)
    requires |held| == 1 && Digits(held[0])
    requires i < |added| && !Digits(added[i]) && GoodFields(Spliced(held, added))
    ensures Finishes(held, ending, Extent(added))
  {
    CodeExtent(held[0], added, i);
    assert held == [held[0]];
    if held[0] == [] {
      ending := CodeEnding(held[0], [0x30]);
    } else {
      CodeStart(held[0], added[0]);
      ending := CodeEnding(held[0], []);
    }
  }

  lemma CodeExtent(last: Bytes, added: seq<Bytes>, i: nat)
    requires Digits(last) && i < |added| && !Digits(added[i]) && GoodFields(Spliced([last], added))
    ensures Extent(added) > if last == [] then 6 else 5
  {
    ExtentOfFirst(added);
    CodeParts(last, added);
  }

  lemma CodeParts(last: Bytes, added: seq<Bytes>)
    requires Digits(last) && added != [] && GoodFields(Spliced([last], added))
    ensures |added| >= 3
    ensures added[0] == [] ==> last != []
    ensures !Digits(added[0]) ==> last == [] && |added[0]| >= 2
    ensures |added[1]| >= if Digits(added[1]) then 1 else 2
    ensures |added[2]| >= if Digits(added[2]) then 1 else 2
  {
    SplicedOnto(last, added);
    var all := Spliced([last], added);
    assert all[0] == last + added[0] && all[1] == added[1] && all[2] == added[2];
    HeldDigitsStayDigits(last, added[0], 255);
    OddNumber(added[1], U16_MAX);
    OddNumber(added[2], U16_MAX);
  }

  lemma CodeEndingFields(digits: Bytes)
    requires Digits(digits)
    ensures Fields(digits + [SEMICOLON, PLUS, 0x31, SEMICOLON, 0x31]) == [digits, PLUS_ONE, [0x31]]
  {
    ThreeFieldEndings(digits, PLUS_ONE, [0x31]);
    FiveBytes(digits, SEMICOLON, PLUS, 0x31, SEMICOLON, 0x31);
  }

  lemma FiveBytes(front: Bytes, a: Byte, b: Byte, c: Byte, d: Byte, e: Byte)
    ensures front + [a] + [b, c] + [d] + [e] == front + [a, b, c, d, e]
  {}

  lemma CodeEndingIsListed(digits: Bytes)
    requires digits == [] || digits == [0x30]
    ensures var ending := digits + [SEMICOLON, PLUS, 0x31, SEMICOLON, 0x31];
      ending in ODD_ENDINGS && DigitsSignsSeparators(ending)
  {
    assert digits + [SEMICOLON, PLUS, 0x31, SEMICOLON, 0x31]
        == if digits == [] then [SEMICOLON, PLUS, 0x31, SEMICOLON, 0x31]
           else [0x30, SEMICOLON, PLUS, 0x31, SEMICOLON, 0x31];
  }

  lemma CodeEnding(last: Bytes, digits: Bytes) returns (ending: Bytes)
    requires if last == [] then digits == [0x30] else digits == [] && GoodCode(last)
    ensures ending == digits + [SEMICOLON, PLUS, 0x31, SEMICOLON, 0x31]
    ensures Finishes([last], ending, |ending| + 1)
  {
    ShortNumbers();
    assert last + digits == if last == [] then digits else last;
    ending := digits + [SEMICOLON, PLUS, 0x31, SEMICOLON, 0x31];
    CodeEndingFields(digits);
    CodeEndingIsListed(digits);
    assert Spliced([last], [digits, PLUS_ONE, [0x31]]) == [last + digits, PLUS_ONE, [0x31]];
  }

  lemma OddCutGivesEnding(held: Bytes, report: Bytes, k: nat)
    requires ORPHANED_START <= held && AllMouseTail(held[2..]) && OddCut(held, report, k)
    ensures CanEndOddly(held)
  {
    var added := Added(held, report);
    AddedIsOdd(held, report, k);
    FieldsAreDigits(held[2..]);
    TextHasExtent(added);
    var i := OddField(added);
    var fields, more := Fields(held[2..]), Fields(added);
    var ending := [PLUS];
    if |fields| == 1 {
      ending := FinishCode(fields, more, i);
    } else if |fields| == 2 {
      ending := FinishColumn(fields, more, i);
    } else if |fields| == 3 {
      ending := FinishRow(fields, more, i);
    } else {
      FinishInExtra(fields, more, i);
    }
    EndingCompletes(held, ending);
  }

  /** Before the first digit there is always an odd ending. */
  lemma StartCanEndOddly(held: Bytes)
    requires held <= ORPHANED_START
    ensures CanEndOddly(held)
  {
    var ending := StartEnding();
    var e := ORPHANED_START[|held|..] + ending;
    assert held + e == ORPHANED_START + ending;
    StartedEnding(held, e);
  }

  lemma StartEnding() returns (ending: Bytes)
    ensures ending == [0x30, SEMICOLON, PLUS, 0x31, SEMICOLON, 0x31]
    ensures CompleteTail(ORPHANED_START + ending + [0x4d])
  {
    ending := CodeEnding([], [0x30]);
    LastField([]);
    assert ORPHANED_START[2..] == [];
    EndingCompletes(ORPHANED_START, ending);
  }

  lemma StartedEnding(held: Bytes, e: Bytes)
    requires held <= ORPHANED_START
    requires e == ORPHANED_START[|held|..] + [0x30, SEMICOLON, PLUS, 0x31, SEMICOLON, 0x31]
    ensures e in ODD_ENDINGS
  {
    if |held| == 0 {
      assert e == [0x5b, 0x3c, 0x30, SEMICOLON, PLUS, 0x31, SEMICOLON, 0x31];
    } else if |held| == 1 {
      assert e == [0x3c, 0x30, SEMICOLON, PLUS, 0x31, SEMICOLON, 0x31];
    } else {
      assert e == [0x30, SEMICOLON, PLUS, 0x31, SEMICOLON, 0x31];
    }
  }

  lemma OddEndingHasSign(e: Bytes)
    requires e in ODD_ENDINGS
    ensures PLUS in e
  {}

  lemma EndingGivesOddCut(held: Bytes, e: Bytes)
    requires e in ODD_ENDINGS && CompleteTail(held + e + [0x4d])
    ensures exists report, k :: OddCut(held, report, k)
  {
    OddEndingHasSign(e);
    var j :| 0 <= j < |e| && e[j] == PLUS;
    SignGivesOddCut(held, held + e + [0x4d], |held| + j);
  }

  lemma SignGivesOddCut(held: Bytes, report: Bytes, at: nat)
    requires held <= report && |held| <= at < |report| - 1 && report[at] == PLUS && CompleteTail(report)
    ensures OddCut(held, report, at + 1)
  {
    CompleteHasStart(report);
    assert report[0] == 0x5b && report[1] == 0x3c && at >= 2;
    var part := report[..at + 1];
    assert part[2..][at - 2] == PLUS;
  }

  /** Ten endings decide whether any report has an odd cut. */
  lemma OddCutsByEndings(held: Bytes)
    requires StartsWithIncompleteOrphanedSgrMouseTail(held)
    ensures CanEndOddly(held) <==> exists report, k :: OddCut(held, report, k)
  {
    if CanEndOddly(held) {
      var e :| e in ODD_ENDINGS && CompleteTail(held + e + [0x4d]);
      EndingGivesOddCut(held, e);
    }
    if report, k :| OddCut(held, report, k) {
      if held <= ORPHANED_START {
        StartCanEndOddly(held);
      } else {
        OddCutGivesEnding(held, report, k);
      }
    }
  }

  /** None does once the button code was left out. */
  lemma NoEndingWithoutCode(held: Bytes)
    requires ORPHANED_START + [SEMICOLON] <= held
    ensures !CanEndOddly(held)
  {
    forall e | e in ODD_ENDINGS ensures !CompleteTail(held + e + [0x4d]) {
      var report := held + e + [0x4d];
      assert report[2] == held[2] == SEMICOLON;
      EmptyFirstField(report[2..|report| - 1]);
      if CompleteTail(report) {
        CompleteHasGoodFields(report);
      }
    }
  }

  lemma EmptyFirstField(text: Bytes)
    requires text != [] && text[0] == SEMICOLON
    ensures !GoodFields(Fields(text))
  {
    assert FindAny(text, {0x3b}) == Some(0);
    assert Fields(text)[0] == text[..0] == [];
  }

  // ----- the theorem -----

  /** Just after an escape was flushed the cut matters exactly if the held bytes can end oddly. */
  lemma CutMattersAfterFlushedEscape(p: Parsers, f: Framer)
    requires f.loneEscapeRecentlyFlushed && f.discardUntil.None?
    requires StartsWithIncompleteOrphanedSgrMouseTail(f.buffer)
    ensures CutInvariant(p, f) <==> !CanEndOddly(f.buffer)
  {
    OddCutsByEndings(f.buffer);
    if report, k :| OddCut(f.buffer, report, k) {
      OddCutMatters(p, f, report, k);
    } else {
      forall a, b ensures SameWhenCut(p, f, a, b) {
        if !SameWhenCut(p, f, a, b) {
          CutNeedsOddCut(p, f, a, b);
        }
      }
    }
  }

  /** In every state of every run: where a read ends matters exactly while the tail of a mouse
      report is dropped, and while a report whose escape was flushed can still end oddly. */
  lemma CutInvariantExactly(p: Parsers, f: Framer)
    requires Sound(f)
    ensures CutInvariant(p, f)
       <==> && f.discardUntil != Some(OrphanedSgrMouseTail)
            && (f.loneEscapeRecentlyFlushed ==> !CanEndOddly(f.buffer))
  {
    if f.loneEscapeRecentlyFlushed {
      CutMattersAfterFlushedEscape(p, f);
    } else if f.discardUntil == Some(OrphanedSgrMouseTail) {
      CutMattersWhileDroppingMouseTail(p, f);
    } else {
      forall a, b ensures SameWhenCut(p, f, a, b) {
        PushInTwo(p, f, a, b);
      }
    }
  }

  /** So where the held bytes leave the button code out, the cut does not matter. */
  lemma NoCutMattersWithoutCode(p: Parsers, f: Framer)
    requires Sound(f) && f.loneEscapeRecentlyFlushed && ORPHANED_START + [SEMICOLON] <= f.buffer
    ensures CutInvariant(p, f)
  {
    NoEndingWithoutCode(f.buffer);
    CutMattersAfterFlushedEscape(p, f);
  }
}

/** Mouse reports: the parser inverts the report a terminal sends for an event, and the framer
    takes such a report as one event. */
module RawMouse {
  import opened Machine
  import opened RawRecogniser
  import opened RawStability

  const SEMICOLON: Byte := 0x3b

  // ----- writing a report -----

  function Decimal(n: nat): (text: Bytes)
    ensures text != []
    ensures forall i :: 0 <= i < |text| ==> 0x30 <= text[i] <= 0x39
  {
    (if n < 10 then [] else Decimal(n / 10)) + [0x30 + n % 10]
  }

  function ButtonCode(kind: MouseKind): nat {
    match kind
    case Down(b) => ButtonNumber(b)
    case Up(b) => ButtonNumber(b)
    case Drag(b) => 32 + ButtonNumber(b)
    case Moved => 35
    case ScrollUp => 64
    case ScrollDown => 65
    case ScrollLeft => 66
    case ScrollRight => 67
  }

  function ButtonNumber(b: MouseButton): nat {
    match b
    case Left => 0
    case Middle => 1
    case Right => 2
  }

  function EventCode(e: MouseEvent): nat {
    ButtonCode(e.kind) + (if e.shift then 4 else 0) + (if e.alt then 8 else 0) + (if e.control then 16 else 0)
  }

  function Separated(a: Bytes, b: Bytes, c: Bytes): Bytes {
    a + [SEMICOLON] + b + [SEMICOLON] + c
  }

  function ReportText(e: MouseEvent): Bytes {
    Separated(Decimal(EventCode(e)), Decimal(e.column + 1), Decimal(e.row + 1))
  }

  /** The SGR report for an event; releases end in a small letter. */
  function Report(e: MouseEvent): Bytes {
    CSI_MOUSE + ReportText(e) + [if e.kind.Up? then 0x6d else 0x4d]
  }

  // ----- reading it back -----

  lemma {:induction false} DecimalReadsBack(n: nat)
    ensures ParseDigits(Decimal(n)) == Some(n)
  {
    var text := Decimal(n);
    var front := text[..|text| - 1];
    if n < 10 {
      assert front == [];
    } else {
      DecimalReadsBack(n / 10);
      assert front == Decimal(n / 10);
    }
  }

  lemma NumberReadsBack(n: nat, max: nat)
    requires n <= max
    ensures ParseUnsigned(Decimal(n), max) == Some(n)
  {
    DecimalReadsBack(n);
    assert Decimal(n)[0] != 0x2b;
  }

  lemma FirstField(field: Bytes, rest: Bytes)
    requires forall i :: 0 <= i < |field| ==> field[i] != SEMICOLON
    ensures Fields(field + [SEMICOLON] + rest) == [field] + Fields(rest)
  {
    var text := field + [SEMICOLON] + rest;
    assert text[|field|] == SEMICOLON;
    assert forall i :: 0 <= i < |field| ==> text[i] == field[i];
    assert FindAny(text, {SEMICOLON}) == Some(|field|);
    assert text[..|field|] == field && text[|field| + 1..] == rest;
  }

  lemma ThreeFields(a: Bytes, b: Bytes, c: Bytes)
    requires forall i :: 0 <= i < |a| ==> a[i] != SEMICOLON
    requires forall i :: 0 <= i < |b| ==> b[i] != SEMICOLON
    requires forall i :: 0 <= i < |c| ==> c[i] != SEMICOLON
    ensures Fields(a + [SEMICOLON] + b + [SEMICOLON] + c) == [a, b, c]
  {
    assert a + [SEMICOLON] + b + [SEMICOLON] + c == a + [SEMICOLON] + (b + [SEMICOLON] + c);
    FirstField(a, b + [SEMICOLON] + c);
    FirstField(b, c);
    assert Fields(c) == [c];
  }

  lemma DigitFields(a: Bytes, b: Bytes, c: Bytes)
    requires forall i :: 0 <= i < |a| ==> 0x30 <= a[i] <= 0x39
    requires forall i :: 0 <= i < |b| ==> 0x30 <= b[i] <= 0x39
    requires forall i :: 0 <= i < |c| ==> 0x30 <= c[i] <= 0x39
    ensures Fields(Separated(a, b, c)) == [a, b, c]
  {
    ThreeFields(a, b, c);
  }

  lemma CodeBits(block: nat, button: nat, shift: nat, alt: nat, control: nat)
    requires block <= 2 && button <= 3 && shift <= 1 && alt <= 1 && control <= 1
    ensures var code := 32 * block + button + 4 * shift + 8 * alt + 16 * control;
      && code <= 255 && code % 4 == button && code / 64 == block / 2 && (code / 32) % 2 == block % 2
      && (code / 4) % 2 == shift && (code / 8) % 2 == alt && (code / 16) % 2 == control
  {}

  lemma KindReadsBack(kind: MouseKind, code: Byte)
    requires code % 4 == ButtonCode(kind) % 4 && code / 64 == ButtonCode(kind) / 64
    requires (code / 32) % 2 == (ButtonCode(kind) / 32) % 2
    ensures ParseMouseKind(code) == Some(if kind.Up? then Down(kind.button) else kind)
  {}

  lemma ButtonParts(kind: MouseKind) returns (block: nat, button: nat)
    ensures block <= 2 && button <= 3 && ButtonCode(kind) == 32 * block + button
    ensures ButtonCode(kind) % 4 == button && ButtonCode(kind) / 64 == block / 2
    ensures (ButtonCode(kind) / 32) % 2 == block % 2
  {
    block, button := ButtonCode(kind) / 32, ButtonCode(kind) % 32;
  }

  function Bit(on: bool): nat {
    if on then 1 else 0
  }

  lemma EventCodeParts(e: MouseEvent)
    ensures EventCode(e) == ButtonCode(e.kind) + 4 * Bit(e.shift) + 8 * Bit(e.alt) + 16 * Bit(e.control)
  {}

  lemma ButtonReadsBack(e: MouseEvent)
    ensures EventCode(e) <= 255
    ensures var code := EventCode(e);
      && ParseMouseKind(code) == Some(if e.kind.Up? then Down(e.kind.button) else e.kind)
      && ((code / 4) % 2 == 1 <==> e.shift)
      && ((code / 8) % 2 == 1 <==> e.alt)
      && ((code / 16) % 2 == 1 <==> e.control)
  {
    var block, button := ButtonParts(e.kind);
    EventCodeParts(e);
    CodeBits(block, button, Bit(e.shift), Bit(e.alt), Bit(e.control));
    KindReadsBack(e.kind, EventCode(e));
  }

  lemma ReportParts(e: MouseEvent)
    ensures var report := Report(e);
      && CSI_MOUSE <= report && |report| >= 4
      && report[3..|report| - 1] == ReportText(e)
      && report[|report| - 1] == if e.kind.Up? then 0x6d else 0x4d
  {}

  /** Every event is read back from its report: button, dragging, release, wheel, modifiers and
      both coordinates, each in its own place. */
  lemma ReportReadsBack(e: MouseEvent)
    requires e.column < U16_MAX && e.row < U16_MAX
    ensures ParseSgrMouse(Report(e)) == Some(e)
  {
    ReportParts(e);
    ReportFields(e);
    ReportNumbers(e);
    FieldsGiveEvent(e, Report(e), Decimal(EventCode(e)), Decimal(e.column + 1), Decimal(e.row + 1));
  }

  lemma ReportFields(e: MouseEvent)
    ensures Fields(ReportText(e)) == [Decimal(EventCode(e)), Decimal(e.column + 1), Decimal(e.row + 1)]
  {
    DigitFields(Decimal(EventCode(e)), Decimal(e.column + 1), Decimal(e.row + 1));
  }

  lemma ReportNumbers(e: MouseEvent)
    requires e.column < U16_MAX && e.row < U16_MAX
    ensures ParseUnsigned(Decimal(EventCode(e)), 255) == Some(EventCode(e))
    ensures ParseUnsigned(Decimal(e.column + 1), U16_MAX) == Some(e.column + 1)
    ensures ParseUnsigned(Decimal(e.row + 1), U16_MAX) == Some(e.row + 1)
  {
    ButtonReadsBack(e);
    NumberReadsBack(EventCode(e), 255);
    NumberReadsBack(e.column + 1, U16_MAX);
    NumberReadsBack(e.row + 1, U16_MAX);
  }

  lemma FieldsGiveEvent(e: MouseEvent, report: Bytes, code: Bytes, column: Bytes, row: Bytes)
    requires e.column < U16_MAX && e.row < U16_MAX
    requires CSI_MOUSE <= report && |report| >= 4
    requires report[|report| - 1] == if e.kind.Up? then 0x6d else 0x4d
    requires Fields(report[3..|report| - 1]) == [code, column, row]
    requires ParseUnsigned(code, 255) == Some(EventCode(e))
    requires ParseUnsigned(column, U16_MAX) == Some(e.column + 1)
    requires ParseUnsigned(row, U16_MAX) == Some(e.row + 1)
    ensures ParseSgrMouse(report) == Some(e)
  {
    ButtonReadsBack(e);
  }

  // ----- framing it -----

  predicate DigitsAndSeparators(text: Bytes) {
    forall i :: 0 <= i < |text| ==> text[i] == SEMICOLON || 0x30 <= text[i] <= 0x39
  }

  lemma JoinedFields(a: Bytes, b: Bytes)
    requires DigitsAndSeparators(a) && DigitsAndSeparators(b)
    ensures DigitsAndSeparators(a + [SEMICOLON] + b)
  {}

  lemma ReportTextBytes(e: MouseEvent)
    ensures DigitsAndSeparators(ReportText(e))
  {
    var code, column, row := Decimal(EventCode(e)), Decimal(e.column + 1), Decimal(e.row + 1);
    JoinedFields(code, column);
    JoinedFields(code + [SEMICOLON] + column, row);
  }

  lemma FramedBytes(text: Bytes, last: Byte)
    requires DigitsAndSeparators(text) && last in MOUSE_FINALS
    ensures var report := CSI_MOUSE + text + [last];
      && (forall i :: 3 <= i < |report| - 1 ==> report[i] !in MOUSE_FINALS)
      && forall i :: 0 <= i < |report| ==> report[i] < 0x80
  {
    var report := CSI_MOUSE + text + [last];
    forall i | 3 <= i < |report| - 1 ensures report[i] !in MOUSE_FINALS && report[i] < 0x80 {
      assert report[i] == text[i - 3];
    }
  }

  lemma ReportBytes(e: MouseEvent)
    ensures forall i :: 3 <= i < |Report(e)| - 1 ==> Report(e)[i] !in MOUSE_FINALS
    ensures forall i :: 0 <= i < |Report(e)| ==> Report(e)[i] < 0x80
  {
    ReportTextBytes(e);
    FramedBytes(ReportText(e), if e.kind.Up? then 0x6d else 0x4d);
  }

  lemma MouseReportIsWhole(report: Bytes)
    requires CSI_MOUSE <= report && |report| >= 4 && report[|report| - 1] in MOUSE_FINALS
    requires forall i :: 3 <= i < |report| - 1 ==> report[i] !in MOUSE_FINALS
    ensures CompleteEscapeSequenceLen(report) == Some(|report|)
  {
    var body := report[2..];
    assert forall i :: 0 <= i < |body| ==> body[i] == report[i + 2];
    assert body[0] == 0x3c;
    assert FindAny(body, MOUSE_FINALS) == Some(|body| - 1);
    assert report[1] == 0x5b && EscapedMouse(report).None?;
  }

  lemma ReportIsWhole(e: MouseEvent)
    ensures CompleteEscapeSequenceLen(Report(e)) == Some(|Report(e)|)
  {
    ReportParts(e);
    ReportBytes(e);
    MouseReportIsWhole(Report(e));
  }

  /** Whatever follows it, a report frames as one mouse event and nothing more, unless the colour
      parser claims it. */
  lemma ReportFramesExactly(p: Parsers, e: MouseEvent, rest: Bytes)
    requires e.column < U16_MAX && e.row < U16_MAX && p.color(Report(e)).None?
    ensures ExtractOneEvent(p, Report(e) + rest) == Some(Extracted(Mouse(e), |Report(e)|))
  {
    var report := Report(e);
    ReportParts(e);
    ReportIsWhole(e);
    ReportReadsBack(e);
    ReportBytes(e);
    PlainBytesAreUtf8(report);
    ReportIsMouse(p, report, e);
    WholeSequenceFrames(p, report);
    ExtractionExtends(p, report, report + rest);
  }

  lemma ReportIsMouse(p: Parsers, report: Bytes, e: MouseEvent)
    requires CSI_MOUSE <= report && p.color(report).None? && ParseSgrMouse(report) == Some(e)
    ensures SequenceEvent(p, report) == Mouse(e)
  {
    assert report[2] == 0x3c;
  }

  lemma WholeSequenceFrames(p: Parsers, report: Bytes)
    requires CSI_MOUSE <= report && ValidUtf8(report) && CompleteEscapeSequenceLen(report) == Some(|report|)
    ensures ExtractOneEvent(p, report) == Some(Extracted(SequenceEvent(p, report), |report|))
  {
    assert report[0] == ESC && report[2] == 0x3c && report[..|report|] == report;
  }
}

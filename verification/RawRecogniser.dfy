/** Recognising one input event at the front of a byte buffer (`extract_one_event` and its
    helpers): control sequences (section 5.4 of ECMA-48), control strings (section 5.6 of
    ECMA-48), bracketed pastes and UTF-8 characters (section 4 of RFC 3629). */
module RawRecogniser {
  import opened Machine

  type Bytes = seq<Byte>

  const ESC: Byte := 0x1b
  const PASTE_START: Bytes := [0x1b, 0x5b, 0x32, 0x30, 0x30, 0x7e]
  const PASTE_END: Bytes := [0x1b, 0x5b, 0x32, 0x30, 0x31, 0x7e]
  const DARK_REPORT: Bytes := [0x1b, 0x5b, 0x3f, 0x39, 0x39, 0x37, 0x3b, 0x31, 0x6e]
  const LIGHT_REPORT: Bytes := [0x1b, 0x5b, 0x3f, 0x39, 0x39, 0x37, 0x3b, 0x32, 0x6e]
  const ST: Bytes := [0x1b, 0x5c]
  const CSI_MOUSE: Bytes := [0x1b, 0x5b, 0x3c]
  const MOUSE_FINALS: set<Byte> := {0x4d, 0x6d}
  const CSI_FINALS: set<Byte> := set b: Byte | 0x40 <= b <= 0x7e

  datatype TerminalKey = TerminalKey(code: nat, modifiers: nat, kind: nat, shifted: Option<nat>)
  datatype DefaultColor = DefaultColor(foreground: bool, r: Byte, g: Byte, b: Byte)
  datatype MouseButton = Left | Middle | Right
  datatype MouseKind =
    | Down(button: MouseButton) | Up(button: MouseButton) | Drag(button: MouseButton)
    | Moved | ScrollUp | ScrollDown | ScrollLeft | ScrollRight
  datatype MouseEvent = MouseEvent(
    kind: MouseKind, column: U16, row: U16, shift: bool, alt: bool, control: bool)

  datatype Event =
    | Key(key: TerminalKey)
    | Paste(text: Bytes)
    | Mouse(mouse: MouseEvent)
    | FocusGained
    | FocusLost
    | HostDefaultColor(color: DefaultColor)
    | HostColorSchemeChanged(dark: bool)
    | Unsupported

  /** The key and colour parsers of other files: any functions of the recognised bytes. */
  datatype Parsers = Parsers(key: Bytes -> Option<TerminalKey>, color: Bytes -> Option<DefaultColor>)

  // ----- searching -----

  predicate MatchAt(buf: Bytes, i: int, needle: Bytes) {
    0 <= i && i + |needle| <= |buf| && buf[i..i + |needle|] == needle
  }

  lemma SliceOfTail(buf: Bytes, i: nat, j: nat)
    requires 1 <= i <= j <= |buf|
    ensures buf[1..][i - 1..j - 1] == buf[i..j]
  {
    var tail := buf[1..];
    assert forall k :: 0 <= k < j - i ==> tail[i - 1..j - 1][k] == buf[i..j][k];
  }

  lemma MatchInTail(buf: Bytes, needle: Bytes)
    requires buf != []
    ensures forall j :: 1 <= j ==> MatchAt(buf, j, needle) == MatchAt(buf[1..], j - 1, needle)
  {
    forall j | 1 <= j
      ensures MatchAt(buf, j, needle) == MatchAt(buf[1..], j - 1, needle)
    {
      if j + |needle| <= |buf| {
        SliceOfTail(buf, j, j + |needle|);
      }
    }
  }

  function Find(buf: Bytes, needle: Bytes): (r: Option<nat>)
    requires needle != []
    ensures r.Some? ==> MatchAt(buf, r.value, needle) && forall j :: j < r.value ==> !MatchAt(buf, j, needle)
    ensures r.None? ==> forall j :: !MatchAt(buf, j, needle)
  {
    if |buf| < |needle| then None
    else if MatchAt(buf, 0, needle) then Some(0)
    else
      var rest := Find(buf[1..], needle);
      MatchInTail(buf, needle);
      if rest.None? then None else Some(rest.value + 1)
  }

  function FindAny(buf: Bytes, s: set<Byte>): (r: Option<nat>)
    ensures r.Some? ==> r.value < |buf| && buf[r.value] in s && forall j :: 0 <= j < r.value ==> buf[j] !in s
    ensures r.None? ==> forall j :: 0 <= j < |buf| ==> buf[j] !in s
  {
    if buf == [] then None
    else if buf[0] in s then Some(0)
    else
      var rest := FindAny(buf[1..], s);
      if rest.None? then None else Some(rest.value + 1)
  }

  function PlusOne(r: Option<nat>, n: nat): Option<nat> {
    if r.None? then None else Some(r.value + n)
  }

  // ----- UTF-8 -----

  predicate ContinuationByte(b: Byte) {
    0x80 <= b <= 0xbf
  }

  /** Which second bytes may follow a lead byte. */
  predicate SecondByte(lead: Byte, b: Byte) {
    && ContinuationByte(b)
    && (lead == 0xe0 ==> 0xa0 <= b)
    && (lead == 0xed ==> b <= 0x9f)
    && (lead == 0xf0 ==> 0x90 <= b)
    && (lead == 0xf4 ==> b <= 0x8f)
  }

  function LeadLength(b: Byte): nat {
    if b < 0x80 then 1
    else if 0xc2 <= b <= 0xdf then 2
    else if 0xe0 <= b <= 0xef then 3
    else if 0xf0 <= b <= 0xf4 then 4
    else 0
  }

  /** The bytes agree with the start of some character as far as they go. */
  predicate CharPrefix(buf: Bytes, n: nat) {
    && 1 <= n <= |buf|
    && LeadLength(buf[0]) >= n
    && (n >= 2 ==> SecondByte(buf[0], buf[1]))
    && forall i :: 2 <= i < n ==> ContinuationByte(buf[i])
  }

  predicate ValidUtf8(buf: Bytes) {
    buf == []
    || (var n := LeadLength(buf[0]);
        1 <= n <= |buf| && CharPrefix(buf, n) && ValidUtf8(buf[n..]))
  }

  predicate StartsWithIncompleteUtf8Char(buf: Bytes) {
    buf != [] && CharPrefix(buf, |buf|) && |buf| < LeadLength(buf[0])
  }

  function Utf8CharWidth(b: Byte): Option<nat> {
    if b < 0x80 then Some(1)
    else if 0xc0 <= b < 0xe0 then Some(2)
    else if 0xe0 <= b < 0xf0 then Some(3)
    else if 0xf0 <= b < 0xf8 then Some(4)
    else None
  }

  function FirstCompleteUtf8CharLen(buf: Bytes): Option<nat> {
    if buf == [] then None
    else
      var width := Utf8CharWidth(buf[0]);
      if width.None? || |buf| < width.value || !ValidUtf8(buf[..width.value]) then None else width
  }

  // ----- control strings -----

  datatype Family = Osc | StTerminated | HostColorSchemeCsi | OrphanedSgrMouseTail

  function OscStringTerminator(buf: Bytes): Option<nat> {
    match (PlusOne(Find(buf, ST), 2), PlusOne(FindAny(buf, {0x07}), 1))
    case (Some(st), Some(bel)) => Some(Min(st, bel))
    case (Some(st), None) => Some(st)
    case (None, Some(bel)) => Some(bel)
    case (None, None) => None
  }

  function Terminator(buf: Bytes, family: Family): Option<nat> {
    match family
    case Osc => OscStringTerminator(buf)
    case StTerminated => PlusOne(Find(buf, ST), 2)
    case HostColorSchemeCsi => PlusOne(FindAny(buf, {0x6e}), 1)
    case OrphanedSgrMouseTail => PlusOne(FindAny(buf, MOUSE_FINALS), 1)
  }

  function ControlFamily(buf: Bytes): Option<Family> {
    if |buf| < 2 || buf[0] != ESC then None
    else if buf[1] == 0x5d then Some(Osc)
    else if buf[1] in {0x50, 0x5f, 0x5e, 0x58} then Some(StTerminated)
    else None
  }

  // Looks for a final byte from the third byte of the sequence on.
  function FindCsiFinal(buf: Bytes, finals: set<Byte>): Option<nat> {
    if |buf| < 2 then None else PlusOne(FindAny(buf[2..], finals), 3)
  }

  // ----- SGR mouse reports -----

  function ParseDigits(text: Bytes): Option<nat> {
    if text == [] then Some(0)
    else
      var rest, d := ParseDigits(text[..|text| - 1]), text[|text| - 1];
      if rest.None? || !(0x30 <= d <= 0x39) then None else Some(rest.value * 10 + (d - 0x30))
  }

  // Unsigned decimal as the standard library reads it: one leading plus sign is allowed.
  function ParseUnsigned(text: Bytes, max: nat): Option<nat> {
    var digits := if text != [] && text[0] == 0x2b then text[1..] else text;
    var value := ParseDigits(digits);
    if digits == [] || value.None? || value.value > max then None else value
  }

  function Fields(text: Bytes): (fields: seq<Bytes>)
    ensures |fields| >= 1
  {
    var at := FindAny(text, {0x3b});
    if at.None? then [text] else [text[..at.value]] + Fields(text[at.value + 1..])
  }

  function ParseMouseKind(cb: Byte): Option<MouseKind> {
    var button := cb % 4 + (cb / 64) * 4;
    var dragging := (cb / 32) % 2 == 1;
    if button == 0 then Some(if dragging then Drag(Left) else Down(Left))
    else if button == 1 then Some(if dragging then Drag(Middle) else Down(Middle))
    else if button == 2 then Some(if dragging then Drag(Right) else Down(Right))
    else if button == 3 then Some(if dragging then Moved else Up(Left))
    else if button == 4 then Some(if dragging then Moved else ScrollUp)
    else if button == 5 then Some(if dragging then Moved else ScrollDown)
    else if button == 6 && !dragging then Some(ScrollLeft)
    else if button == 7 && !dragging then Some(ScrollRight)
    else None
  }

  function ParseSgrMouse(sequence: Bytes): Option<MouseEvent> {
    if !(CSI_MOUSE <= sequence) || |sequence| < 4 then None
    else
      var final := sequence[|sequence| - 1];
      var fields := Fields(sequence[3..|sequence| - 1]);
      if final !in MOUSE_FINALS || |fields| < 3 then None
      else
        var cb := ParseUnsigned(fields[0], 255);
        var column := ParseUnsigned(fields[1], U16_MAX);
        var row := ParseUnsigned(fields[2], U16_MAX);
        if cb.None? || column.None? || row.None? || column.value == 0 || row.value == 0 then None
        else
          var kind := ParseMouseKind(cb.value);
          if kind.None? then None
          else
            var released := if final == 0x6d && kind.value.Down? then Up(kind.value.button) else kind.value;
            Some(MouseEvent(released, column.value - 1, row.value - 1,
                            (cb.value / 4) % 2 == 1, (cb.value / 8) % 2 == 1, (cb.value / 16) % 2 == 1))
  }

  // ----- whole sequences -----

  /** The mouse report that follows a doubled escape, as far as its final byte. */
  function EscapedMouse(buf: Bytes): Option<Bytes> {
    if [ESC] + CSI_MOUSE <= buf then
      var final := FindCsiFinal(buf[1..], MOUSE_FINALS);
      if final.None? then None else Some(buf[1..1 + final.value])
    else
      None
  }

  function CompleteEscapeSequenceLen(buf: Bytes): (r: Option<nat>)
    requires buf != []
    ensures r.Some? ==> 1 <= r.value <= |buf|
  {
    var mouse := EscapedMouse(buf);
    if |buf| == 1 then None
    else if mouse.Some? && !ValidUtf8(mouse.value) then None
    else if mouse.Some? && ParseSgrMouse(mouse.value).Some? then Some(1)
    else if buf[0] == ESC && buf[1] == ESC then PlusOne(CompleteEscapeSequenceLen(buf[1..]), 1)
    else if buf[0] == ESC && buf[1] == 0x5b then
      FindCsiFinal(buf, if CSI_MOUSE <= buf then MOUSE_FINALS else CSI_FINALS)
    else if ControlFamily(buf).Some? then Terminator(buf, ControlFamily(buf).value)
    else if buf[0] == ESC && buf[1] == 0x4f then (if |buf| >= 3 then Some(3) else None)
    else PlusOne(FirstCompleteUtf8CharLen(buf[1..]), 1)
  }

  function ParseHostColorSchemeReport(sequence: Bytes): Option<bool> {
    if sequence == DARK_REPORT then Some(true)
    else if sequence == LIGHT_REPORT then Some(false)
    else None
  }

  /** What a complete escape sequence means. */
  function SequenceEvent(p: Parsers, sequence: Bytes): Event {
    if p.color(sequence).Some? then HostDefaultColor(p.color(sequence).value)
    else if sequence == [ESC, 0x5b, 0x49] then FocusGained
    else if sequence == [ESC, 0x5b, 0x4f] then FocusLost
    else if ParseHostColorSchemeReport(sequence).Some? then
      HostColorSchemeChanged(ParseHostColorSchemeReport(sequence).value)
    else if ParseSgrMouse(sequence).Some? then Mouse(ParseSgrMouse(sequence).value)
    else if p.key(sequence).Some? then Key(p.key(sequence).value)
    else Unsupported
  }

  lemma NoPasteEndInStart(buf: Bytes, i: nat)
    requires PASTE_START <= buf && i < 6
    ensures !MatchAt(buf, i, PASTE_END)
  {
    if i + 6 <= |buf| {
      var window := buf[i..i + 6];
      assert window[0] == buf[i] == PASTE_START[i];
      assert window[4] == buf[i + 4];
      assert i == 0 ==> window[4] == PASTE_START[4] == 0x30;
    }
  }

  lemma PasteEndAfterStart(buf: Bytes)
    requires PASTE_START <= buf && Find(buf, PASTE_END).Some?
    ensures Find(buf, PASTE_END).value >= 6
  {
    forall i: nat | i < 6 ensures !MatchAt(buf, i, PASTE_END) {
      NoPasteEndInStart(buf, i);
    }
  }

  datatype Extracted = Extracted(event: Event, consumed: nat)

  function ExtractPaste(buf: Bytes): (r: Option<Extracted>)
    requires PASTE_START <= buf
    ensures r.Some? ==> 12 <= r.value.consumed <= |buf|
  {
    var end := Find(buf, PASTE_END);
    if end.None? then None
    else
      PasteEndAfterStart(buf);
      if !ValidUtf8(buf[6..end.value]) then None
      else Some(Extracted(Paste(buf[6..end.value]), end.value + 6))
  }

  function ExtractOneEvent(p: Parsers, buf: Bytes): (r: Option<Extracted>)
    ensures r.Some? ==> 1 <= r.value.consumed <= |buf|
  {
    if buf == [] then None
    else if PASTE_START <= buf then ExtractPaste(buf)
    else if buf[0] == ESC then
      var n := CompleteEscapeSequenceLen(buf);
      if n.None? || !ValidUtf8(buf[..n.value]) then None
      else Some(Extracted(SequenceEvent(p, buf[..n.value]), n.value))
    else
      var n := FirstCompleteUtf8CharLen(buf);
      if n.None? || p.key(buf[..n.value]).None? then None
      else Some(Extracted(Key(p.key(buf[..n.value]).value), n.value))
  }
}

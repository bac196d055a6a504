/** The recogniser against the standards it follows: which byte strings are one control sequence,
    one control string or one character, and what the fixed reports mean. */
module RawGrammar {
  import opened Machine
  import opened RawRecogniser
  import opened RawStability
  import opened RawFramer
  import opened RawTheorems
  import opened RawMeaning
  import opened RawPaste

  /** Whatever follows, the bytes frame as one escape sequence of exactly their length. */
  ghost predicate FramesAsSequence(p: Parsers, q: Bytes) {
    forall rest :: ExtractOneEvent(p, q + rest) == Some(Extracted(SequenceEvent(p, q), |q|))
  }

  lemma SequenceFrames(p: Parsers, q: Bytes)
    requires |q| >= 2 && q[0] == ESC && ValidUtf8(q) && !(PASTE_START <= q)
    requires CompleteEscapeSequenceLen(q) == Some(|q|)
    ensures FramesAsSequence(p, q)
  {
    assert q[..|q|] == q;
    assert ExtractOneEvent(p, q) == Some(Extracted(SequenceEvent(p, q), |q|));
    forall rest ensures ExtractOneEvent(p, q + rest) == Some(Extracted(SequenceEvent(p, q), |q|)) {
      ExtractionExtends(p, q, q + rest);
    }
  }

  // ----- control sequences (section 5.4 of ECMA-48) -----

  /** CSI, parameter and intermediate bytes, one final byte. */
  predicate ControlSequence(q: Bytes) {
    && |q| >= 3 && q[0] == 0x1b && q[1] == 0x5b
    && (forall i :: 2 <= i < |q| - 1 ==> 0x20 <= q[i] <= 0x3f)
    && 0x40 <= q[|q| - 1] <= 0x7e
  }

  lemma ControlSequenceLength(q: Bytes)
    requires ControlSequence(q) && !(CSI_MOUSE <= q)
    ensures CompleteEscapeSequenceLen(q) == Some(|q|) && ValidUtf8(q)
  {
    var body := q[2..];
    forall i | 0 <= i < |body| - 1 ensures body[i] !in CSI_FINALS {
      assert body[i] == q[i + 2];
    }
    assert body[|body| - 1] == q[|q| - 1] && body[|body| - 1] in CSI_FINALS;
    assert FindAny(body, CSI_FINALS) == Some(|body| - 1);
    assert q[0] < 0x80 && q[1] < 0x80;
    PlainBytesAreUtf8(q);
  }

  lemma NoPasteInside(q: Bytes)
    requires ControlSequence(q) && PASTE_START <= q
    ensures q == PASTE_START
  {
    assert q[5] == 0x7e;
  }

  /** Every control sequence but the start of a paste frames as one event; those that start as mouse
      reports do are the business of `ReportFramesExactly`. */
  lemma ControlSequenceFrames(p: Parsers, q: Bytes)
    requires ControlSequence(q) && !(CSI_MOUSE <= q) && q != PASTE_START
    ensures FramesAsSequence(p, q)
  {
    ControlSequenceLength(q);
    if PASTE_START <= q {
      NoPasteInside(q);
    }
    SequenceFrames(p, q);
  }

  /** A further escape in front, as Alt sends it, belongs to the sequence. */
  lemma EscapedControlSequenceFrames(p: Parsers, q: Bytes)
    requires ControlSequence(q) && !(CSI_MOUSE <= q)
    ensures FramesAsSequence(p, [ESC] + q)
  {
    var all := [ESC] + q;
    ControlSequenceLength(q);
    assert all[1..] == q && all[1] == q[0] && all[3] == q[2];
    assert EscapedMouse(all).None?;
    assert CompleteEscapeSequenceLen(all) == Some(|all|);
    PlainBytesAreUtf8(all);
    SequenceFrames(p, all);
  }

  /** A single shift takes one more byte. */
  lemma SingleShiftFrames(p: Parsers, b: Byte)
    requires b < 0x80
    ensures FramesAsSequence(p, [ESC, 0x4f, b])
  {
    var q: Bytes := [ESC, 0x4f, b];
    PlainBytesAreUtf8(q);
    assert CompleteEscapeSequenceLen(q) == Some(3);
    SequenceFrames(p, q);
  }

  // ----- control strings (section 5.6 of ECMA-48) -----

  /** An opening delimiter, a text without escapes, and a string terminator; an operating system
      command may end in a bell instead, and then has none before. */
  predicate ControlString(q: Bytes, text: Bytes) {
    && ESC !in text && ValidUtf8(q)
    && (|| (exists c: Byte :: c in {0x50, 0x5f, 0x5e, 0x58} && q == [0x1b, c] + text + [0x1b, 0x5c])
        || (0x07 !in text && (q == [0x1b, 0x5d] + text + [0x1b, 0x5c] || q == [0x1b, 0x5d] + text + [0x07])))
  }

  lemma TerminatedAt(c: Byte, text: Bytes)
    requires ESC !in text && c != ESC && c != 0x5c
    ensures var q := [0x1b, c] + text + [0x1b, 0x5c];
      Find(q, ST) == Some(|text| + 2)
  {
    var q := [0x1b, c] + text + [0x1b, 0x5c];
    assert q[|text| + 2..|text| + 4] == ST;
    forall i | 0 <= i < |text| + 2 ensures !MatchAt(q, i, ST) {
      assert q[i..i + 2][0] == q[i] && q[i..i + 2][1] == q[i + 1];
      if i >= 2 {
        assert q[i] == text[i - 2] && text[i - 2] in text;
      } else {
        assert i == 0 ==> q[1] == c;
      }
    }
    FoundFirst(q, |text| + 2, ST);
  }

  lemma NoTerminatorBefore(text: Bytes, tail: Bytes)
    requires ESC !in text && ESC !in tail
    ensures Find([0x1b, 0x5d] + text + tail, ST).None?
  {
    var q := [0x1b, 0x5d] + text + tail;
    forall i: int ensures !MatchAt(q, i, ST) {
      if 0 <= i && i + 2 <= |q| {
        assert q[i..i + 2][0] == q[i] && q[i..i + 2][1] == q[i + 1];
        if i >= 2 {
          assert q[i] == (text + tail)[i - 2] && (text + tail)[i - 2] in text + tail;
        } else {
          assert i == 0 ==> q[1] == 0x5d;
        }
      }
    }
  }

  lemma AbsentFrom(front: Bytes, text: Bytes, b: Byte)
    requires b !in front && b !in text
    ensures b !in front + text
  {}

  lemma {:induction false} FirstAtEnd(front: Bytes, b: Byte)
    requires b !in front
    ensures FindAny(front + [b], {b}) == Some(|front|)
  {
    var q := front + [b];
    forall i | 0 <= i < |front| ensures q[i] !in {b} {
      assert q[i] == front[i] && front[i] in front;
    }
    assert q[|front|] in {b};
  }

  lemma {:induction false} NowhereIn(q: Bytes, b: Byte)
    requires b !in q
    ensures FindAny(q, {b}).None?
  {
    forall i | 0 <= i < |q| ensures q[i] !in {b} {
      assert q[i] in q;
    }
  }

  lemma CommandEndedByTerminator(text: Bytes)
    requires ESC !in text && 0x07 !in text
    ensures OscStringTerminator([0x1b, 0x5d] + text + [0x1b, 0x5c]) == Some(|text| + 4)
  {
    TerminatedAt(0x5d, text);
    AbsentFrom([0x1b, 0x5d], text, 0x07);
    AbsentFrom([0x1b, 0x5d] + text, [0x1b, 0x5c], 0x07);
    NowhereIn([0x1b, 0x5d] + text + [0x1b, 0x5c], 0x07);
  }

  lemma CommandEndedByBell(text: Bytes)
    requires ESC !in text && 0x07 !in text
    ensures OscStringTerminator([0x1b, 0x5d] + text + [0x07]) == Some(|text| + 3)
  {
    NoTerminatorBefore(text, [0x07]);
    AbsentFrom([0x1b, 0x5d], text, 0x07);
    FirstAtEnd([0x1b, 0x5d] + text, 0x07);
  }

  lemma LengthByTerminator(q: Bytes)
    requires |q| >= 3 && q[0] == ESC && ControlFamily(q).Some?
    requires Terminator(q, ControlFamily(q).value) == Some(|q|)
    ensures q[1] != 0x5b && CompleteEscapeSequenceLen(q) == Some(|q|)
  {}

  lemma StringLength(c: Byte, text: Bytes)
    requires c in {0x50, 0x5f, 0x5e, 0x58} && ESC !in text
    ensures var q := [0x1b, c] + text + [0x1b, 0x5c];
      q[0] == ESC && q[1] != 0x5b && CompleteEscapeSequenceLen(q) == Some(|q|)
  {
    var q := [0x1b, c] + text + [0x1b, 0x5c];
    TerminatedAt(c, text);
    assert q[0] == ESC && q[1] == c;
    LengthByTerminator(q);
  }

  lemma CommandLength(text: Bytes, q: Bytes)
    requires ESC !in text && 0x07 !in text
    requires q == [0x1b, 0x5d] + text + [0x1b, 0x5c] || q == [0x1b, 0x5d] + text + [0x07]
    ensures |q| >= 3 && q[0] == ESC && q[1] != 0x5b && CompleteEscapeSequenceLen(q) == Some(|q|)
  {
    CommandEndedByTerminator(text);
    CommandEndedByBell(text);
    assert q[0] == ESC && q[1] == 0x5d;
    LengthByTerminator(q);
  }

  lemma ControlStringLength(q: Bytes, text: Bytes)
    requires ControlString(q, text)
    ensures |q| >= 3 && q[0] == ESC && q[1] != 0x5b && CompleteEscapeSequenceLen(q) == Some(|q|)
  {
    if c: Byte :| c in {0x50, 0x5f, 0x5e, 0x58} && q == [0x1b, c] + text + [0x1b, 0x5c] {
      StringLength(c, text);
    } else {
      CommandLength(text, q);
    }
  }

  /** Every control string frames as one event of exactly its bytes. */
  lemma ControlStringFrames(p: Parsers, q: Bytes, text: Bytes)
    requires ControlString(q, text)
    ensures FramesAsSequence(p, q)
  {
    ControlStringLength(q, text);
    SequenceFrames(p, q);
  }

  // ----- fixed reports -----

  /** What the focus and colour scheme reports mean, unless the colour parser claims them. */
  lemma FixedReportsFrame(p: Parsers, rest: Bytes)
    requires forall q :: p.color(q).None?
    ensures ExtractOneEvent(p, [0x1b, 0x5b, 0x49] + rest) == Some(Extracted(FocusGained, 3))
    ensures ExtractOneEvent(p, [0x1b, 0x5b, 0x4f] + rest) == Some(Extracted(FocusLost, 3))
    ensures ExtractOneEvent(p, [0x1b, 0x5b, 0x3f, 0x39, 0x39, 0x37, 0x3b, 0x31, 0x6e] + rest)
         == Some(Extracted(HostColorSchemeChanged(true), 9))
    ensures ExtractOneEvent(p, [0x1b, 0x5b, 0x3f, 0x39, 0x39, 0x37, 0x3b, 0x32, 0x6e] + rest)
         == Some(Extracted(HostColorSchemeChanged(false), 9))
  {
    ControlSequenceFrames(p, [0x1b, 0x5b, 0x49]);
    ControlSequenceFrames(p, [0x1b, 0x5b, 0x4f]);
    ControlSequenceFrames(p, [0x1b, 0x5b, 0x3f, 0x39, 0x39, 0x37, 0x3b, 0x31, 0x6e]);
    ControlSequenceFrames(p, [0x1b, 0x5b, 0x3f, 0x39, 0x39, 0x37, 0x3b, 0x32, 0x6e]);
  }

  /** Any other sequence is a colour, a mouse report, a key, or not supported, in this order. */
  lemma OtherSequencesMean(p: Parsers, q: Bytes)
    requires q != [0x1b, 0x5b, 0x49] && q != [0x1b, 0x5b, 0x4f]
    requires q != [0x1b, 0x5b, 0x3f, 0x39, 0x39, 0x37, 0x3b, 0x31, 0x6e]
    requires q != [0x1b, 0x5b, 0x3f, 0x39, 0x39, 0x37, 0x3b, 0x32, 0x6e]
    ensures match SequenceEvent(p, q)
      case HostDefaultColor(c) => p.color(q) == Some(c)
      case Mouse(m) => p.color(q).None? && ParseSgrMouse(q) == Some(m)
      case Key(k) => p.color(q).None? && ParseSgrMouse(q).None? && p.key(q) == Some(k)
      case Unsupported => p.color(q).None? && ParseSgrMouse(q).None? && p.key(q).None?
      case _ => false
  {}

  // ----- characters (section 3 of RFC 3629) -----

  /** A code point that is no surrogate. */
  predicate Scalar(cp: int) {
    0 <= cp <= 0x10ffff && !(0xd800 <= cp <= 0xdfff)
  }

  function EncodeScalar(cp: nat): Bytes
    requires Scalar(cp)
  {
    if cp < 0x80 then [cp]
    else if cp < 0x800 then [0xc0 + cp / 0x40, 0x80 + cp % 0x40]
    else if cp < 0x10000 then [0xe0 + cp / 0x1000, 0x80 + cp / 0x40 % 0x40, 0x80 + cp % 0x40]
    else [0xf0 + cp / 0x40000, 0x80 + cp / 0x1000 % 0x40, 0x80 + cp / 0x40 % 0x40, 0x80 + cp % 0x40]
  }

  predicate IsCharacter(c: Bytes) {
    c != [] && LeadLength(c[0]) == |c| && CharPrefix(c, |c|)
  }

  lemma EncodedIsCharacter(cp: nat)
    requires Scalar(cp)
    ensures IsCharacter(EncodeScalar(cp))
  {}

  function Bits(b: int, base: int): int {
    b - base
  }

  function DecodeCharacter(c: Bytes): int
    requires 1 <= |c| <= 4
  {
    if |c| == 1 then c[0]
    else if |c| == 2 then Bits(c[0], 0xc0) * 0x40 + Bits(c[1], 0x80)
    else if |c| == 3 then Bits(c[0], 0xe0) * 0x1000 + Bits(c[1], 0x80) * 0x40 + Bits(c[2], 0x80)
    else Bits(c[0], 0xf0) * 0x40000 + Bits(c[1], 0x80) * 0x1000 + Bits(c[2], 0x80) * 0x40 + Bits(c[3], 0x80)
  }

  lemma TwoDigits(a: nat, b: nat)
    requires b < 0x40
    ensures (a * 0x40 + b) / 0x40 == a && (a * 0x40 + b) % 0x40 == b
  {}

  lemma ThreeDigits(a: nat, b: nat, c: nat)
    requires b < 0x40 && c < 0x40
    ensures var cp := a * 0x1000 + b * 0x40 + c;
      cp / 0x1000 == a && cp / 0x40 % 0x40 == b && cp % 0x40 == c
  {
    TwoDigits(a * 0x40 + b, c);
    TwoDigits(a, b);
  }

  lemma FourDigits(a: nat, b: nat, c: nat, d: nat)
    requires b < 0x40 && c < 0x40 && d < 0x40
    ensures var cp := a * 0x40000 + b * 0x1000 + c * 0x40 + d;
      cp / 0x40000 == a && cp / 0x1000 % 0x40 == b && cp / 0x40 % 0x40 == c && cp % 0x40 == d
  {
    ThreeDigits(a * 0x40 + b, c, d);
    TwoDigits(a, b);
  }

  lemma CharacterIsEncoded(c: Bytes)
    requires IsCharacter(c)
    ensures |c| <= 4 && Scalar(DecodeCharacter(c)) && EncodeScalar(DecodeCharacter(c)) == c
  {
    if |c| == 2 {
      TwoByteCharacter(c);
    } else if |c| == 3 {
      ThreeByteCharacter(c);
    } else if |c| == 4 {
      FourByteCharacter(c);
    }
  }

  lemma TwoByteCharacter(c: Bytes)
    requires IsCharacter(c) && |c| == 2
    ensures Scalar(DecodeCharacter(c)) && EncodeScalar(DecodeCharacter(c)) == c
  {
    TwoDigits(Bits(c[0], 0xc0), Bits(c[1], 0x80));
  }

  lemma ThreeByteCharacter(c: Bytes)
    requires IsCharacter(c) && |c| == 3
    ensures Scalar(DecodeCharacter(c)) && EncodeScalar(DecodeCharacter(c)) == c
  {
    ThreeDigits(Bits(c[0], 0xe0), Bits(c[1], 0x80), Bits(c[2], 0x80));
  }

  lemma FourByteCharacter(c: Bytes)
    requires IsCharacter(c) && |c| == 4
    ensures Scalar(DecodeCharacter(c)) && EncodeScalar(DecodeCharacter(c)) == c
  {
    FourDigits(Bits(c[0], 0xf0), Bits(c[1], 0x80), Bits(c[2], 0x80), Bits(c[3], 0x80));
  }

  function EncodeAll(cps: seq<nat>): Bytes
    requires forall i :: 0 <= i < |cps| ==> Scalar(cps[i])
  {
    if cps == [] then [] else EncodeScalar(cps[0]) + EncodeAll(cps[1..])
  }

  lemma {:induction false} EncodedIsValid(cps: seq<nat>)
    requires forall i :: 0 <= i < |cps| ==> Scalar(cps[i])
    ensures ValidUtf8(EncodeAll(cps))
  {
    if cps != [] {
      EncodedIsValid(cps[1..]);
      EncodedIsCharacter(cps[0]);
      CharacterThenText(EncodeScalar(cps[0]), EncodeAll(cps[1..]));
    }
  }

  lemma CharacterThenText(c: Bytes, text: Bytes)
    requires IsCharacter(c)
    ensures ValidUtf8(c + text) == ValidUtf8(text)
  {
    var buf := c + text;
    assert buf[|c|..] == text && buf[0] == c[0] && (|c| >= 2 ==> buf[1] == c[1]);
    assert forall i :: 2 <= i < |c| ==> buf[i] == c[i];
  }

  lemma {:induction false} ValidIsEncoded(buf: Bytes) returns (cps: seq<nat>)
    requires ValidUtf8(buf)
    ensures forall i :: 0 <= i < |cps| ==> Scalar(cps[i])
    ensures EncodeAll(cps) == buf
    decreases |buf|
  {
    cps := [];
    if buf != [] {
      var n := LeadLength(buf[0]);
      var c := buf[..n];
      assert forall i :: 0 <= i < n ==> c[i] == buf[i];
      CharacterIsEncoded(c);
      var rest := ValidIsEncoded(buf[n..]);
      cps := [DecodeCharacter(c)] + rest;
      assert cps[1..] == rest && c + buf[n..] == buf;
    }
  }

  /** Text is valid exactly when it is the encoding of a sequence of code points, surrogates excluded:
      no overlong forms, nothing beyond the last code point. */
  lemma ValidExactlyWhenEncoded(buf: Bytes)
    ensures ValidUtf8(buf)
       <==> exists cps: seq<nat> :: (forall i :: 0 <= i < |cps| ==> Scalar(cps[i])) && EncodeAll(cps) == buf
  {
    if ValidUtf8(buf) {
      var cps := ValidIsEncoded(buf);
    }
    if cps: seq<nat> :| (forall i :: 0 <= i < |cps| ==> Scalar(cps[i])) && EncodeAll(cps) == buf {
      EncodedIsValid(cps);
    }
  }

  // ----- replies awaited -----

  /** How many colour replies are still awaited after these events: each reply counts one off, and a
      change of scheme, where it is tracked, asks for both again. */
  function AwaitedAfter(awaited: nat, tracking: bool, events: seq<Event>): nat
    decreases |events|
  {
    if events == [] then awaited
    else
      var next := match events[0]
        case HostDefaultColor(_) => if awaited == 0 then 0 else awaited - 1
        case HostColorSchemeChanged(_) => if tracking then 2 else awaited
        case _ => awaited;
      AwaitedAfter(next, tracking, events[1..])
  }

  /** Draining counts replies off by the events it recognises, and any event ends the hold of an
      escape. */
  lemma {:induction false} DrainCountsReplies(p: Parsers, f: Framer)
    requires Open(f)
    ensures var g, events := DrainSettled(p, f).framer, DrainedEvents(p, f);
      && g.hostColorRepliesAwaited == AwaitedAfter(f.hostColorRepliesAwaited, f.hostColorSchemeChangeTracking, events)
      && g.hostColorSchemeChangeTracking == f.hostColorSchemeChangeTracking
      && (events == [] ==> g.heldPendingColorEsc == f.heldPendingColorEsc)
      && (events != [] ==> !g.heldPendingColorEsc)
    decreases |f.buffer|
  {
    var e := ExtractOneEvent(p, f.buffer);
    if e.Some? {
      DrainCountsReplies(p, Consume(f, e.value));
      assert ([e.value.event] + DrainedEvents(p, Consume(f, e.value)))[1..] == DrainedEvents(p, Consume(f, e.value));
    }
  }

  // ----- plain characters, and escapes in front of mouse reports -----

  /** A character at the front is the key its bytes parse to; if they parse to none, it holds back
      everything behind it. */
  lemma CharacterFrames(p: Parsers, c: Bytes, rest: Bytes)
    requires IsCharacter(c) && c[0] != ESC
    ensures ExtractOneEvent(p, c + rest)
         == if p.key(c).Some? then Some(Extracted(Key(p.key(c).value), |c|)) else None
  {
    var buf := c + rest;
    assert buf[..|c|] == c && buf[0] == c[0];
    CharacterThenText(c, []);
    assert c + [] == c && FirstCompleteUtf8CharLen(buf) == Some(|c|);
  }

  /** An escape in front of a mouse report is an event of its own. */
  lemma EscapeBeforeReportFrames(p: Parsers, report: Bytes, rest: Bytes)
    requires CSI_MOUSE <= report && ParseSgrMouse(report).Some? && ValidUtf8(report)
    requires CompleteEscapeSequenceLen(report) == Some(|report|)
    ensures ExtractOneEvent(p, [ESC] + report + rest).Some?
    ensures ExtractOneEvent(p, [ESC] + report + rest).value.consumed == 1
  {
    var all := [ESC] + report;
    EscapeSplits(all, report);
    assert all[2] == report[1];
    FirstEscapeFrames(p, all);
    ExtractionExtends(p, all, all + rest);
  }

  lemma FirstEscapeFrames(p: Parsers, all: Bytes)
    requires |all| >= 3 && all[0] == all[1] == ESC && CompleteEscapeSequenceLen(all) == Some(1)
    ensures ExtractOneEvent(p, all).Some? && ExtractOneEvent(p, all).value.consumed == 1
  {
    assert all[..1] == [ESC];
    assert !(PASTE_START <= all) by {
      assert PASTE_START[1] != all[1];
    }
    PlainBytesAreUtf8([ESC]);
  }

  lemma EscapeSplits(all: Bytes, report: Bytes)
    requires all == [ESC] + report && CSI_MOUSE <= report && ParseSgrMouse(report).Some? && ValidUtf8(report)
    requires CompleteEscapeSequenceLen(report) == Some(|report|)
    ensures all[0] == all[1] == ESC && CompleteEscapeSequenceLen(all) == Some(1)
  {
    EscapedReportIs(all, report);
    assert all[0] == ESC && all[1] == report[0];
  }

  lemma EscapedReportIs(all: Bytes, report: Bytes)
    requires all == [ESC] + report && CSI_MOUSE <= report
    requires CompleteEscapeSequenceLen(report) == Some(|report|)
    ensures EscapedMouse(all) == Some(report)
  {
    assert all[1..] == report && all[0] == ESC && all[1] == report[0] && all[2] == report[1] && all[3] == report[2];
    ReportEndsAtFinal(report);
    assert all[1..1 + |report|] == report;
  }

  lemma ReportEndsAtFinal(report: Bytes)
    requires CSI_MOUSE <= report && CompleteEscapeSequenceLen(report) == Some(|report|)
    ensures FindCsiFinal(report, MOUSE_FINALS) == Some(|report|)
  {
    assert report[0] == ESC && report[1] == 0x5b && report[2] == 0x3c;
    assert EscapedMouse(report).None?;
  }
}

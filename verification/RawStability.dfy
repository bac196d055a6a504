/** Recognition looks no further than it must: what is recognised at the front of a buffer does
    not depend on the bytes that follow, and what was recognised is recognised again on its own. */
module RawStability {
  import opened Machine
  import opened RawRecogniser

  predicate AllEsc(buf: Bytes) {
    forall i :: 0 <= i < |buf| ==> buf[i] == ESC
  }

  // ----- searches on a buffer and on a prefix of it -----

  lemma MatchOnPrefix(a: Bytes, b: Bytes, i: nat, needle: Bytes)
    requires a <= b && i + |needle| <= |a|
    ensures MatchAt(a, i, needle) == MatchAt(b, i, needle)
  {
    assert a[i..i + |needle|] == b[i..i + |needle|];
  }

  lemma FindOnPrefix(a: Bytes, b: Bytes, needle: Bytes)
    requires a <= b && needle != []
    ensures Find(a, needle).Some? ==> Find(b, needle) == Find(a, needle)
    ensures Find(b, needle).Some? && Find(b, needle).value + |needle| <= |a| ==> Find(a, needle) == Find(b, needle)
  {
    if Find(a, needle).Some? {
      FindAgrees(a, b, Find(a, needle).value, needle);
      FoundFirst(b, Find(a, needle).value, needle);
    }
    if Find(b, needle).Some? && Find(b, needle).value + |needle| <= |a| {
      FindAgrees(a, b, Find(b, needle).value, needle);
      FoundFirst(a, Find(b, needle).value, needle);
    }
  }

  lemma FindAgrees(a: Bytes, b: Bytes, i: nat, needle: Bytes)
    requires a <= b && i + |needle| <= |a|
    ensures forall j :: j <= i ==> MatchAt(a, j, needle) == MatchAt(b, j, needle)
  {
    forall j | 0 <= j <= i ensures MatchAt(a, j, needle) == MatchAt(b, j, needle) {
      MatchOnPrefix(a, b, j, needle);
    }
  }

  lemma FoundFirst(buf: Bytes, i: nat, needle: Bytes)
    requires needle != [] && MatchAt(buf, i, needle) && forall j :: j < i ==> !MatchAt(buf, j, needle)
    ensures Find(buf, needle) == Some(i)
  {}

  lemma FindAnyOnPrefix(a: Bytes, b: Bytes, s: set<Byte>)
    requires a <= b
    ensures FindAny(a, s).Some? ==> FindAny(b, s) == FindAny(a, s)
    ensures FindAny(b, s).Some? && FindAny(b, s).value < |a| ==> FindAny(a, s) == FindAny(b, s)
  {
    assert forall j :: 0 <= j < |a| ==> a[j] == b[j];
  }

  lemma TerminatorOnPrefix(a: Bytes, b: Bytes, family: Family)
    requires a <= b
    ensures Terminator(a, family).Some? ==> Terminator(a, family).value <= |a| && Terminator(b, family) == Terminator(a, family)
    ensures Terminator(b, family).Some? && Terminator(b, family).value <= |a| ==> Terminator(a, family) == Terminator(b, family)
  {
    FindOnPrefix(a, b, ST);
    FindAnyOnPrefix(a, b, {0x07});
    FindAnyOnPrefix(a, b, {0x6e});
    FindAnyOnPrefix(a, b, MOUSE_FINALS);
  }

  lemma CsiFinalOnPrefix(a: Bytes, b: Bytes, finals: set<Byte>)
    requires a <= b
    ensures FindCsiFinal(a, finals).Some? ==> 3 <= FindCsiFinal(a, finals).value <= |a|
    ensures FindCsiFinal(a, finals).Some? ==> FindCsiFinal(b, finals) == FindCsiFinal(a, finals)
    ensures FindCsiFinal(b, finals).Some? && FindCsiFinal(b, finals).value <= |a|
        ==> FindCsiFinal(a, finals) == FindCsiFinal(b, finals)
  {
    if |a| >= 2 {
      FindAnyOnPrefix(a[2..], b[2..], finals);
    }
  }

  lemma Utf8CharOnPrefix(a: Bytes, b: Bytes)
    requires a <= b
    ensures FirstCompleteUtf8CharLen(a).Some? ==> FirstCompleteUtf8CharLen(b) == FirstCompleteUtf8CharLen(a)
    ensures FirstCompleteUtf8CharLen(b).Some? && FirstCompleteUtf8CharLen(b).value <= |a|
        ==> FirstCompleteUtf8CharLen(a) == FirstCompleteUtf8CharLen(b)
  {
    if a != [] && Utf8CharWidth(a[0]).Some? && Utf8CharWidth(a[0]).value <= |a| {
      assert a[..Utf8CharWidth(a[0]).value] == b[..Utf8CharWidth(a[0]).value];
    }
  }

  lemma EscapedMouseOnPrefix(a: Bytes, b: Bytes)
    requires a <= b && a != []
    ensures EscapedMouse(a).Some? ==> EscapedMouse(b) == EscapedMouse(a) && 1 + |EscapedMouse(a).value| <= |a|
    ensures EscapedMouse(b).Some? && 1 + |EscapedMouse(b).value| <= |a| ==> EscapedMouse(a) == EscapedMouse(b)
  {
    if |a| >= 4 {
      assert a[1..] <= b[1..];
      CsiFinalOnPrefix(a[1..], b[1..], MOUSE_FINALS);
      assert [ESC] + CSI_MOUSE <= a <==> [ESC] + CSI_MOUSE <= b;
      if EscapedMouse(b).Some? {
        var n := |EscapedMouse(b).value|;
        if 1 + n <= |a| {
          assert a[1..1 + n] == b[1..1 + n];
        }
      }
    } else if EscapedMouse(b).Some? {
      CsiFinalOnPrefix(b[1..], b[1..], MOUSE_FINALS);
      assert b[3] == 0x3c && |EscapedMouse(b).value| >= 3;
    }
  }

  lemma {:induction false} PlainBytesAreUtf8(buf: Bytes)
    requires forall i :: 0 <= i < |buf| ==> buf[i] < 0x80
    ensures ValidUtf8(buf)
  {
    if buf != [] {
      PlainBytesAreUtf8(buf[1..]);
    }
  }

  // ----- escape sequences -----

  /** An escape sequence found complete in a prefix is the same in the whole buffer. */
  lemma {:induction false} SequenceExtends(a: Bytes, b: Bytes)
    requires a != [] && a <= b && CompleteEscapeSequenceLen(a).Some?
    ensures CompleteEscapeSequenceLen(b) == CompleteEscapeSequenceLen(a)
    decreases |a|
  {
    EscapedMouseOnPrefix(a, b);
    if EscapedMouse(a).Some? && ParseSgrMouse(EscapedMouse(a).value).Some? {
    } else if a[0] == ESC && a[1] == ESC {
      SequenceExtends(a[1..], b[1..]);
      if EscapedMouse(a).None? && EscapedMouse(b).Some? {
        NoMouseYet(a, b);
      }
    } else if a[0] == ESC && a[1] == 0x5b {
      CsiFinalOnPrefix(a, b, MOUSE_FINALS);
      CsiFinalOnPrefix(a, b, CSI_FINALS);
      assert a[2] == b[2];
    } else if ControlFamily(a).Some? {
      TerminatorOnPrefix(a, b, ControlFamily(a).value);
    } else {
      Utf8CharOnPrefix(a[1..], b[1..]);
    }
  }

  /** Before its final byte arrives, the report after a doubled escape is no sequence. */
  lemma NoMouseYet(a: Bytes, b: Bytes)
    requires a != [] && a <= b && EscapedMouse(a).None? && EscapedMouse(b).Some?
    ensures CompleteEscapeSequenceLen(a).None?
  {
    if |a| >= 2 {
      assert a[1..] <= b[1..];
      CsiFinalOnPrefix(a[1..], b[1..], MOUSE_FINALS);
      assert forall i :: 0 <= i < |a| ==> a[i] == b[i];
      assert EscapedMouse(a[1..]).None?;
      if |a| == 3 {
        assert a[1..] == [ESC, 0x5b] && a[1..][2..] == [];
      }
    }
  }

  lemma CsiStandsAlone(b: Bytes, n: nat)
    requires |b| >= 2 && FindCsiFinal(b, if CSI_MOUSE <= b then MOUSE_FINALS else CSI_FINALS) == Some(n)
    ensures 3 <= n <= |b|
    ensures FindCsiFinal(b[..n], if CSI_MOUSE <= b[..n] then MOUSE_FINALS else CSI_FINALS) == Some(n)
  {
    var finals := if CSI_MOUSE <= b then MOUSE_FINALS else CSI_FINALS;
    CsiFinalOnPrefix(b, b, finals);
    CsiFinalOnPrefix(b[..n], b, finals);
    assert CSI_MOUSE <= b[..n] <==> CSI_MOUSE <= b;
  }

  /** A sequence that is not a run of escapes before a mouse report is complete on its own. */
  lemma {:induction false} SequenceStandsAlone(b: Bytes, n: nat)
    requires b != [] && CompleteEscapeSequenceLen(b) == Some(n) && !AllEsc(b[..n])
    ensures CompleteEscapeSequenceLen(b[..n]) == Some(n)
    decreases |b|
  {
    var a := b[..n];
    assert a <= b;
    EscapedMouseOnPrefix(a, b);
    if EscapedMouse(b).Some? && ParseSgrMouse(EscapedMouse(b).value).Some? {
    } else if b[0] == ESC && b[1] == ESC {
      assert a[1..] == b[1..][..n - 1];
      assert !AllEsc(a[1..]);
      SequenceStandsAlone(b[1..], n - 1);
      if EscapedMouse(a).None? && EscapedMouse(b).Some? {
        EscapedMouseIsWhole(b, n);
      }
    } else if b[0] == ESC && b[1] == 0x5b {
      CsiStandsAlone(b, n);
    } else if ControlFamily(b).Some? {
      TerminatorOnPrefix(a, b, ControlFamily(b).value);
      ControlStringLongerThanIntroducer(b);
    } else if !(b[0] == ESC && b[1] == 0x4f) {
      assert a[1..] <= b[1..];
      Utf8CharOnPrefix(a[1..], b[1..]);
    }
  }

  lemma ControlStringLongerThanIntroducer(buf: Bytes)
    requires ControlFamily(buf).Some? && Terminator(buf, ControlFamily(buf).value).Some?
    ensures Terminator(buf, ControlFamily(buf).value).value >= 2
  {}

  lemma EscapedMouseIsWhole(b: Bytes, n: nat)
    requires EscapedMouse(b).Some? && |b| >= 2
    requires CompleteEscapeSequenceLen(b[1..]) == Some(n - 1)
    ensures 1 + |EscapedMouse(b).value| == n
  {
    assert b[0] == ESC && b[1] == ESC && b[2] == 0x5b && b[3] == 0x3c;
    assert CSI_MOUSE <= b[1..];
    assert EscapedMouse(b[1..]).None?;
  }

  // ----- events -----

  lemma PasteStartIsNoSequence(a: Bytes)
    requires a != [] && a < PASTE_START
    ensures CompleteEscapeSequenceLen(a).None?
  {
    if |a| >= 2 {
      assert a[1] == 0x5b;
      assert forall i :: 2 <= i < |a| ==> a[i] !in CSI_FINALS;
      assert forall i :: 0 <= i < |a[2..]| ==> a[2..][i] == a[i + 2];
      assert EscapedMouse(a).None?;
    }
  }

  /** Once an event is recognised, more input does not change it. */
  lemma ExtractionExtends(p: Parsers, a: Bytes, b: Bytes)
    requires a <= b && ExtractOneEvent(p, a).Some?
    ensures ExtractOneEvent(p, b) == ExtractOneEvent(p, a)
  {
    var n := ExtractOneEvent(p, a).value.consumed;
    if PASTE_START <= a {
      FindOnPrefix(a, b, PASTE_END);
      PasteEndAfterStart(a);
      var end := Find(a, PASTE_END).value;
      assert a[6..end] == b[6..end];
    } else if a[0] == ESC {
      if PASTE_START <= b {
        PasteStartIsNoSequence(a);
      }
      SequenceExtends(a, b);
      assert a[..n] == b[..n];
    } else {
      Utf8CharOnPrefix(a, b);
      assert a[..n] == b[..n];
    }
  }

  lemma PasteStandsAlone(b: Bytes, n: nat)
    requires PASTE_START <= b && ExtractPaste(b).Some? && ExtractPaste(b).value.consumed == n
    ensures PASTE_START <= b[..n] && ExtractPaste(b[..n]) == ExtractPaste(b)
  {
    var a := b[..n];
    PasteEndAfterStart(b);
    FindOnPrefix(a, b, PASTE_END);
    assert a[6..n - 6] == b[6..n - 6];
  }

  /** What was recognised is recognised again on its own, with its whole length, unless it is a
      run of escapes split off in front of a mouse report. */
  lemma ExtractionStandsAlone(p: Parsers, b: Bytes, n: nat)
    requires ExtractOneEvent(p, b).Some? && ExtractOneEvent(p, b).value.consumed == n
    requires !AllEsc(b[..n])
    ensures ExtractOneEvent(p, b[..n]) == ExtractOneEvent(p, b)
  {
    var a := b[..n];
    if PASTE_START <= b {
      PasteStandsAlone(b, n);
    } else if b[0] == ESC {
      SequenceStandsAlone(b, n);
      assert a[..n] == a;
    } else {
      Utf8CharOnPrefix(a, b);
      assert a[..n] == a;
    }
  }
}

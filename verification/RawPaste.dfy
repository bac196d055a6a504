/** The bracketed paste built for a pane (`paste_payload`) and what the framer makes of it. */
module RawPaste {
  import opened Machine
  import opened RawRecogniser
  import opened RawStability
  import opened RawFramer
  import opened RawTheorems
  import opened RawRuns
  import opened RawMeaning

  function PastePayload(text: Bytes, bracketed: bool): Bytes {
    if bracketed then PASTE_START + text + PASTE_END else text
  }

  /** The end marker cannot start before the text's own bytes and run into the real marker. */
  lemma MarkerDoesNotOverlapItself(text: Bytes, rest: Bytes, i: nat)
    requires i < 6 + |text|
    ensures var buf := PastePayload(text, true) + rest;
      MatchAt(buf, i, PASTE_END) <==> 6 <= i && MatchAt(text, i - 6, PASTE_END)
  {
    var buf := PastePayload(text, true) + rest;
    if i < 6 {
      NoPasteEndInStart(buf, i);
    } else if i + 6 <= 6 + |text| {
      assert buf[i..i + 6] == text[i - 6..i];
    } else {
      var k := 6 + |text| - i;
      assert buf[i..i + 6][k] == buf[6 + |text|] == ESC;
      assert PASTE_END[k] != ESC;
    }
  }

  lemma MarkerAtEnd(text: Bytes, rest: Bytes)
    ensures MatchAt(PastePayload(text, true) + rest, 6 + |text|, PASTE_END)
  {
    PartsInPlace(PASTE_START, text, PASTE_END, rest);
  }

  lemma NoEarlierMarker(text: Bytes, rest: Bytes)
    requires Find(text, PASTE_END).None?
    ensures forall i :: i < 6 + |text| ==> !MatchAt(PastePayload(text, true) + rest, i, PASTE_END)
  {
    forall i: int | 0 <= i < 6 + |text| ensures !MatchAt(PastePayload(text, true) + rest, i, PASTE_END) {
      MarkerDoesNotOverlapItself(text, rest, i);
    }
  }

  lemma PayloadEndsAtMarker(text: Bytes, rest: Bytes)
    ensures var end := Find(PastePayload(text, true) + rest, PASTE_END);
      end.Some? && (end.value == 6 + |text| <==> Find(text, PASTE_END).None?)
  {
    MarkerAtEnd(text, rest);
    if Find(text, PASTE_END).None? {
      NoEarlierMarker(text, rest);
      FoundFirst(PastePayload(text, true) + rest, 6 + |text|, PASTE_END);
    } else {
      MarkerDoesNotOverlapItself(text, rest, Find(text, PASTE_END).value + 6);
    }
  }

  lemma PartsInPlace(a: Bytes, b: Bytes, c: Bytes, d: Bytes)
    ensures a <= a + b + c + d && (a + b + c + d)[|a|..|a| + |b|] == b
    ensures (a + b + c + d)[|a| + |b|..|a| + |b| + |c|] == c
  {}

  /** Whatever follows it, the payload frames as one paste of exactly the text and nothing more,
      if and only if the text does not contain the end marker. */
  lemma PasteFramesExactly(p: Parsers, text: Bytes, rest: Bytes)
    requires ValidUtf8(text)
    ensures var payload := PastePayload(text, true);
      ExtractOneEvent(p, payload + rest) == Some(Extracted(Paste(text), |payload|))
      <==> Find(text, PASTE_END).None?
  {
    var buf := PastePayload(text, true) + rest;
    PartsInPlace(PASTE_START, text, PASTE_END, rest);
    PayloadEndsAtMarker(text, rest);
    if Find(text, PASTE_END).None? {
      PasteOfText(buf, text);
    } else if ExtractPaste(buf).Some? {
      PasteConsumes(buf);
    }
    assert ExtractOneEvent(p, buf) == ExtractPaste(buf);
  }

  lemma PasteConsumes(buf: Bytes)
    requires PASTE_START <= buf && ExtractPaste(buf).Some?
    ensures Find(buf, PASTE_END) == Some(ExtractPaste(buf).value.consumed - 6)
  {}

  lemma PasteOfText(buf: Bytes, text: Bytes)
    requires PASTE_START <= buf && ValidUtf8(text)
    requires 6 + |text| <= |buf| && buf[6..6 + |text|] == text && Find(buf, PASTE_END) == Some(6 + |text|)
    ensures ExtractPaste(buf) == Some(Extracted(Paste(text), |text| + 12))
  {}

  // ----- pastes that arrive slowly -----

  lemma StartedPasteWaits(p: Parsers, text: Bytes, k: nat)
    requires Find(text, PASTE_END).None? && 6 <= k < |PastePayload(text, true)|
    ensures PendingPaste(PastePayload(text, true)[..k])
    ensures ExtractOneEvent(p, PastePayload(text, true)[..k]).None?
  {
    var payload := PastePayload(text, true);
    var a := payload[..k];
    assert payload + [] == payload;
    PayloadEndsAtMarker(text, []);
    assert PASTE_START <= a;
    FindOnPrefix(a, payload, PASTE_END);
  }

  /** Neither discarding nor just after a flushed escape. */
  predicate Open(f: Framer) {
    f.discardUntil.None? && !f.loneEscapeRecentlyFlushed
  }

  lemma WaitingStep(p: Parsers, f: Framer, text: Bytes, input: Input)
    requires Open(f) && Find(text, PASTE_END).None? && ValidUtf8(text)
    requires (f.buffer == [] && (input.Read? ==> input.data == [] || 6 <= |input.data|)) || 6 <= |f.buffer|
    requires f.buffer + DataOf(input) <= PastePayload(text, true)
    requires f.buffer != PastePayload(text, true)
    ensures var o := Step(p, f, input);
      var arrived := f.buffer + DataOf(input);
      && Open(o.framer)
      && (if arrived == PastePayload(text, true)
          then o.chunks == [arrived] && o.framer.buffer == []
          else o.chunks == [] && o.framer.buffer == arrived)
  {
    var payload := PastePayload(text, true);
    var arrived := f.buffer + DataOf(input);
    match input {
      case Read(data) =>
        var g := f.(buffer := arrived);
        if arrived == payload {
          assert payload + [] == payload;
          PasteFramesExactly(p, text, []);
          DrainWhole(p, g, Extracted(Paste(text), |payload|));
        } else if arrived != [] {
          assert arrived == payload[..|arrived|];
          StartedPasteWaits(p, text, |arrived|);
        }
      case Timeout =>
        assert arrived == f.buffer;
        if f.buffer == [] {
          TimeoutOnNothing(p, f);
        } else {
          assert f.buffer == payload[..|f.buffer|];
          StartedPasteWaits(p, text, |f.buffer|);
          PendingPasteIgnoresTimeout(p, f);
        }
      case _ =>
        assert arrived == f.buffer;
    }
  }

  lemma PendingPasteIgnoresTimeout(p: Parsers, f: Framer)
    requires Open(f) && PendingPaste(f.buffer) && ExtractOneEvent(p, f.buffer).None?
    ensures FlushTimeout(p, f) == Output([], f)
  {
    assert DrainAvailableChunks(p, f) == Output([], f);
    assert f.buffer[2] == 0x32 && !StartsWithIncompleteSgrMouseSequence(f.buffer);
  }

  lemma {:induction false} NothingMoreComes(p: Parsers, f: Framer, inputs: seq<Input>)
    requires Open(f) && f.buffer == [] && BytesRead(inputs) == []
    ensures Play(p, f, inputs).chunks == []
    decreases inputs
  {
    if inputs != [] {
      var next := Step(p, f, inputs[0]);
      assert DataOf(inputs[0]) == [] && BytesRead(inputs[1..]) == [] by {
        assert |BytesRead(inputs)| == |DataOf(inputs[0])| + |BytesRead(inputs[1..])|;
      }
      assert next.chunks == [] && Open(next.framer) && next.framer.buffer == [] by {
        if inputs[0].Timeout? {
          TimeoutOnNothing(p, f);
        } else if inputs[0].Read? {
          assert f.buffer + inputs[0].data == [];
          assert DrainSettled(p, f) == Output([], f);
        }
      }
      NothingMoreComes(p, next.framer, inputs[1..]);
    }
  }

  /** Once its start marker is in, a paste arrives as one chunk however slowly the rest comes:
      quiet periods and colour queries in between change nothing. */
  lemma {:induction false} SlowPasteArrivesWhole(p: Parsers, f: Framer, text: Bytes, inputs: seq<Input>)
    requires Open(f) && Find(text, PASTE_END).None? && ValidUtf8(text)
    requires f.buffer + BytesRead(inputs) == PastePayload(text, true) && f.buffer != PastePayload(text, true)
    requires 6 <= |f.buffer| || (f.buffer == [] && inputs != [] && inputs[0].Read? && 6 <= |inputs[0].data|)
    ensures Play(p, f, inputs).chunks == [PastePayload(text, true)]
    decreases inputs
  {
    assert f.buffer + [] == f.buffer;
    assert inputs != [];
    var payload := PastePayload(text, true);
    var first := Step(p, f, inputs[0]);
    ReadingOn(f.buffer, inputs);
    var arrived, later := f.buffer + DataOf(inputs[0]), BytesRead(inputs[1..]);
    assert arrived + later == payload && arrived <= payload;
    WaitingStep(p, f, text, inputs[0]);
    if arrived == payload {
      assert later == [] by {
        assert |payload| == |arrived| + |later|;
      }
      NothingMoreComes(p, first.framer, inputs[1..]);
    } else {
      SlowPasteArrivesWhole(p, first.framer, text, inputs[1..]);
    }
  }
}

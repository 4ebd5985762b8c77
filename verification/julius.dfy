/**
 * The Julius sample script `julius.py`: the transcript is split into
 * sentences, the phonetic transcripts are framed by silence markers for the
 * segmenter, and the segmenter's units are paired back with the sentences:
 * a `silB` unit opens a sentence at its end time, a `silE` unit closes the
 * next sentence at its begin time.
 *
 * Files are given as their text or their lines, the segmenter as the result it
 * returns; times are only copied, so they are a type parameter.
 */
module Julius {
  import opened PyStr
  import opened Wrappers

  /** The exceptions the script can stop with. */
  datatype JuliusError =
    | CountMismatch(sentences: nat, transcripts: nat) // AssertionError at line 23
    | SegmentCount(results: nat)                      // AssertionError at line 50
    | IndexError                                      // `sentences[sentences_idx]` past the end, line 60
    | NameError(name: string)                         // `sentence_start` never assigned, line 60

  /** Every piece stripped. */
  function StripAll(pieces: seq<string>): (r: seq<string>)
    ensures |r| == |pieces| && forall i :: 0 <= i < |pieces| ==> r[i] == Strip(pieces[i])
  {
    seq(|pieces|, i requires 0 <= i < |pieces| => Strip(pieces[i]))
  }

  /** Pieces already stripped come through unchanged. */
  lemma StripAllStripped(pieces: seq<string>)
    requires forall i :: 0 <= i < |pieces| ==> Stripped(pieces[i])
    ensures StripAll(pieces) == pieces
  {
    forall i | 0 <= i < |pieces|
      ensures Strip(pieces[i]) == pieces[i]
    {
      StripStripped(pieces[i]);
    }
  }

  /** The text line 17 splits: trailing whitespace, then trailing full stops, removed. */
  function Body(text: string): (body: string)
    ensures body == [] || body[|body| - 1] != Terminator
  {
    RStripChars(RStrip(text), {Terminator})
  }

  /** Line 17: `[s.strip() for s in text.rstrip().rstrip("。").split("。")]`. */
  function SplitSentences(text: string): (sentences: seq<string>)
    ensures |sentences| >= 1
    ensures forall i :: 0 <= i < |sentences| ==> Stripped(sentences[i])
  {
    StripAll(Split(Body(text), Terminator))
  }

  /**
   * One sentence per full stop left inside the body, plus one: the pieces
   * join back to the body, so interior empty ones are kept. The body is the
   * text minus a tail of whitespace and full stops, so the last piece before
   * stripping is never empty unless the whole body is.
   */
  lemma SplitSentencesCount(text: string)
    ensures var pieces := Split(Body(text), Terminator);
      && |SplitSentences(text)| == Count(Body(text), Terminator) + 1
      && Join(pieces, Terminator) == Body(text)
      && (Body(text) != [] ==> pieces[|pieces| - 1] != [])
  {
    var body := Body(text);
    SplitCount(body, Terminator);
    SplitJoinBack(body, Terminator);
    if body != [] {
      LastPieceNonEmpty(body, Terminator);
    }
  }

  /** Every sentence is stripped and free of full stops. */
  lemma SplitSentencesClean(text: string)
    ensures var sentences := SplitSentences(text);
      forall i :: 0 <= i < |sentences| ==> Stripped(sentences[i]) && Terminator !in sentences[i]
  {
    var pieces := Split(Body(text), Terminator);
    SplitPiecesFree(Body(text), Terminator);
    forall i | 0 <= i < |pieces|
      ensures Terminator !in Strip(pieces[i])
    {
      StripKeepsOut(pieces[i], Terminator);
    }
  }

  /** A string that does not end in the separator does not end in an empty piece. */
  lemma LastPieceNonEmpty(s: string, sep: char)
    requires s != [] && s[|s| - 1] != sep
    ensures Split(s, sep)[|Split(s, sep)| - 1] != []
  {
  }

  lemma ExampleDoubledStopBody(text: string)
    requires text == ['a', Terminator, Terminator, 'b', Terminator]
    ensures Body(text) == text[..4]
  {
    assert RStrip(text) == text;
    assert text[..4] + [Terminator] == text;
    RStripCharsTail(text[..4], [Terminator], {Terminator});
  }

  lemma ExampleDoubledStopSplit(body: string)
    requires body == ['a', Terminator, Terminator, 'b']
    ensures Split(body, Terminator) == ["a", "", "b"]
  {
    SplitNoSeparator(body[..1], Terminator);
    assert body[..1] + [Terminator] + [] == body[..2];
    SplitSuffix(body[..1], Terminator, []);
    assert body[..2] + [Terminator] + body[3..] == body;
    SplitSuffix(body[..2], Terminator, body[3..]);
    assert [body[..1]] + [[]] + [body[3..]] == ["a", "", "b"];
  }

  /** A doubled full stop keeps an empty sentence between its halves; the closing one leaves none. */
  lemma ExampleDoubledStop(text: string)
    requires text == ['a', Terminator, Terminator, 'b', Terminator]
    ensures SplitSentences(text) == ["a", "", "b"]
  {
    ExampleDoubledStopBody(text);
    ExampleDoubledStopSplit(text[..4]);
    StripAllStripped(["a", "", "b"]);
  }

  /**
   * Whitespace between two closing full stops is stripped only after the split,
   * so it leaves an empty last sentence.
   */
  lemma ExampleSpacedStops(text: string)
    requires text == ['a', Terminator, ' ', Terminator]
    ensures SplitSentences(text) == ["a", ""]
  {
    var body := text[..3];
    var pieces := [text[..1], text[2..3]];
    assert Body(text) == body by {
      assert RStrip(text) == text;
      assert body + [Terminator] == text;
      RStripCharsTail(body, [Terminator], {Terminator});
    }
    assert Split(body, Terminator) == pieces by {
      assert Join(pieces, Terminator) == body;
      SplitJoin(pieces, Terminator);
    }
    assert StripAll(pieces) == [pieces[0], []] by {
      StripStripped(pieces[0]);
      StripEmpty(pieces[1]);
    }
    assert pieces[0] == "a";
  }

  /** Line 21: every line of the phonetic transcript file, trailing whitespace removed. */
  function Transcripts(lines: seq<string>): (r: seq<string>)
    ensures |r| == |lines| && forall i :: 0 <= i < |lines| ==> r[i] == RStrip(lines[i])
  {
    seq(|lines|, i requires 0 <= i < |lines| => RStrip(lines[i]))
  }

  /** The line written for one transcript, without its newline. */
  function Framed(transcript: string): string
  {
    "silB " + transcript + " silE "
  }

  function FramedAll(transcripts: seq<string>): (r: seq<string>)
    ensures |r| == |transcripts| && forall i :: 0 <= i < |transcripts| ==> r[i] == Framed(transcripts[i])
  {
    seq(|transcripts|, i requires 0 <= i < |transcripts| => Framed(transcripts[i]))
  }

  /** Lines written one after the other, each followed by the line end. */
  function Terminated(lines: seq<string>, eol: char): string
  {
    if |lines| == 0 then []
    else Terminated(lines[..|lines| - 1], eol) + lines[|lines| - 1] + [eol]
  }

  /** A last empty piece puts one more separator after the others. */
  lemma JoinEmptyLast(pieces: seq<string>, sep: char)
    requires |pieces| >= 1
    ensures Join(pieces + [[]], sep) == Join(pieces, sep) + [sep]
  {
    assert (pieces + [[]])[..|pieces|] == pieces;
  }

  /** Terminated lines are the lines joined, with one empty piece after the last line end. */
  lemma {:induction false} JoinTerminated(lines: seq<string>, eol: char)
    ensures Join(lines + [[]], eol) == Terminated(lines, eol)
  {
    var n := |lines|;
    if n > 0 {
      var init := lines[..n - 1];
      JoinEmptyLast(lines, eol);
      JoinTerminated(init, eol);
      if n > 1 {
        JoinEmptyLast(init, eol);
      }
    }
  }

  /** The content of `tmp.txt` (lines 30-32): one framed line per transcript, in order. */
  function SegmenterInput(transcripts: seq<string>): string
  {
    Terminated(FramedAll(transcripts), '\n')
  }

  /** The loop of lines 31-32, writing the file one line at a time. */
  method WriteSegmenterInput(transcripts: seq<string>) returns (content: string)
    ensures content == SegmenterInput(transcripts)
  {
    content := [];
    var i := 0;
    while i < |transcripts|
      invariant 0 <= i <= |transcripts|
      invariant content == SegmenterInput(transcripts[..i])
    {
      var lines := FramedAll(transcripts[..i + 1]);
      assert lines[..i] == FramedAll(transcripts[..i]);
      assert lines[i] == "silB " + transcripts[i] + " silE ";
      content := content + ("silB " + transcripts[i] + " silE \n");
      i := i + 1;
    }
    assert transcripts[..i] == transcripts;
  }

  /**
   * Read back line by line, the file holds exactly one line per transcript,
   * in order, each framed by the silence markers, when no transcript holds a
   * newline (a stripped line of a file never does).
   */
  lemma SegmenterInputLines(transcripts: seq<string>)
    requires forall i :: 0 <= i < |transcripts| ==> '\n' !in transcripts[i]
    ensures Split(SegmenterInput(transcripts), '\n') == FramedAll(transcripts) + [[]]
  {
    JoinTerminated(FramedAll(transcripts), '\n');
    var pieces := FramedAll(transcripts) + [[]];
    forall i | 0 <= i < |pieces|
      ensures '\n' !in pieces[i]
    {
      if i < |transcripts| {
        assert pieces[i] == "silB " + transcripts[i] + " silE ";
      }
    }
    SplitJoin(pieces, '\n');
  }

  /** One unit of the segmentation: begin time, end time, unit name. */
  datatype Unit<T> = Unit(begin: T, end: T, name: string)

  /** One entry of `sentences_timing`. */
  datatype Timing<T> = Timing(sentence: string, start: T, end: T)

  /**
   * The variables of the loop of lines 53-61; an unassigned
   * `sentence_start` or `sentence_end` is `None`.
   */
  datatype Pairing<T> = Pairing(idx: nat, start: Option<T>, end: Option<T>, timings: seq<Timing<T>>)

  /** What one unit does to the variables (lines 56-61). */
  function Step<T>(sentences: seq<string>, st: Pairing<T>, u: Unit<T>): (r: Result<Pairing<T>, JuliusError>)
    ensures u.name != "silE" ==> r.Ok? && r.value.idx == st.idx && r.value.timings == st.timings && r.value.end == st.end
    ensures u.name == "silB" ==> r.value.start == Some(u.end)
    ensures u.name != "silB" && u.name != "silE" ==> r == Ok(st)
    ensures r.Err? ==> u.name == "silE" && (r.error == IndexError <==> st.idx >= |sentences|)
    ensures r.Err? && r.error != IndexError ==> r.error == NameError("sentence_start") && st.start.None?
    ensures u.name == "silE" && r.Ok? ==>
      && st.idx < |sentences| && st.start.Some?
      && r.value == Pairing(st.idx + 1, st.start, Some(u.begin),
                            st.timings + [Timing(sentences[st.idx], st.start.value, u.begin)])
  {
    if u.name == "silB" then Ok(st.(start := Some(u.end)))
    else if u.name == "silE" then
      if st.idx >= |sentences| then Err(IndexError)
      else if st.start.None? then Err(NameError("sentence_start"))
      else Ok(Pairing(st.idx + 1, st.start, Some(u.begin), st.timings + [Timing(sentences[st.idx], st.start.value, u.begin)]))
    else Ok(st)
  }

  /** The variables after the given units, or the exception of the first unit that raised. */
  function Run<T>(sentences: seq<string>, units: seq<Unit<T>>): Result<Pairing<T>, JuliusError>
  {
    if |units| == 0 then Ok(Pairing(0, None, None, []))
    else Continue(sentences, Run(sentences, units[..|units| - 1]), units[|units| - 1])
  }

  /** The next unit is looked at only while nothing has raised. */
  function Continue<T>(sentences: seq<string>, prev: Result<Pairing<T>, JuliusError>, u: Unit<T>): Result<Pairing<T>, JuliusError>
  {
    if prev.Err? then prev else Step(sentences, prev.value, u)
  }

  lemma RunSnoc<T>(sentences: seq<string>, units: seq<Unit<T>>, i: nat)
    requires i < |units|
    ensures Run(sentences, units[..i + 1]) == Continue(sentences, Run(sentences, units[..i]), units[i])
  {
    assert units[..i + 1][..i] == units[..i];
  }

  lemma {:induction false} RunStops<T>(sentences: seq<string>, units: seq<Unit<T>>, i: nat)
    requires i <= |units| && Run(sentences, units[..i]).Err?
    ensures Run(sentences, units) == Run(sentences, units[..i])
    decreases |units| - i
  {
    if i < |units| {
      RunSnoc(sentences, units, i);
      RunStops(sentences, units, i + 1);
    } else {
      assert units[..i] == units;
    }
  }

  /** The timings recorded by the loop, or the exception it stopped with. */
  function Timings<T>(sentences: seq<string>, units: seq<Unit<T>>): Result<seq<Timing<T>>, JuliusError>
  {
    if Run(sentences, units).Ok? then Ok(Run(sentences, units).value.timings) else Err(Run(sentences, units).error)
  }

  /** The loop of lines 53-61 over the units of the one segmented file. */
  method PairSentenceTimings<T>(sentences: seq<string>, units: seq<Unit<T>>) returns (r: Result<seq<Timing<T>>, JuliusError>)
    ensures r == Timings(sentences, units)
  {
    var sentencesIdx := 0;
    var sentenceStart: Option<T> := None;
    var sentenceEnd: Option<T> := None;
    var sentencesTiming: seq<Timing<T>> := [];
    var i := 0;
    while i < |units|
      invariant 0 <= i <= |units|
      invariant Run(sentences, units[..i]) == Ok(Pairing(sentencesIdx, sentenceStart, sentenceEnd, sentencesTiming))
    {
      var unit := units[i];
      RunSnoc(sentences, units, i);
      if unit.name == "silB" {
        sentenceStart := Some(unit.end);
      } else if unit.name == "silE" {
        sentenceEnd := Some(unit.begin);
        if sentencesIdx >= |sentences| {
          RunStops(sentences, units, i + 1);
          return Err(IndexError);
        }
        if sentenceStart.None? {
          RunStops(sentences, units, i + 1);
          return Err(NameError("sentence_start"));
        }
        sentencesTiming := sentencesTiming + [Timing(sentences[sentencesIdx], sentenceStart.value, sentenceEnd.value)];
        sentencesIdx := sentencesIdx + 1;
      }
      i := i + 1;
    }
    assert units[..i] == units;
    r := Ok(sentencesTiming);
  }

  /** The number of `silE` units. */
  function SilECount<T>(units: seq<Unit<T>>): nat
  {
    if |units| == 0 then 0
    else SilECount(units[..|units| - 1]) + if units[|units| - 1].name == "silE" then 1 else 0
  }

  /** The end time of the most recent `silB` unit, if there is one. */
  function LastSilB<T>(units: seq<Unit<T>>): Option<T>
  {
    if |units| == 0 then None
    else if units[|units| - 1].name == "silB" then Some(units[|units| - 1].end)
    else LastSilB(units[..|units| - 1])
  }

  /**
   * While no unit has raised, the sentence index counts the `silE` units, one
   * timing has been recorded per `silE`, and the start is the latest `silB`'s end.
   */
  lemma {:induction false} RunState<T>(sentences: seq<string>, units: seq<Unit<T>>)
    requires Run(sentences, units).Ok?
    ensures var st := Run(sentences, units).value;
      st.idx == |st.timings| == SilECount(units) && st.start == LastSilB(units)
  {
    if |units| > 0 {
      RunState(sentences, units[..|units| - 1]);
    }
  }

  /** Earlier units' timings stay as recorded: a prefix's run is a prefix of the run. */
  lemma {:induction false} RunPrefix<T>(sentences: seq<string>, units: seq<Unit<T>>, i: nat)
    requires i <= |units| && Run(sentences, units).Ok?
    ensures Run(sentences, units[..i]).Ok?
    ensures var t := Run(sentences, units[..i]).value.timings;
      var all := Run(sentences, units).value.timings;
      |t| <= |all| && t == all[..|t|]
    decreases |units| - i
  {
    if i == |units| {
      assert units[..i] == units;
    } else {
      RunSnoc(sentences, units, i);
      if Run(sentences, units[..i]).Err? {
        RunStops(sentences, units, i + 1);
      }
      RunPrefix(sentences, units, i + 1);
      var t := Run(sentences, units[..i]).value.timings;
      var t' := Run(sentences, units[..i + 1]).value.timings;
      var all := Run(sentences, units).value.timings;
      assert t == t'[..|t|];
      assert all[..|t'|][..|t|] == all[..|t|];
    }
  }

  /**
   * The timing a `silE` unit records: the k-th, for the k-th `silE`, holds the
   * k-th sentence, starts at the end of the latest `silB` before it and ends
   * at the `silE`'s own begin time.
   */
  lemma RunEntry<T>(sentences: seq<string>, units: seq<Unit<T>>, i: nat)
    requires Run(sentences, units).Ok?
    requires i < |units| && units[i].name == "silE"
    ensures var timings := Run(sentences, units).value.timings;
      var k := SilECount(units[..i]);
      && k < |timings| && k < |sentences| && LastSilB(units[..i]).Some?
      && timings[k] == Timing(sentences[k], LastSilB(units[..i]).value, units[i].begin)
  {
    RunPrefix(sentences, units, i + 1);
    RunSnoc(sentences, units, i);
    RunState(sentences, units[..i]);
    var st := Run(sentences, units[..i]).value;
    var t' := Run(sentences, units[..i + 1]).value.timings;
    assert t'[|st.timings|] == Timing(sentences[st.idx], st.start.value, units[i].begin);
  }

  /** Every `silE` unit has had a `silB` before it. */
  predicate Opened<T>(units: seq<Unit<T>>) {
    forall i :: 0 <= i < |units| && units[i].name == "silE" ==> LastSilB(units[..i]).Some?
  }

  /**
   * The loop raises nothing exactly when there are no more `silE` units than
   * sentences and no `silE` comes before the first `silB`.
   */
  lemma {:induction false} RunSucceeds<T>(sentences: seq<string>, units: seq<Unit<T>>)
    ensures Run(sentences, units).Ok? <==> SilECount(units) <= |sentences| && Opened(units)
  {
    if |units| > 0 {
      var n := |units| - 1;
      var init := units[..n];
      RunSucceeds(sentences, init);
      assert forall i :: 0 <= i < n ==> init[..i] == units[..i] && init[i] == units[i];
      if Run(sentences, init).Ok? {
        RunState(sentences, init);
      } else {
        assert !(SilECount(init) <= |sentences| && Opened(init));
        assert SilECount(init) <= SilECount(units);
      }
    }
  }

  /**
   * The loop stops at the first unit that raises: a `silE` that finds every
   * sentence used raises IndexError, one that finds no `silB` before it NameError.
   */
  lemma {:induction false} RunFirstError<T>(sentences: seq<string>, units: seq<Unit<T>>) returns (n: nat)
    requires Run(sentences, units).Err?
    ensures n < |units| && units[n].name == "silE" && Run(sentences, units[..n]).Ok?
    ensures Run(sentences, units).error == IndexError <==> SilECount(units[..n]) >= |sentences|
    ensures Run(sentences, units).error != IndexError ==>
      Run(sentences, units).error == NameError("sentence_start") && LastSilB(units[..n]).None?
  {
    var init := units[..|units| - 1];
    if Run(sentences, init).Err? {
      n := RunFirstError(sentences, init);
      assert init[..n] == units[..n] && init[n] == units[n];
    } else {
      n := |init|;
      assert units[..n] == init;
      RunState(sentences, init);
    }
  }

  /**
   * The script from line 15 to line 61, with the segmenter's result given:
   * the sentences and transcripts must be equally many, in which case the
   * segmenter input is written; the segmenter must return one result, whose
   * units are then paired with the sentences.
   */
  method AlignSample<T>(text: string, phonemeLines: seq<string>, segmented: seq<(string, seq<Unit<T>>)>)
    returns (segmenterInput: Option<string>, r: Result<seq<Timing<T>>, JuliusError>)
    ensures var sentences := SplitSentences(text);
      var transcripts := Transcripts(phonemeLines);
      if |sentences| != |transcripts| then
        segmenterInput == None && r == Err(CountMismatch(|sentences|, |transcripts|))
      else
        && segmenterInput == Some(SegmenterInput(transcripts))
        && (|segmented| != 1 ==> r == Err(SegmentCount(|segmented|)))
        && (|segmented| == 1 ==> r == Timings(sentences, segmented[0].1))
  {
    var sentences := StripAll(Split(RStripChars(RStrip(text), {Terminator}), Terminator));
    var transcripts := Transcripts(phonemeLines);
    if |sentences| != |transcripts| {
      return None, Err(CountMismatch(|sentences|, |transcripts|));
    }
    var content := WriteSegmenterInput(transcripts);
    segmenterInput := Some(content);
    if |segmented| != 1 {
      return segmenterInput, Err(SegmentCount(|segmented|));
    }
    r := PairSentenceTimings(sentences, segmented[0].1);
  }
}

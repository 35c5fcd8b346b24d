/** The dictation button of `src/components/recorder.tsx`: the `isRecording` flag, the refs
    holding the current recognition object and the final transcript, and the handlers
    `toggleRecording` installs on each recognition it creates. Every handler writes the same
    refs, whichever recognition object delivered the event. */
module Dictation {
  import opened Seqs

  /** One entry of `event.results`: the first alternative's transcript and `isFinal`. */
  datatype RecognitionResult = RecognitionResult(transcript: string, isFinal: bool)

  const UnsupportedAlert: string := "Speech recognition is not supported in this browser."
  const Language: string := "en-US"

  /** The results from `resultIndex` on, the ones the `onresult` loop visits. */
  function NewResults(results: seq<RecognitionResult>, resultIndex: nat): (r: seq<RecognitionResult>) {
    if resultIndex <= |results| then results[resultIndex..] else []
  }

  /** What one result contributes to the final transcript: its text and a space, if final. */
  function FinalPiece(r: RecognitionResult): (piece: string) {
    if r.isFinal then r.transcript + " " else ""
  }

  /** What one result contributes to the interim transcript: its text, if not final. */
  function InterimPiece(r: RecognitionResult): (piece: string) {
    if r.isFinal then "" else r.transcript
  }

  /** The text the loop appends to the final transcript for `rs`, visited left to right. */
  function FinalText(rs: seq<RecognitionResult>): (text: string) {
    if rs == [] then "" else FinalText(rs[..|rs| - 1]) + FinalPiece(rs[|rs| - 1])
  }

  /** The interim transcript the loop builds for `rs`, visited left to right. */
  function InterimText(rs: seq<RecognitionResult>): (text: string) {
    if rs == [] then "" else InterimText(rs[..|rs| - 1]) + InterimPiece(rs[|rs| - 1])
  }

  lemma TextsSnoc(rs: seq<RecognitionResult>, r: RecognitionResult)
    ensures FinalText(rs + [r]) == FinalText(rs) + FinalPiece(r)
    ensures InterimText(rs + [r]) == InterimText(rs) + InterimPiece(r)
  {
    assert (rs + [r])[..|rs|] == rs;
  }

  lemma TextsStep(results: seq<RecognitionResult>, lo: nat, i: nat)
    requires lo <= i < |results|
    ensures FinalText(results[lo..i + 1]) == FinalText(results[lo..i]) + FinalPiece(results[i])
    ensures InterimText(results[lo..i + 1]) == InterimText(results[lo..i]) + InterimPiece(results[i])
    ensures results[i].isFinal ==> InterimText(results[lo..i + 1]) == InterimText(results[lo..i])
    ensures !results[i].isFinal ==> FinalText(results[lo..i + 1]) == FinalText(results[lo..i])
  {
    assert results[lo..i + 1] == results[lo..i] + [results[i]];
    TextsSnoc(results[lo..i], results[i]);
  }

  lemma AppendAssoc(a: string, b: string, c: string)
    ensures a + (b + c) == (a + b) + c
  {
  }

  /** The `for` loop of `onresult`: appends every final result at or after `resultIndex`
      (plus a space) to the final transcript, and concatenates the interim ones. */
  method ProcessResults(finalTranscript: string, results: seq<RecognitionResult>, resultIndex: nat)
    returns (newFinal: string, interim: string)
    ensures newFinal == finalTranscript + FinalText(NewResults(results, resultIndex))
    ensures interim == InterimText(NewResults(results, resultIndex))
  {
    newFinal, interim := finalTranscript, "";
    if resultIndex > |results| {
      assert finalTranscript + FinalText([]) == finalTranscript;
      return;
    }
    var i := resultIndex;
    while i < |results|
      invariant resultIndex <= i <= |results|
      invariant newFinal == finalTranscript + FinalText(results[resultIndex..i])
      invariant interim == InterimText(results[resultIndex..i])
    {
      TextsStep(results, resultIndex, i);
      AppendAssoc(finalTranscript, FinalText(results[resultIndex..i]), FinalPiece(results[i]));
      if results[i].isFinal {
        newFinal := newFinal + (results[i].transcript + " ");
      } else {
        interim := interim + results[i].transcript;
      }
      i := i + 1;
    }
    assert results[resultIndex..i] == NewResults(results, resultIndex);
  }

  /** Handling the results in two chunks appends the same final text as handling them at once. */
  lemma {:induction false} FinalTextAppend(a: seq<RecognitionResult>, b: seq<RecognitionResult>)
    ensures FinalText(a + b) == FinalText(a) + FinalText(b)
    decreases |b|
  {
    if b != [] {
      var b' := b[..|b| - 1];
      assert (a + b)[..|a + b| - 1] == a + b';
      FinalTextAppend(a, b');
    } else {
      assert a + b == a;
    }
  }

  lemma {:induction false} InterimTextAppend(a: seq<RecognitionResult>, b: seq<RecognitionResult>)
    ensures InterimText(a + b) == InterimText(a) + InterimText(b)
    decreases |b|
  {
    if b != [] {
      var b' := b[..|b| - 1];
      assert (a + b)[..|a + b| - 1] == a + b';
      InterimTextAppend(a, b');
    } else {
      assert a + b == a;
    }
  }

  /** The loop starts at `resultIndex`: two result lists that agree from there on give the
      same texts, whatever precedes that index. */
  lemma EarlierResultsIgnored(a: seq<RecognitionResult>, b: seq<RecognitionResult>, resultIndex: nat)
    requires |a| == |b|
    requires forall i :: resultIndex <= i < |a| ==> a[i] == b[i]
    ensures FinalText(NewResults(a, resultIndex)) == FinalText(NewResults(b, resultIndex))
    ensures InterimText(NewResults(a, resultIndex)) == InterimText(NewResults(b, resultIndex))
  {
    if resultIndex <= |a| {
      assert a[resultIndex..] == b[resultIndex..];
    }
  }

  /** The results before `resultIndex` were handled by earlier events: for any index inside
      the list, the text of the whole list is theirs followed by the text of the new ones. */
  lemma ResultIndexSplits(results: seq<RecognitionResult>, resultIndex: nat)
    requires resultIndex <= |results|
    ensures FinalText(results) == FinalText(results[..resultIndex]) + FinalText(NewResults(results, resultIndex))
    ensures InterimText(results) == InterimText(results[..resultIndex]) + InterimText(NewResults(results, resultIndex))
  {
    assert results == results[..resultIndex] + results[resultIndex..];
    FinalTextAppend(results[..resultIndex], results[resultIndex..]);
    InterimTextAppend(results[..resultIndex], results[resultIndex..]);
  }

  predicate IsFinal(r: RecognitionResult) { r.isFinal }
  predicate IsInterim(r: RecognitionResult) { !r.isFinal }

  /** Each transcript followed by a space, in order. */
  function Spaced(rs: seq<RecognitionResult>): (text: string) {
    if rs == [] then "" else rs[0].transcript + " " + Spaced(rs[1..])
  }

  /** The transcripts concatenated, in order. */
  function Joined(rs: seq<RecognitionResult>): (text: string) {
    if rs == [] then "" else rs[0].transcript + Joined(rs[1..])
  }

  lemma {:induction false} SpacedSnoc(rs: seq<RecognitionResult>, x: RecognitionResult)
    ensures Spaced(rs + [x]) == Spaced(rs) + x.transcript + " "
  {
    if rs == [] {
      assert rs + [x] == [x];
    } else {
      assert (rs + [x])[1..] == rs[1..] + [x];
      SpacedSnoc(rs[1..], x);
      calc {
        Spaced(rs + [x]);
        rs[0].transcript + " " + Spaced(rs[1..] + [x]);
        rs[0].transcript + " " + (Spaced(rs[1..]) + x.transcript + " ");
        Spaced(rs) + x.transcript + " ";
      }
    }
  }

  lemma {:induction false} JoinedSnoc(rs: seq<RecognitionResult>, x: RecognitionResult)
    ensures Joined(rs + [x]) == Joined(rs) + x.transcript
  {
    if rs == [] {
      assert rs + [x] == [x];
    } else {
      assert (rs + [x])[1..] == rs[1..] + [x];
      JoinedSnoc(rs[1..], x);
    }
  }

  /** The final text is the final results' transcripts, each followed by a space, in order;
      the interim text is the other results' transcripts, in order. */
  lemma {:induction false} TextsSplitByFinality(rs: seq<RecognitionResult>)
    ensures FinalText(rs) == Spaced(Filter(rs, IsFinal))
    ensures InterimText(rs) == Joined(Filter(rs, IsInterim))
  {
    if rs != [] {
      var init, last := rs[..|rs| - 1], rs[|rs| - 1];
      assert rs == init + [last];
      TextsSplitByFinality(init);
      FilterSnoc(init, last, IsFinal);
      FilterSnoc(init, last, IsInterim);
      if last.isFinal {
        SpacedSnoc(Filter(init, IsFinal), last);
        assert FinalText(rs) == FinalText(init) + last.transcript + " ";
        assert InterimText(rs) == InterimText(init) + "";
        assert !IsInterim(last);
        assert Filter(rs, IsInterim) == Filter(init, IsInterim) + [];
        assert Filter(init, IsInterim) + [] == Filter(init, IsInterim);
      } else {
        JoinedSnoc(Filter(init, IsInterim), last);
        assert FinalText(rs) == FinalText(init) + "";
        assert InterimText(rs) == InterimText(init) + last.transcript;
        assert Filter(rs, IsFinal) == Filter(init, IsFinal) + [];
        assert Filter(init, IsFinal) + [] == Filter(init, IsFinal);
      }
    }
  }

  /** An event whose new results are all final leaves no interim text; one whose new results
      are all interim leaves the final transcript as it was. */
  lemma {:induction false} UniformResults(rs: seq<RecognitionResult>)
    ensures (forall i :: 0 <= i < |rs| ==> rs[i].isFinal) ==> InterimText(rs) == ""
    ensures (forall i :: 0 <= i < |rs| ==> !rs[i].isFinal) ==> FinalText(rs) == ""
  {
    if rs != [] {
      UniformResults(rs[..|rs| - 1]);
    }
  }

  /** The object `new SpeechRecognition()` returns, reduced to its settings and to the
      number of times `start()` and `stop()` were called on it. */
  class Recognition {
    var continuous: bool
    var interimResults: bool
    var lang: string
    var starts: nat
    var stops: nat

    /** The browser's defaults: single-shot, final results only, document language. */
    constructor ()
      ensures !continuous && !interimResults && lang == ""
      ensures starts == 0 && stops == 0
    {
      continuous, interimResults, lang := false, false, "";
      starts, stops := 0, 0;
    }

    method Start()
      modifies this
      ensures starts == old(starts) + 1 && stops == old(stops)
      ensures continuous == old(continuous) && interimResults == old(interimResults) && lang == old(lang)
    {
      starts := starts + 1;
    }

    method Stop()
      modifies this
      ensures stops == old(stops) + 1 && starts == old(starts)
      ensures continuous == old(continuous) && interimResults == old(interimResults) && lang == old(lang)
    {
      stops := stops + 1;
    }
  }

  class Recorder {
    /** The `isRecording` state. */
    var isRecording: bool
    /** `recognitionRef.current`. */
    var recognition: Recognition?
    /** `finalTranscriptRef.current`. */
    var finalTranscript: string
    /** Every text passed to `onTranscriptChange`, oldest first. */
    var emitted: seq<string>
    /** Every message shown with `alert`, oldest first. */
    var alerts: seq<string>
    /** The `initialTranscript` the effect last ran with: its dependency list. */
    var lastInitialTranscript: string

    /** The first render: the ref starts from the prop, and the mount run of the effect
        writes the same value again. */
    constructor (initialTranscript: string)
      ensures !isRecording && recognition == null && finalTranscript == initialTranscript
      ensures emitted == [] && alerts == [] && lastInitialTranscript == initialTranscript
    {
      isRecording, recognition, finalTranscript := false, null, initialTranscript;
      emitted, alerts := [], [];
      lastInitialTranscript := initialTranscript;
    }

    /** A re-render with the prop `initialTranscript`. The effect on `[initialTranscript]`
        runs only when the value differs from the one it last ran with; it then re-seeds the
        final transcript, whether or not a recognition is running. An unchanged prop keeps
        the dictated final transcript. */
    method SetInitialTranscript(initialTranscript: string)
      modifies this
      ensures lastInitialTranscript == initialTranscript
      ensures initialTranscript != old(lastInitialTranscript) ==> finalTranscript == initialTranscript
      ensures initialTranscript == old(lastInitialTranscript) ==> finalTranscript == old(finalTranscript)
      ensures isRecording == old(isRecording) && recognition == old(recognition)
      ensures emitted == old(emitted) && alerts == old(alerts)
    {
      if initialTranscript != lastInitialTranscript {
        finalTranscript := initialTranscript;
        lastInitialTranscript := initialTranscript;
      }
    }

    /** `toggleRecording`. While recording it only asks the current recognition to stop;
        the flag is cleared later, by `onend`. Otherwise, without the capability it alerts and
        returns; with it, it creates, configures, stores and starts a recognition. */
    method Toggle(supported: bool)
      modifies this, recognition
      ensures finalTranscript == old(finalTranscript) && emitted == old(emitted)
      ensures lastInitialTranscript == old(lastInitialTranscript)
      ensures old(isRecording) ==>
        && isRecording && recognition == old(recognition) && alerts == old(alerts)
        && (recognition != null ==>
              && recognition.stops == old(recognition.stops) + 1
              && recognition.starts == old(recognition.starts)
              && recognition.continuous == old(recognition.continuous)
              && recognition.interimResults == old(recognition.interimResults)
              && recognition.lang == old(recognition.lang))
      ensures !old(isRecording) && !supported ==>
        && !isRecording && recognition == old(recognition)
        && alerts == old(alerts) + [UnsupportedAlert]
        && (recognition != null ==> unchanged(recognition))
      ensures !old(isRecording) && supported ==>
        && isRecording && recognition != null && fresh(recognition) && alerts == old(alerts)
        && recognition.continuous && recognition.interimResults && recognition.lang == Language
        && recognition.starts == 1 && recognition.stops == 0
        && (old(recognition) != null ==> unchanged(old(recognition)))
    {
      if isRecording {
        if recognition != null {
          recognition.Stop();
        }
      } else {
        if !supported {
          alerts := alerts + [UnsupportedAlert];
          return;
        }
        var r := new Recognition();
        r.continuous := true;
        r.interimResults := true;
        r.lang := Language;
        recognition := r;
        r.Start();
        isRecording := true;
      }
    }

    /** `onresult`: extends the final transcript with the new final results and emits it
        followed by the new interim results. */
    method OnResult(results: seq<RecognitionResult>, resultIndex: nat)
      modifies this
      ensures finalTranscript == old(finalTranscript) + FinalText(NewResults(results, resultIndex))
      ensures emitted == old(emitted) + [finalTranscript + InterimText(NewResults(results, resultIndex))]
      ensures old(finalTranscript) <= finalTranscript
      ensures isRecording == old(isRecording) && recognition == old(recognition) && alerts == old(alerts)
      ensures lastInitialTranscript == old(lastInitialTranscript)
    {
      var newFinal, interim := ProcessResults(finalTranscript, results, resultIndex);
      finalTranscript := newFinal;
      emitted := emitted + [newFinal + interim];
    }

    /** `onerror` only writes to the console: no state changes. */
    method OnError(error: string)
      ensures isRecording == old(isRecording) && recognition == old(recognition)
      ensures finalTranscript == old(finalTranscript) && emitted == old(emitted) && alerts == old(alerts)
      ensures lastInitialTranscript == old(lastInitialTranscript)
    {
    }

    /** `onend`: the only place the flag goes back to false. */
    method OnEnd()
      modifies this
      ensures !isRecording
      ensures recognition == old(recognition) && finalTranscript == old(finalTranscript)
      ensures emitted == old(emitted) && alerts == old(alerts)
      ensures lastInitialTranscript == old(lastInitialTranscript)
    {
      isRecording := false;
    }
  }

  /** The texts of the scenario below: one interim "wor", one final "world", and an interim
      "next" after that final result. */
  lemma SingleTexts(r: RecognitionResult)
    ensures FinalText([r]) == FinalPiece(r) && InterimText([r]) == InterimPiece(r)
  {
    TextsSnoc([], r);
    assert [] + [r] == [r];
  }

  /** An interim "wor" after "Hello ": the final transcript stays, the interim is shown. */
  lemma ScenarioInterim(wor: RecognitionResult)
    requires wor == RecognitionResult("wor", false)
    ensures "Hello " + FinalText(NewResults([wor], 0)) == "Hello "
    ensures "Hello " + InterimText(NewResults([wor], 0)) == "Hello wor"
  {
    assert NewResults([wor], 0) == [wor];
    SingleTexts(wor);
    assert "Hello " + "" == "Hello ";
    assert "Hello " + "wor" == "Hello wor";
  }

  /** The same result, now final: it joins the final transcript with a trailing space. */
  lemma ScenarioFinal(world: RecognitionResult)
    requires world == RecognitionResult("world", true)
    ensures "Hello " + FinalText(NewResults([world], 0)) == "Hello world "
    ensures InterimText(NewResults([world], 0)) == ""
  {
    assert NewResults([world], 0) == [world];
    SingleTexts(world);
    assert "Hello " + ("world" + " ") == "Hello world ";
  }

  /** A later event that starts at index 1: the already final result is not appended again. */
  lemma ScenarioResumed(world: RecognitionResult, next: RecognitionResult)
    requires world == RecognitionResult("world", true)
    requires next == RecognitionResult("next", false)
    ensures "Hello world " + FinalText(NewResults([world, next], 1)) == "Hello world "
    ensures "Hello world " + InterimText(NewResults([world, next], 1)) == "Hello world next"
  {
    assert NewResults([world, next], 1) == [next];
    SingleTexts(next);
    assert "Hello world " + "" == "Hello world ";
    assert "Hello world " + "next" == "Hello world next";
  }

  /** A dictation session over a note whose content is "Hello ". The final result gets a
      trailing space. */
  method DictationScenario() {
    var rec := new Recorder("Hello ");
    var wor := RecognitionResult("wor", false);
    var world := RecognitionResult("world", true);
    var next := RecognitionResult("next", false);
    ScenarioInterim(wor);
    ScenarioFinal(world);
    ScenarioResumed(world, next);
    rec.OnResult([wor], 0);
    rec.OnResult([world], 0);
    rec.OnResult([world, next], 1);
    assert rec.emitted == ["Hello wor", "Hello world ", "Hello world next"];
    rec.SetInitialTranscript("Hello ");
    assert rec.finalTranscript == "Hello world ";
  }
}

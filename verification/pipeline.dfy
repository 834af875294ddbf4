/**
 * The one-shot pipeline the assistant runs when a turn ends: transcribe the
 * buffered frames, ask the language model (falling back to the profile's
 * localized error message when it raises), sanitise the reply and speak it.
 * Every stage absorbs its provider's exception. A turn records, in order,
 * the provider calls it made.
 */
module Pipeline {
  import opened Providers
  import Languages
  import SpeechFilter

  /** One provider call made during a turn, with its arguments. */
  datatype Call<S> =
    | Transcribe(audio: seq<S>)
    | Respond(text: string, prompt: string)
    | Sanitize(text: string)
    | Speak(text: string, language: string)

  /** What the providers answer when a turn's pipeline runs: the
      transcriber's and the language model's replies and whether playback
      completed. */
  datatype Answers = Answers(transcript: Reply, response: Reply, playback: Status)

  /** How a turn ended: abandoned for want of a transcript, or answered. */
  datatype Outcome =
    | Abandoned
    | Replied(transcript: string, reply: string, voiced: bool)

  datatype Turn<S> = Turn(calls: seq<Call<S>>, outcome: Outcome)

  /** `np.concatenate(frames)`. */
  function Flatten<S>(frames: seq<seq<S>>): seq<S> {
    if frames == [] then [] else frames[0] + Flatten(frames[1..])
  }

  /** The position a call takes in a turn. */
  function Stage<S>(c: Call<S>): nat {
    match c
    case Transcribe(_) => 0
    case Respond(_, _) => 1
    case Sanitize(_) => 2
    case Speak(_, _) => 3
  }

  /** The calls of a turn follow the pipeline order with no stage skipped
      or repeated: a prefix of transcribe, respond, sanitise, speak. */
  predicate StageOrdered<S>(calls: seq<Call<S>>) {
    |calls| <= 4 && forall i :: 0 <= i < |calls| ==> Stage(calls[i]) == i
  }

  /** `process_recording`: `None` for an empty buffer (and then no call) or
      when the transcriber raises, otherwise the transcript. */
  function ProcessRecording<S>(frames: seq<seq<S>>, transcript: Reply): (r: (Option<string>, seq<Call<S>>))
    ensures frames == [] ==> r.1 == []
    ensures frames != [] ==> r.1 == [Transcribe(Flatten(frames))]
    ensures r.0.Some? <==> frames != [] && transcript.Returned?
    ensures r.0.Some? ==> r.0.value == transcript.value
  {
    if frames == [] then (None, [])
    else
      var call := Transcribe(Flatten(frames));
      match transcript
      case Returned(text) => (Some(text), [call])
      case Raised => (None, [call])
  }

  /** `get_response`: the model's reply, or the profile's processing-error
      message when the model raises. */
  function GetResponse<S>(profile: Languages.Profile, text: string, response: Reply): (r: (string, seq<Call<S>>))
    ensures r.1 == [Respond(text, profile.systemPrompt)]
    ensures response.Returned? ==> r.0 == response.value
    ensures response.Raised? ==> r.0 == profile.errorMessages[Languages.ProcessingError]
  {
    var call := Respond(text, profile.systemPrompt);
    match response
    case Returned(reply) => (reply, [call])
    case Raised => (profile.errorMessages[Languages.ProcessingError], [call])
  }

  /** `speak_response`: sanitise, then speak in the profile's language; an
      exception from either is swallowed. The flag says the speech played. */
  function SpeakResponse<S>(profile: Languages.Profile, filter: string -> Reply, text: string, playback: Status): (r: (seq<Call<S>>, bool))
    ensures filter(text).Raised? ==> r.0 == [Sanitize(text)] && !r.1
    ensures filter(text).Returned? ==> r.0 == [Sanitize(text), Speak(filter(text).value, profile.code)]
    ensures r.1 <==> filter(text).Returned? && playback == Completed
  {
    match filter(text)
    case Raised => ([Sanitize(text)], false)
    case Returned(clean) => ([Sanitize(text), Speak(clean, profile.code)], playback == Completed)
  }

  /** The endpoint branch of the main loop: transcribe; on a falsy
      transcript stop; otherwise respond and speak. */
  function ProcessTurn<S>(profile: Languages.Profile, filter: string -> Reply, frames: seq<seq<S>>, answers: Answers): (t: Turn<S>)
    ensures StageOrdered(t.calls)
    ensures frames == [] ==> t.calls == [] && t.outcome == Abandoned
    ensures frames != [] ==> |t.calls| >= 1 && t.calls[0] == Transcribe(Flatten(frames))
    ensures t.outcome.Replied? <==> frames != [] && answers.transcript.Returned? && answers.transcript.value != ""
    ensures t.outcome.Abandoned? ==> |t.calls| <= 1
    ensures t.outcome.Replied? ==> t.outcome.transcript == answers.transcript.value
    ensures t.outcome.Replied? ==>
      && |t.calls| >= 3
      && t.calls[1] == Respond(t.outcome.transcript, profile.systemPrompt)
      && t.calls[2] == Sanitize(t.outcome.reply)
      && t.outcome.reply == (if answers.response.Returned? then answers.response.value
                             else profile.errorMessages[Languages.ProcessingError])
    ensures |t.calls| == 4 <==> t.outcome.Replied? && filter(t.outcome.reply).Returned?
    ensures |t.calls| == 4 ==> t.calls[3] == Speak(filter(t.outcome.reply).value, profile.code)
    ensures t.outcome.Replied? ==> (t.outcome.voiced <==> |t.calls| == 4 && answers.playback == Completed)
  {
    var (text, heard) := ProcessRecording(frames, answers.transcript);
    if text.None? || text.value == "" then
      Turn(heard, Abandoned)
    else
      var (reply, asked) := GetResponse(profile, text.value, answers.response);
      var (spoken, voiced) := SpeakResponse(profile, filter, reply, answers.playback);
      Turn(heard + asked + spoken, Replied(text.value, reply, voiced))
  }

  /** A turn speaks at most once, and only as its last call. */
  lemma SpeaksAtMostOnce<S>(profile: Languages.Profile, filter: string -> Reply, frames: seq<seq<S>>, answers: Answers, i: nat)
    requires var t := ProcessTurn(profile, filter, frames, answers); i < |t.calls| && t.calls[i].Speak?
    ensures i == 3 && |ProcessTurn(profile, filter, frames, answers).calls| == 4
  {
  }

  /** When the language model raises, the profile's processing-error message
      is sanitised and spoken exactly once, in the profile's language. */
  lemma {:induction false} ModelFailureSpeaksFallback<S>(profile: Languages.Profile, filter: string -> Reply, frames: seq<seq<S>>, answers: Answers)
    requires frames != [] && answers.transcript.Returned? && answers.transcript.value != ""
    requires answers.response.Raised?
    requires filter(profile.errorMessages[Languages.ProcessingError]).Returned?
    ensures var message := profile.errorMessages[Languages.ProcessingError];
      ProcessTurn(profile, filter, frames, answers).calls ==
        [Transcribe(Flatten(frames)),
         Respond(answers.transcript.value, profile.systemPrompt),
         Sanitize(message),
         Speak(filter(message).value, profile.code)]
  {
    var t := ProcessTurn(profile, filter, frames, answers);
    assert |t.calls| == 4;
  }

  /** `SpeechFilter` never raises. */
  function SpeechFilterProvider(text: string): Reply
  {
    Returned(SpeechFilter.Filter(text))
  }

  /** With the speech filter wired in, what is spoken is the filtered reply:
      trimmed, single-spaced, without '<' or characters outside the Basic
      Multilingual Plane. */
  lemma SpokenTextIsClean<S>(profile: Languages.Profile, frames: seq<seq<S>>, answers: Answers)
    requires frames != [] && answers.transcript.Returned? && answers.transcript.value != ""
    ensures var t := ProcessTurn(profile, SpeechFilterProvider, frames, answers);
      && |t.calls| == 4
      && t.calls[3].text == SpeechFilter.Filter(t.outcome.reply)
      && SpeechFilter.Text.Normalized(t.calls[3].text)
      && '<' !in t.calls[3].text
      && forall c :: c in t.calls[3].text ==> !SpeechFilter.IsAstral(c)
  {
  }

  /** Frames of `n` samples each concatenate to `|frames| * n` samples. */
  lemma {:induction false} FlattenLength<S>(frames: seq<seq<S>>, n: nat)
    requires forall i :: 0 <= i < |frames| ==> |frames[i]| == n
    ensures |Flatten(frames)| == |frames| * n
    decreases |frames|
  {
    if frames != [] {
      FlattenLength(frames[1..], n);
      assert Flatten(frames) == frames[0] + Flatten(frames[1..]);
      assert |frames| * n == n + (|frames| - 1) * n;
    }
  }
}

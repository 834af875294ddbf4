/**
 * The default configuration worked through end to end: 16 kHz audio read
 * in chunks of 512 samples, English, and the speech filter as text filter.
 */
module Scenario {
  import opened Providers
  import opened Pipeline
  import opened Engine
  import Languages
  import SpeechFilter

  /** The assistant's defaults: 16000 Hz, 512 samples per chunk, English,
      with the speech filter. */
  function DefaultEnv(): (env: Env)
    ensures env.threshold == 31
    ensures env.profile == Languages.English
    ensures env.filter == SpeechFilterProvider
  {
    var env := Configure("en", 16000, 512, SpeechFilterProvider);
    assert Abs(env.threshold) * 512 <= 16000 < (Abs(env.threshold) + 1) * 512;
    env
  }

  /** A turn whose transcript is "hello" and whose reply is "hi there" makes
      all four calls and speaks the reply unchanged, in the profile's
      language. */
  lemma HelloTurn<S>(profile: Languages.Profile, frames: seq<seq<S>>)
    requires frames != []
    ensures var t := ProcessTurn(profile, SpeechFilterProvider, frames,
                                 Answers(Returned("hello"), Returned("hi there"), Completed));
      && t.calls ==
           [Transcribe(Flatten(frames)),
            Respond("hello", profile.systemPrompt),
            Sanitize("hi there"),
            Speak("hi there", profile.code)]
      && t.outcome == Replied("hello", "hi there", true)
  {
    assert "hi" + " " + "there" == "hi there";
    SpeechFilter.PlainWordsKept("hi", "there");
    var t := ProcessTurn(profile, SpeechFilterProvider, frames,
                         Answers(Returned("hello"), Returned("hi there"), Completed));
    assert |t.calls| == 4;
    FourCalls(t.calls, Transcribe(Flatten(frames)), Respond("hello", profile.systemPrompt),
              Sanitize("hi there"), Speak("hi there", profile.code));
  }

  lemma FourCalls<T>(s: seq<T>, a: T, b: T, c: T, d: T)
    requires |s| == 4 && s[0] == a && s[1] == b && s[2] == c && s[3] == d
    ensures s == [a, b, c, d]
  {
  }

  /** 40 speech frames then 35 non-speech frames: the threshold is 31, so the
      turn ends on frame 71, the 32nd non-speech frame, with 72 frames
      buffered; the transcript "hello" is answered with "hi there", which is
      spoken unchanged in English, and the engine is idle again. */
  lemma DefaultTurn<S>(inputs: seq<Input<S>>)
    requires |inputs| == 75
    requires forall i :: 0 <= i < 40 ==> inputs[i].verdict == Speech
    requires forall i :: 40 <= i < 75 ==> inputs[i].verdict == NoSpeech
    requires inputs[71].answers == Answers(Returned("hello"), Returned("hi there"), Completed)
    ensures var tr := Run(DefaultEnv(), Idle(), inputs);
      && (forall i :: 0 <= i < 75 && tr.events[i].Ended? ==> i == 71)
      && tr.events[71].Ended?
      && tr.events[71].utterance == FramesOf(inputs[..72])
      && tr.events[71].turn.calls ==
           [Transcribe(Flatten(FramesOf(inputs[..72]))),
            Respond("hello", Languages.English.systemPrompt),
            Sanitize("hi there"),
            Speak("hi there", "en")]
      && tr.events[71].turn.outcome == Replied("hello", "hi there", true)
      && tr.state == Idle()
  {
    Endpoint31(DefaultEnv(), inputs);
    HelloTurn(Languages.English, FramesOf(inputs[..72]));
  }

  /** Endpointing with a threshold of 31 on that stream. */
  lemma Endpoint31<S>(env: Env, inputs: seq<Input<S>>)
    requires env.threshold == 31
    requires |inputs| == 75
    requires forall i :: 0 <= i < 40 ==> inputs[i].verdict == Speech
    requires forall i :: 40 <= i < 75 ==> inputs[i].verdict == NoSpeech
    ensures var tr := Run(env, Idle(), inputs);
      && (forall i :: 0 <= i < 75 && tr.events[i].Ended? ==> i == 71)
      && tr.events[71].Ended?
      && tr.events[71].utterance == FramesOf(inputs[..72])
      && tr.events[71].turn == ProcessTurn(env.profile, env.filter, FramesOf(inputs[..72]), inputs[71].answers)
      && tr.state == Idle()
  {
    assert SpeechThenSilence(inputs, 40);
    Endpointing(env, inputs, 40);
  }
}

/**
 * The turn-taking engine: the endpointing state machine of the assistant's
 * main loop. Each frame comes with the detector's verdict; speech starts or
 * continues a turn, non-speech while idle is dropped, and non-speech during
 * a turn is buffered and counted until the count exceeds the threshold. Then
 * the pipeline runs once on the buffered frames and the engine resets.
 *
 * The answers the providers give if the pipeline runs are supplied with each
 * frame, since that frame's processing is what would consult them.
 */
module Engine {
  import opened Providers
  import opened Pipeline
  import Languages

  /** The assistant's configuration as the loop sees it: the end-of-turn
      threshold, the language profile resolved when it was built, and its
      text filter. */
  datatype Env = Env(threshold: int, profile: Languages.Profile, filter: string -> Reply)

  /** `is_recording`, `silence_counter` and `frames`. */
  datatype State<S> = State(recording: bool, silence: nat, frames: seq<seq<S>>)

  /** One pass of the loop: the frame read, what the detector made of it,
      and what the providers answer should the turn end on this frame. */
  datatype Input<S> = Input(frame: seq<S>, verdict: Verdict, answers: Answers)

  /** What one pass of the loop did with its frame. */
  datatype Event<S> =
    | Discarded
    | Buffered
    | Ended(utterance: seq<seq<S>>, turn: Turn<S>)

  datatype Stepped<S> = Stepped(state: State<S>, event: Event<S>)

  datatype Trace<S> = Trace(state: State<S>, events: seq<Event<S>>)

  function Abs(x: int): nat {
    if x < 0 then -x else x
  }

  /** The quotient of naturals: the number of whole divisors in the
      dividend. */
  function Quotient(a: nat, b: nat): (q: nat)
    requires b > 0
    ensures q * b <= a < (q + 1) * b
  {
    assert a == (a / b) * b + a % b;
    assert (a / b + 1) * b == (a / b) * b + b;
    a / b
  }

  /** `int(sample_rate / chunk_size)`: the quotient truncated toward zero. */
  function SilenceThreshold(sampleRate: int, chunkSize: int): (t: int)
    requires chunkSize != 0
    ensures Abs(t) * Abs(chunkSize) <= Abs(sampleRate) < (Abs(t) + 1) * Abs(chunkSize)
    ensures t != 0 ==> ((t > 0) <==> ((sampleRate > 0) == (chunkSize > 0)))
  {
    var q: int := Quotient(Abs(sampleRate), Abs(chunkSize));
    var t := if (sampleRate >= 0) == (chunkSize > 0) then q else -q;
    assert Abs(t) == q;
    t
  }

  /** An assistant built for `language` over a stream of `sampleRate`
      samples per second read `chunkSize` at a time: the profile is resolved
      once, an unknown code falling back to English, and a turn ends after
      about one second of non-speech frames. */
  function Configure(language: string, sampleRate: int, chunkSize: int, filter: string -> Reply): (env: Env)
    requires chunkSize != 0
    ensures language in Languages.Configs ==> env.profile == Languages.Configs[language]
    ensures language !in Languages.Configs ==> env.profile == Languages.English
    ensures Languages.WellFormed(env.profile.code, env.profile)
    ensures Abs(env.threshold) * Abs(chunkSize) <= Abs(sampleRate) < (Abs(env.threshold) + 1) * Abs(chunkSize)
    ensures env.threshold != 0 ==> ((env.threshold > 0) <==> ((sampleRate > 0) == (chunkSize > 0)))
    ensures env.filter == filter
  {
    Languages.RegistryWellFormed();
    Env(SilenceThreshold(sampleRate, chunkSize), Languages.Resolve(language), filter)
  }

  /** `process_audio_chunk`: a detector exception reads as no speech. */
  function IsSpeech(v: Verdict): (b: bool)
    ensures b <==> v == Speech
  {
    match v
    case Speech => true
    case NoSpeech => false
    case DetectorError => false
  }

  function Idle<S>(): State<S> {
    State(false, 0, [])
  }

  /** The loop's invariant: idle means nothing buffered and nothing counted;
      recording means a non-empty buffer holding more frames than the
      trailing non-speech count, and that count within the threshold. */
  predicate Inv<S>(threshold: int, s: State<S>) {
    if s.recording then
      0 < |s.frames| && s.silence < |s.frames| && (s.silence == 0 || s.silence <= threshold)
    else
      s.frames == [] && s.silence == 0
  }

  /** One pass of the main loop's body. */
  function Step<S>(env: Env, s: State<S>, x: Input<S>): (r: Stepped<S>)
    ensures Inv(env.threshold, s) ==> Inv(env.threshold, r.state)
    ensures r.event.Discarded? <==> !s.recording && !IsSpeech(x.verdict)
    ensures r.event.Discarded? ==> r.state == s
    ensures r.event.Ended? <==> s.recording && !IsSpeech(x.verdict) && s.silence + 1 > env.threshold
    ensures r.event.Ended? ==>
      && r.state == Idle()
      && r.event.utterance == s.frames + [x.frame]
      && r.event.turn == ProcessTurn(env.profile, env.filter, s.frames + [x.frame], x.answers)
    ensures r.event.Buffered? ==>
      && r.state.recording
      && r.state.frames == s.frames + [x.frame]
      && r.state.silence == (if IsSpeech(x.verdict) then 0 else s.silence + 1)
  {
    if IsSpeech(x.verdict) then
      Stepped(State(true, 0, s.frames + [x.frame]), Buffered)
    else if s.recording then
      var silence := s.silence + 1;
      var frames := s.frames + [x.frame];
      if silence > env.threshold then
        var turn := ProcessTurn(env.profile, env.filter, frames, x.answers);
        Stepped(Idle(), Ended(frames, turn))
      else
        Stepped(State(true, silence, frames), Buffered)
    else
      Stepped(s, Discarded)
  }

  /** The loop run over a finite sequence of frames from state `s`. */
  function Run<S>(env: Env, s: State<S>, inputs: seq<Input<S>>): (tr: Trace<S>)
    ensures |tr.events| == |inputs|
    ensures Inv(env.threshold, s) ==> Inv(env.threshold, tr.state)
    decreases |inputs|
  {
    if inputs == [] then Trace(s, [])
    else
      var prev := Run(env, s, inputs[..|inputs| - 1]);
      var st := Step(env, prev.state, inputs[|inputs| - 1]);
      Trace(st.state, prev.events + [st.event])
  }

  /** The frames of a sequence of loop inputs. */
  function FramesOf<S>(inputs: seq<Input<S>>): (fs: seq<seq<S>>)
    ensures |fs| == |inputs|
    ensures forall i :: 0 <= i < |inputs| ==> fs[i] == inputs[i].frame
  {
    seq(|inputs|, i requires 0 <= i < |inputs| => inputs[i].frame)
  }

  lemma FramesOfSnoc<S>(inputs: seq<Input<S>>, j: nat)
    requires j < |inputs|
    ensures FramesOf(inputs[..j + 1]) == FramesOf(inputs[..j]) + [inputs[j].frame]
  {
  }

  /** Running one more frame is one more step. */
  lemma RunSnoc<S>(env: Env, s: State<S>, inputs: seq<Input<S>>, j: nat)
    requires j < |inputs|
    ensures var prev := Run(env, s, inputs[..j]);
      var st := Step(env, prev.state, inputs[j]);
      Run(env, s, inputs[..j + 1]) == Trace(st.state, prev.events + [st.event])
  {
    assert inputs[..j + 1][..j] == inputs[..j];
  }

  /** A run is determined step by step: if each frame takes `states[j]` to
      `states[j + 1]` with event `events[j]`, the run from `states[0]` ends in
      the last state with exactly those events. */
  lemma {:induction false} RunFollows<S>(env: Env, s: State<S>, inputs: seq<Input<S>>,
                                         states: seq<State<S>>, events: seq<Event<S>>)
    requires |states| == |inputs| + 1 && |events| == |inputs| && states[0] == s
    requires forall j :: 0 <= j < |inputs| ==> Step(env, states[j], inputs[j]) == Stepped(states[j + 1], events[j])
    ensures Run(env, s, inputs) == Trace(states[|inputs|], events)
    decreases |inputs|
  {
    if inputs != [] {
      var m := |inputs| - 1;
      RunFollows(env, s, inputs[..m], states[..m + 1], events[..m]);
      assert events == events[..m] + [events[m]];
    }
  }

  /** While idle, non-speech frames are dropped one by one: an all-non-speech
      stream never ends a turn (so never reaches the transcriber) and leaves
      the engine idle with an empty buffer. */
  lemma {:induction false} SilenceWhileIdle<S>(env: Env, inputs: seq<Input<S>>)
    requires forall i :: 0 <= i < |inputs| ==> !IsSpeech(inputs[i].verdict)
    ensures Run(env, Idle(), inputs).state == Idle()
    ensures forall i :: 0 <= i < |inputs| ==> Run(env, Idle(), inputs).events[i] == Discarded
    decreases |inputs|
  {
    if inputs != [] {
      SilenceWhileIdle(env, inputs[..|inputs| - 1]);
    }
  }

  /** A detector failure is handled exactly like a non-speech verdict. */
  lemma DetectorErrorIsNoSpeech<S>(env: Env, s: State<S>, x: Input<S>)
    requires x.verdict == DetectorError
    ensures Step(env, s, x) == Step(env, s, x.(verdict := NoSpeech))
  {
  }

  /** `k >= 1` speech frames, then only non-speech frames. */
  predicate SpeechThenSilence<S>(inputs: seq<Input<S>>, k: nat) {
    && 1 <= k <= |inputs|
    && (forall i :: 0 <= i < k ==> inputs[i].verdict == Speech)
    && (forall i :: k <= i < |inputs| ==> !IsSpeech(inputs[i].verdict))
  }

  /** The state after the first `j` frames of such a stream: recording, with
      the count of non-speech frames so far, until the turn ends on frame
      `k + threshold`; idle before the first frame and after the end. */
  function ExpectedState<S>(env: Env, inputs: seq<Input<S>>, k: nat, j: nat): State<S>
    requires j <= |inputs|
  {
    if 0 < j <= k + env.threshold then State(true, if j <= k then 0 else j - k, FramesOf(inputs[..j]))
    else Idle()
  }

  /** What frame `i` of such a stream does: buffered until the end, the
      pipeline on frames `0..k + threshold`, dropped afterwards. */
  function ExpectedEvent<S>(env: Env, inputs: seq<Input<S>>, k: nat, i: nat): Event<S>
    requires i < |inputs|
  {
    var e := k + env.threshold;
    if i < e then Buffered
    else if i == e then
      Ended(FramesOf(inputs[..e + 1]),
            ProcessTurn(env.profile, env.filter, FramesOf(inputs[..e + 1]), inputs[e].answers))
    else Discarded
  }

  function ExpectedEvents<S>(env: Env, inputs: seq<Input<S>>, k: nat, j: nat): (es: seq<Event<S>>)
    requires j <= |inputs|
    ensures |es| == j
    ensures forall i :: 0 <= i < j ==> es[i] == ExpectedEvent(env, inputs, k, i)
  {
    seq(j, i requires 0 <= i < j => ExpectedEvent(env, inputs, k, i))
  }

  lemma EndpointStep<S>(env: Env, inputs: seq<Input<S>>, k: nat, j: nat)
    requires env.threshold >= 0 && SpeechThenSilence(inputs, k) && j < |inputs|
    ensures Step(env, ExpectedState(env, inputs, k, j), inputs[j])
         == Stepped(ExpectedState(env, inputs, k, j + 1), ExpectedEvent(env, inputs, k, j))
  {
    FramesOfSnoc(inputs, j);
    if j == 0 {
      assert inputs[..0] == [];
    }
  }

  /** The run of the whole stream is the expected trace. */
  lemma EndpointTrace<S>(env: Env, inputs: seq<Input<S>>, k: nat)
    requires env.threshold >= 0 && SpeechThenSilence(inputs, k)
    ensures Run(env, Idle(), inputs)
         == Trace(ExpectedState(env, inputs, k, |inputs|), ExpectedEvents(env, inputs, k, |inputs|))
  {
    var n := |inputs|;
    var states := seq(n + 1, j requires 0 <= j <= n => ExpectedState(env, inputs, k, j));
    var events := ExpectedEvents(env, inputs, k, n);
    forall j | 0 <= j < n
      ensures Step(env, states[j], inputs[j]) == Stepped(states[j + 1], events[j])
    {
      EndpointStep(env, inputs, k, j);
    }
    RunFollows(env, Idle(), inputs, states, events);
  }

  /** Endpointing: after `k >= 1` speech frames and then only non-speech
      frames, the turn ends exactly once, on the (threshold + 1)-th
      non-speech frame, and the transcriber is handed the in-order
      concatenation of exactly `k + threshold + 1` frames; the engine is idle
      afterwards. With fewer non-speech frames the turn is still open, every
      frame buffered. */
  lemma Endpointing<S>(env: Env, inputs: seq<Input<S>>, k: nat)
    requires env.threshold >= 0 && SpeechThenSilence(inputs, k)
    ensures var tr := Run(env, Idle(), inputs);
      var e := k + env.threshold;
      && (forall i :: 0 <= i < |inputs| && tr.events[i].Ended? ==> i == e)
      && (|inputs| > e ==>
            && tr.events[e].Ended?
            && tr.events[e].utterance == FramesOf(inputs[..e + 1])
            && |tr.events[e].utterance| == k + env.threshold + 1
            && tr.events[e].turn == ProcessTurn(env.profile, env.filter, tr.events[e].utterance, inputs[e].answers)
            && |tr.events[e].turn.calls| >= 1
            && tr.events[e].turn.calls[0] == Transcribe(Flatten(FramesOf(inputs[..e + 1])))
            && tr.state == Idle())
      && (|inputs| <= e ==> tr.state == State(true, |inputs| - k, FramesOf(inputs)))
  {
    EndpointTrace(env, inputs, k);
    EndedOnlyAt(env, inputs, k);
    if |inputs| > k + env.threshold {
      EndedTurn(env, inputs, k);
    }
  }

  /** In the expected trace only frame `k + threshold` ends a turn. */
  lemma EndedOnlyAt<S>(env: Env, inputs: seq<Input<S>>, k: nat)
    requires env.threshold >= 0
    ensures var es := ExpectedEvents(env, inputs, k, |inputs|);
      forall i :: 0 <= i < |inputs| && es[i].Ended? ==> i == k + env.threshold
  {
  }

  /** The turn the expected trace ends: the first `k + threshold + 1` frames,
      handed in order to the transcriber. */
  lemma EndedTurn<S>(env: Env, inputs: seq<Input<S>>, k: nat)
    requires env.threshold >= 0 && |inputs| > k + env.threshold
    ensures var e := k + env.threshold;
      var ev := ExpectedEvents(env, inputs, k, |inputs|)[e];
      && ev.Ended?
      && ev.utterance == FramesOf(inputs[..e + 1])
      && |ev.utterance| == e + 1
      && ev.turn == ProcessTurn(env.profile, env.filter, ev.utterance, inputs[e].answers)
      && |ev.turn.calls| >= 1
      && ev.turn.calls[0] == Transcribe(Flatten(FramesOf(inputs[..e + 1])))
  {
    var e := k + env.threshold;
    assert ExpectedEvents(env, inputs, k, |inputs|)[e] == ExpectedEvent(env, inputs, k, e);
  }

  /** A pause of at most the threshold between speech frames does not end the
      turn: the count returns to 0 and every frame, pause included, stays
      buffered. */
  lemma {:induction false} PauseKeepsTurn<S>(env: Env, s: State<S>, inputs: seq<Input<S>>)
    requires Inv(env.threshold, s) && s.recording
    requires |inputs| >= 1 && inputs[|inputs| - 1].verdict == Speech
    requires forall i :: 0 <= i < |inputs| - 1 ==> !IsSpeech(inputs[i].verdict)
    requires s.silence + |inputs| - 1 <= env.threshold
    ensures Run(env, s, inputs).state == State(true, 0, s.frames + FramesOf(inputs))
    ensures forall i :: 0 <= i < |inputs| ==> Run(env, s, inputs).events[i] == Buffered
  {
    var m := |inputs| - 1;
    PausePrefix(env, s, inputs, m);
    RunSnoc(env, s, inputs, m);
    FramesOfSnoc(inputs, m);
    assert inputs[..m + 1] == inputs;
  }

  lemma {:induction false} PausePrefix<S>(env: Env, s: State<S>, inputs: seq<Input<S>>, j: nat)
    requires s.recording
    requires j <= |inputs|
    requires forall i :: 0 <= i < j ==> !IsSpeech(inputs[i].verdict)
    requires s.silence + j <= env.threshold
    ensures Run(env, s, inputs[..j]).state == State(true, s.silence + j, s.frames + FramesOf(inputs[..j]))
    ensures forall i :: 0 <= i < j ==> Run(env, s, inputs[..j]).events[i] == Buffered
    decreases j
  {
    if j == 0 {
      assert inputs[..0] == [];
    } else {
      PausePrefix(env, s, inputs, j - 1);
      RunSnoc(env, s, inputs, j - 1);
      FramesOfSnoc(inputs, j - 1);
      var prev := Run(env, s, inputs[..j - 1]);
      assert !IsSpeech(inputs[j - 1].verdict);
      assert Step(env, prev.state, inputs[j - 1]).event == Buffered;
    }
  }

  /** The main loop as written: three local variables updated in place, one
      frame per iteration. It computes exactly the fold of `Step`. */
  method Listen<S>(env: Env, inputs: seq<Input<S>>) returns (state: State<S>, events: seq<Event<S>>)
    ensures Trace(state, events) == Run(env, Idle(), inputs)
    ensures Inv(env.threshold, state)
  {
    var frames: seq<seq<S>> := [];
    var isRecording := false;
    var silenceCounter: nat := 0;
    events := [];
    var i := 0;
    while i < |inputs|
      invariant 0 <= i <= |inputs|
      invariant Run(env, Idle(), inputs[..i]) == Trace(State(isRecording, silenceCounter, frames), events)
      invariant Inv(env.threshold, State(isRecording, silenceCounter, frames))
    {
      var x := inputs[i];
      var event: Event<S>;
      if IsSpeech(x.verdict) {
        isRecording := true;
        silenceCounter := 0;
        frames := frames + [x.frame];
        event := Buffered;
      } else if isRecording {
        silenceCounter := silenceCounter + 1;
        frames := frames + [x.frame];
        if silenceCounter > env.threshold {
          var turn := ProcessTurn(env.profile, env.filter, frames, x.answers);
          event := Ended(frames, turn);
          frames := [];
          isRecording := false;
          silenceCounter := 0;
        } else {
          event := Buffered;
        }
      } else {
        event := Discarded;
      }
      RunSnoc(env, Idle(), inputs, i);
      events := events + [event];
      i := i + 1;
    }
    assert inputs[..i] == inputs;
    state := State(isRecording, silenceCounter, frames);
  }
}

# VirtualAssistant turn-taking core, in Dafny

A model of the core of a local voice assistant: the endpointing loop that
turns a stream of microphone frames, each judged by a voice-activity
detector, into utterances; the one-shot pipeline that runs when a turn ends
(transcribe, ask the language model with a localized fallback, sanitise,
speak); the language profile registry; the speech text filter; and the
shutdown sequence.

Modules (one file each):

- `Text` (`text.dfy`): Python's `str.isspace`, `str.split()`, `' '.join`
  and `str.strip()` on `seq<char>`.
- `SpeechFilter` (`speech_filter.dfy`): the fourteen patterns of
  `SpeechFilter.filter`, each a scanner that replaces every leftmost,
  non-overlapping match by `' '`, then the whitespace normalisation.
- `Providers` (`providers.dfy`): what the engine observes of its providers.
  A call returns or raises (`Reply`, `Status`), a detector verdict is
  `Speech`, `NoSpeech` or `DetectorError`, plus the audio read fallback and
  the Whisper adapter.
- `Languages` (`languages.dfy`): the `LANGUAGE_CONFIGS` table with its
  exact strings and the English fallback lookup. The two keys of
  `error_messages` are the datatype `ErrorKind`, and `Profile` is a profile
  that has the `processing_error` message the pipeline may voice.
- `Pipeline` (`pipeline.dfy`): `process_recording`, `get_response`,
  `speak_response` and the endpoint branch of the loop. A turn records the
  provider calls it made, in order.
- `Engine` (`engine.dfy`): the loop state (`is_recording`,
  `silence_counter`, `frames`), the pure `Step`, its fold `Run` over a
  finite frame sequence, the loop written imperatively (`Listen`) and the
  endpointing lemmas.
- `Lifecycle` (`lifecycle.dfy`): `cleanup` and the start/loop/cleanup shape
  of `run`.
- `Scenario` (`scenario.dfy`): the default 16 kHz / 512-sample
  configuration worked through one turn.

Providers are oracles. Each input frame carries the detector's verdict and
the answers the transcriber, the language model and the speaker give if
that frame ends a turn. The text filter is a function parameter
`string -> Reply`; `Pipeline.SpeechFilterProvider` plugs in the modelled
filter. Samples are an opaque type parameter, and `np.concatenate` is
sequence concatenation (`Pipeline.Flatten`).

Behaviour of the code worth knowing when reading the model:

- The end-of-turn threshold is `int(sample_rate / chunk_size)`, a
  truncation. With the defaults it is 31.
- Forty speech frames then silence end the turn on the 32nd non-speech
  frame, with 72 frames buffered (`Scenario.DefaultTurn`).
- A turn is abandoned only on a falsy transcript (`None` or `""`). A
  whitespace-only transcript from some other transcriber would go on to the
  language model. The Whisper adapter strips its output, so with Whisper
  such a transcript is `""` (`Providers.WhisperTranscribe`).
- `cleanup` is not unconditional. `start_stream` is called before the
  `try`, so if it raises, `cleanup` never runs. A provider whose `cleanup`
  raises stops the providers after it from being released
  (`Lifecycle.RunSession`, `Lifecycle.Cleanup`).

## Model

| member | source | states |
|---|---|---|
| Engine.Configure | core/assistant.py:47-57 | The assistant resolves its language once, when it is built: a registered code gets its own profile, any other code the English one, and the profile is well formed. The end-of-turn threshold is the truncated quotient of sample rate and chunk size, and the text filter is the one supplied. |
| Engine.SilenceThreshold | core/assistant.py:125 | `int(sample_rate / chunk_size)` truncates toward zero. The magnitude is the largest `q` whose product with the chunk size's magnitude stays within the rate's magnitude. The sign is positive only when the operands have the same sign. |
| Engine.IsSpeech | core/assistant.py:59-67 | Only a detected-speech verdict counts as speech. A detector exception counts as silence. |
| Engine.Step | core/assistant.py:115-140 | One pass of the loop. It keeps the buffer/counter invariant. It discards the frame, changing nothing, exactly when idle and not speech. It ends the turn exactly when recording, not speech, and the incremented counter exceeds the threshold. The pipeline then runs on the buffer plus this frame, with the profile resolved at construction and this frame's answers, and the state returns to idle whatever the turn's outcome. Otherwise the frame is appended, and the counter is reset on speech or incremented on silence. |
| Engine.Run | core/assistant.py:107-143 | Over any finite frame stream: one event per frame, and the invariant holds at the end (not recording means empty buffer and counter 0; recording means non-empty buffer, counter below its length and within the threshold). |
| Engine.Listen | core/assistant.py:107-143 | The loop as written, with three mutable locals, computes exactly the fold `Run` of `Step` from the idle state, and ends in a state satisfying the invariant. |
| Engine.SilenceWhileIdle | core/assistant.py:116-122 | From idle, a stream of any length with no speech frame discards every frame, never reaches the transcriber, and leaves the engine idle with an empty buffer. |
| Engine.DetectorErrorIsNoSpeech | core/assistant.py:61-67 | A detector exception drives the state machine exactly as a no-speech verdict does. |
| Engine.RunFollows | core/assistant.py:110-143 | A run is fixed by its steps: if each frame takes one given state to the next with a given event, the run ends in the last of those states with exactly those events. |
| Engine.EndpointTrace | core/assistant.py:116-140 | For `k >= 1` speech frames then only non-speech frames, the run is the expected trace. Every frame is buffered until frame `k + T`, the turn ends there on frames `0..k + T`, and every later frame is discarded. The final state is recording with the non-speech count if the stream stops before `k + T`, and idle otherwise. |
| Engine.Endpointing | core/assistant.py:116-140 | For `k >= 1` speech frames then silence, the turn ends exactly once, on the `(T + 1)`-th non-speech frame. The transcriber receives the in-order concatenation of exactly `k + T + 1` frames, the turn runs on that frame's answers, and the engine is idle afterwards. With fewer non-speech frames the turn is still open with the count of non-speech frames. |
| Engine.PauseKeepsTurn | core/assistant.py:116-125 | A pause of at most `T` non-speech frames followed by speech does not end the turn. The counter returns to 0 and every frame, pause frames included, stays buffered in order. |
| Pipeline.ProcessRecording | core/assistant.py:69-80 | An empty buffer gives `None` without calling the transcriber. Otherwise the transcriber is called once on the concatenated frames, and its exception gives `None`. |
| Pipeline.GetResponse | core/assistant.py:82-88 | The model is called once with the transcript and the profile's system prompt. Its answer is the reply; if it raises, the profile's `processing_error` message is. |
| Pipeline.SpeakResponse | core/assistant.py:90-97 | The reply is sanitised. Only if the filter returns is the filtered text spoken, in the profile's language. Filter and speaker exceptions are swallowed, and the turn counts as voiced only when both succeeded. |
| Pipeline.ProcessTurn | core/assistant.py:126-136 | The calls of a turn are a prefix of transcribe, respond, sanitise, speak. The turn is answered exactly when the transcript is a non-empty string. An abandoned turn makes at most the transcriber call. An answered turn responds to the transcript and sanitises the model's reply or the fallback message. It speaks exactly when the filter returns, and speaks the filtered reply in the profile's language. |
| Pipeline.SpeaksAtMostOnce | core/assistant.py:126-136 | A turn calls the speaker at most once, and only as its fourth and last call. |
| Pipeline.ModelFailureSpeaksFallback | core/assistant.py:82-97 | When the model raises, the turn's calls are exactly: transcribe the frames, ask the model, sanitise the `processing_error` message, speak the filtered message in the profile's language. |
| Pipeline.SpokenTextIsClean | core/assistant.py:90-94 | With the speech filter as the text filter, every answered turn speaks. What it speaks is the filtered reply: trimmed, single-spaced, without `<` and without characters beyond U+FFFF. |
| Pipeline.Flatten | core/assistant.py:75 | `np.concatenate(frames)`: the samples of every frame, frame by frame in buffer order. |
| Pipeline.FlattenLength | core/assistant.py:75 | Concatenating frames of `n` samples each yields the frame count times `n` samples. |
| Languages.RegistryWellFormed | config/language_config.py:12-31 | The table's keys are exactly `en` and `it`, and the default is one of them. Each profile's code and transcriber language equal its key, and each defines both error messages. |
| Languages.Resolve | core/assistant.py:53-57 | Resolution is total. A known code yields its own profile, any other code the English one. The result is a well-formed registered profile with a `processing_error` message. |
| Languages.ResolveIdempotent | core/assistant.py:53-57 | Resolving the code of a resolved profile gives the same profile: the fallback lands on a registered code. |
| Text.IsSpace | providers/filter/speech_filter.py:34 | The code points `str.isspace()` and the `\s` of a `str` pattern accept: U+0009..U+000D, U+001C..U+0020, U+0085, U+00A0, U+1680, U+2000..U+200A, U+2028, U+2029, U+202F, U+205F and U+3000. |
| Text.Split | providers/filter/speech_filter.py:42 | `str.split()` yields non-empty whitespace-free words which, woven with whitespace-only gaps that are non-empty between two words, give back the text. So the words are the maximal whitespace-free runs, in order. There are none exactly when the text is all whitespace. |
| Text.SplitCharacterized | providers/filter/speech_filter.py:42 | A sequence of strings is the split of a text exactly when its strings are words and they, woven with such gaps, make the text. The split is therefore unique. |
| Text.GappedIsSplit | providers/filter/speech_filter.py:42 | Any words woven with whitespace-only gaps, non-empty between words, into a text are that text's split. |
| Text.Join | providers/filter/speech_filter.py:42 | `' '.join(ws)`: the words in order, one `' '` between consecutive words, nothing at either end. |
| Text.SplitJoin | providers/filter/speech_filter.py:42 | Joining words with single spaces and splitting again recovers the same words. |
| Text.Normalize | providers/filter/speech_filter.py:42 | `' '.join(text.split())` is single-spaced with no edge space, introduces no new character, keeps the same words, and is empty exactly for all-whitespace text. |
| Text.NormalizeFixes | providers/filter/speech_filter.py:42 | Text already in that canonical shape is left unchanged by the normalisation. |
| Text.Strip | providers/filter/speech_filter.py:43 | `str.strip()` returns the contiguous middle of the text, with whitespace-only runs removed on both sides and no whitespace at either end. Text without edge whitespace is returned unchanged. |
| SpeechFilter.MatchAt | providers/filter/speech_filter.py:9-35 | For each of the fourteen patterns, the length of the match the regular-expression engine finds at the start of the text, 0 for none, never beyond the text. |
| SpeechFilter.MatchAtSound | providers/filter/speech_filter.py:9-35 | The match found at a position is a word of the pattern's language, written out separately as `InLanguage` for each of the fourteen patterns. |
| SpeechFilter.MatchAtLongest | providers/filter/speech_filter.py:9-35 | No longer prefix is in the pattern's language than the match found, and some match is found whenever a prefix is in the language. The matcher therefore returns the longest matching prefix, or 0 exactly when there is none. |
| SpeechFilter.Sub | providers/filter/speech_filter.py:38-39 | One `re.sub(pattern, ' ', text)` returns the text with some non-empty runs each replaced by one `' '` and every other character kept, in order (`Text.Redacted`). Every character of the result is `' '` or occurs in the input. |
| SpeechFilter.Apply | providers/filter/speech_filter.py:38-39 | Applying the patterns in sequence returns the text with some non-empty runs each replaced by one `' '` and every other character kept, in order. Every character of the result is `' '` or occurs in the input. |
| Text.RedactionTrans | providers/filter/speech_filter.py:38-39 | Redacting a redacted text is again a redaction of the original, so the pattern loop keeps the one-run-one-space shape across all fourteen substitutions. |
| SpeechFilter.Filter | providers/filter/speech_filter.py:5-43 | The output is trimmed, single-spaced, and uses no whitespace but `' '`. It consists of input characters and spaces. It holds no character beyond U+FFFF and no `<`. Empty or whitespace-only input gives `""`. |
| SpeechFilter.SubUntouched | providers/filter/speech_filter.py:38-39 | A pattern that matches nowhere in the text leaves it unchanged. |
| SpeechFilter.AstralCleared | providers/filter/speech_filter.py:11 | After the first pattern no character in U+10000..U+10FFFF remains. |
| SpeechFilter.AngleCleared | providers/filter/speech_filter.py:18 | `>?[_-]?<` matches at every `<` the scan reaches, so no `<` survives it. |
| SpeechFilter.HeartsUnreachable | providers/filter/speech_filter.py:28-29 | Text without `<` is never changed by `<3` or `</3`. |
| SpeechFilter.HeartsNeverFire | providers/filter/speech_filter.py:28-29 | Inside the filter, `<3` and `</3` never change the text, because the sixth pattern already removed every `<`. |
| SpeechFilter.FilterFixedPoint | providers/filter/speech_filter.py:9-43 | Text that no non-whitespace pattern touches and that is already trimmed and single-spaced comes out unchanged. |
| SpeechFilter.SpacesFixSingleSpaced | providers/filter/speech_filter.py:34 | `\s+` leaves text whose only whitespace is lone `' '` unchanged. |
| SpeechFilter.ActionSegmentReplaced | providers/filter/speech_filter.py:22 | `\*[^*]+\*` takes a `*...*` segment with any non-empty, asterisk-free interior at the front of a text as one match. The segment becomes one space, and the scan resumes right after it, whatever follows. |
| SpeechFilter.ActionDropped | providers/filter/speech_filter.py:22 | Through the whole filter: a `*...*` segment in front of a word is removed entirely, leaving the word. This is proved for an interior and a word of lower-case letters other than `x`, which no other pattern touches. |
| SpeechFilter.ActionExample | providers/filter/speech_filter.py:22 | An example: `filter("*smiles* hello")` is `"hello"`. |
| SpeechFilter.PlainWordsKept | providers/filter/speech_filter.py:9-43 | Two lower-case words (without `x`) separated by one space pass through unchanged. |
| Providers.ReadChunk | providers/audio/pyaudio_provider.py:37-47 | A successful read yields its samples. A failed read yields a frame of `chunk_size` zero samples. |
| Providers.WhisperTranscribe | providers/transcription/whisper_provider.py:28-35 | The adapter never raises. Its text is the model's output stripped (`Text.Strip`), and it is `""` on failure or for all-whitespace model output, non-empty otherwise. |
| Providers.StripEmptyIffAllSpace | providers/transcription/whisper_provider.py:32 | `strip()` yields `""` exactly for all-whitespace text. |
| Lifecycle.Release | core/assistant.py:153-156 | Releasing in order stops at the first provider whose cleanup raises. The calls made are the order's prefix up to and including that provider, and its exception propagates. With no failure every provider is called. |
| Lifecycle.Cleanup | core/assistant.py:150-156 | `cleanup` clears the running flag. It calls audio, detector, transcriber and speaker cleanup in that order, never the model's or the filter's. It stops at the first raising provider, and completes all four exactly when none raises. |
| Lifecycle.CleanupStopsAtFirstFailure | core/assistant.py:150-156 | If the `n`-th provider of the release order is the first to raise, exactly the first `n + 1` are called and that provider's exception propagates. |
| Lifecycle.RunSession | core/assistant.py:99-148 | Shutdown happens exactly when the stream started. A start failure skips both the loop and `cleanup`. Otherwise the session is the loop's run over the frames from idle (one event per frame, ending in the invariant), followed by `cleanup` with the providers' failures, which leaves the assistant stopped. |
| Scenario.DefaultEnv | core/assistant.py:125 | At 16000 Hz in chunks of 512 samples the threshold is 31 frames. An assistant built for `en` runs with the English profile. |
| Scenario.HelloTurn | core/assistant.py:126-136 | A turn transcribed as "hello" and answered "hi there" makes all four calls and speaks "hi there" unchanged, in the profile's language and after asking the model with the profile's system prompt. |
| Scenario.DefaultTurn | core/assistant.py:116-140 | With the defaults, 40 speech frames then 35 non-speech frames end exactly one turn, on frame 71, with 72 frames buffered. The turn speaks the reply in English, and the engine is idle afterwards. |

## Left out

- The endless `while self.is_running` loop, `sleep`, `KeyboardInterrupt`, logging and `print` are not modelled. The loop is modelled over a finite frame sequence, which is how long it runs before it is interrupted.
- Float samples and the detector's 0.5 probability threshold are not modelled. The silero detector is not part of this model. Samples are an opaque type, and each frame carries its verdict.
- SpeechFilter.ActionDropped: through the whole filter, only for lower-case interiors and words without `x`. Other characters may start matches of the earlier emoticon patterns, and the filter-wide result would then depend on them. The pattern-level fact for any interior is `SpeechFilter.ActionSegmentReplaced`.
- Engine.SilenceThreshold: computed on integers. Python divides in floating point before truncating, which differs only for operands beyond 2^53.
- Engine.SilenceThreshold: a zero `chunk_size` raises `ZeroDivisionError` in the source; the model requires a non-zero chunk size instead.
- Pipeline.ProcessRecording: an exception from `np.concatenate` (frames of mismatched shape) is folded into the transcriber's `Raised` answer. The model still records the transcribe call for it.
- Providers.ReadChunk: reading before `start_stream` raises `RuntimeError`. The loop only reads after starting the stream, so that path is not modelled.
- Whisper, Ollama, gTTS and PyAudio internals are left out. Their observable behaviour is supplied per frame as `Answers`: the transcript reply, the model reply and the playback status. The Ollama, gTTS and silero providers are not part of this model.
- Cleanup idempotence is not modelled, because the code does not establish it: audio cleanup terminates the PyAudio instance unconditionally.
- `main.py` (wiring and process entry) and the `dep_test` smoke scripts are not modelled.
- `print_filtered` (a debugging aid) is not modelled.
- Regular-expression flags: patterns are modelled on `str` semantics with Python's Unicode `\s`. The model has no byte-string or locale flags, because the source uses none.

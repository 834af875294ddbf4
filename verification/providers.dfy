/**
 * The capability providers the assistant is wired to, reduced to what the
 * turn-taking engine can observe of them: a provider call either returns or
 * raises, and the answers are supplied from outside the model.
 */
module Providers {
  import Text

  datatype Option<+T> = None | Some(value: T)

  /** A provider call that returns text: the text, or an exception. */
  datatype Reply = Returned(value: string) | Raised

  /** A provider call that returns nothing: it completed, or it raised. */
  datatype Status = Completed | Failed

  /** What calling `is_speech` on one frame produced. */
  datatype Verdict = Speech | NoSpeech | DetectorError

  /** The six providers an assistant holds. */
  datatype Provider = Audio | Vad | Transcriber | Llm | TextFilter | Tts

  /** `PyAudioProvider.read_chunk` on a started stream: the samples read, or
      a frame of `chunkSize` zero samples when the read fails (`None`). */
  function ReadChunk<S>(chunkSize: nat, zero: S, read: Option<seq<S>>): (frame: seq<S>)
    ensures read.Some? ==> frame == read.value
    ensures read.None? ==> |frame| == chunkSize
    ensures read.None? ==> forall i :: 0 <= i < |frame| ==> frame[i] == zero
  {
    match read
    case Some(samples) => samples
    case None => seq(chunkSize, _ => zero)
  }

  /** `WhisperProvider.transcribe`: the model's text stripped of surrounding
      whitespace, or "" when the model fails (`None`); it never raises. */
  function WhisperTranscribe(raw: Option<string>): (r: Reply)
    ensures r.Returned?
    ensures |r.value| > 0 ==> !Text.IsSpace(r.value[0]) && !Text.IsSpace(r.value[|r.value| - 1])
    ensures raw.None? ==> r.value == ""
    ensures raw.Some? && Text.AllSpace(raw.value) ==> r.value == ""
    ensures raw.Some? && !Text.AllSpace(raw.value) ==> |r.value| > 0
    ensures raw.Some? ==> r.value == Text.Strip(raw.value)
  {
    match raw
    case None => Returned("")
    case Some(text) =>
      var t := Text.Strip(text);
      StripEmptyIffAllSpace(text);
      Returned(t)
  }

  /** `strip()` empties a text exactly when the text is all whitespace. */
  lemma StripEmptyIffAllSpace(s: string)
    ensures Text.Strip(s) == "" <==> Text.AllSpace(s)
  {
    var a := Text.LeadLen(s);
    var r := Text.Strip(s);
    if r == "" {
      assert a == |s|;
      assert s[..a] == s;
    } else {
      assert !Text.IsSpace(s[a]);
    }
  }
}

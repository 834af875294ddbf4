/**
 * Start-up and shutdown around the main loop: `run` starts the audio stream
 * before its `try`, loops until interrupted, and `cleanup` (in `finally`)
 * clears the running flag and releases the providers in a fixed order.
 */
module Lifecycle {
  import opened Providers
  import Engine

  /** The providers `cleanup` releases, in order; the language model and the
      text filter hold nothing to release and are not called. */
  const ReleaseOrder: seq<Provider> := [Audio, Vad, Transcriber, Tts]

  /** After `cleanup`: the running flag, the providers whose `cleanup` was
      called in call order, and the one that raised, if any. */
  datatype Shutdown = Shutdown(running: bool, called: seq<Provider>, raised: Option<Provider>)

  /** No provider of `order` before position `n` fails. */
  predicate NoFailureBefore(order: seq<Provider>, fails: Provider -> bool, n: nat)
    requires n <= |order|
  {
    forall i :: 0 <= i < n ==> !fails(order[i])
  }

  /** Calling `cleanup` on each provider of `order` in turn until one raises:
      the calls made are the prefix of `order` up to and including the first
      failing provider, and that provider's exception is what propagates. */
  function Release(order: seq<Provider>, fails: Provider -> bool): (r: (seq<Provider>, Option<Provider>))
    ensures r.0 <= order
    ensures r.1.None? <==> r.0 == order && NoFailureBefore(order, fails, |order|)
    ensures r.1.Some? ==>
      && |r.0| > 0
      && r.1.value == r.0[|r.0| - 1]
      && fails(r.1.value)
      && NoFailureBefore(order, fails, |r.0| - 1)
    decreases |order|
  {
    if order == [] then ([], None)
    else if fails(order[0]) then ([order[0]], Some(order[0]))
    else
      var rest := Release(order[1..], fails);
      assert forall i :: 1 <= i <= |rest.0| ==> order[i] == order[1..][i - 1];
      ([order[0]] + rest.0, rest.1)
  }

  /** `VoiceAssistant.cleanup`. */
  function Cleanup(fails: Provider -> bool): (r: Shutdown)
    ensures !r.running
    ensures r.called <= ReleaseOrder
    ensures Llm !in r.called && TextFilter !in r.called
    ensures r.raised.None? <==> forall p :: p in ReleaseOrder ==> !fails(p)
    ensures r.raised.None? ==> r.called == ReleaseOrder
    ensures r.raised.Some? ==>
      && |r.called| > 0
      && r.called[|r.called| - 1] == r.raised.value
      && fails(r.raised.value)
      && forall i :: 0 <= i < |r.called| - 1 ==> !fails(r.called[i])
  {
    var (called, raised) := Release(ReleaseOrder, fails);
    PrefixOmits(called);
    ReleaseOrderClean(fails);
    Shutdown(false, called, raised)
  }

  /** A prefix of the release order calls neither the language model nor the
      text filter. */
  lemma PrefixOmits(called: seq<Provider>)
    requires called <= ReleaseOrder
    ensures Llm !in called && TextFilter !in called
  {
    forall i | 0 <= i < |called|
      ensures called[i] != Llm && called[i] != TextFilter
    {
      assert called[i] == ReleaseOrder[i];
    }
  }

  /** Nothing fails before the end of the release order exactly when no
      provider in it fails. */
  lemma ReleaseOrderClean(fails: Provider -> bool)
    ensures NoFailureBefore(ReleaseOrder, fails, |ReleaseOrder|) <==> forall p :: p in ReleaseOrder ==> !fails(p)
  {
    if NoFailureBefore(ReleaseOrder, fails, |ReleaseOrder|) {
      forall p | p in ReleaseOrder
        ensures !fails(p)
      {
        var i :| 0 <= i < |ReleaseOrder| && ReleaseOrder[i] == p;
      }
    }
  }

  /** A provider raising in `cleanup` stops the rest: the calls end at the
      first failing provider of the release order. */
  lemma {:induction false} CleanupStopsAtFirstFailure(fails: Provider -> bool, n: nat)
    requires n < |ReleaseOrder| && fails(ReleaseOrder[n])
    requires NoFailureBefore(ReleaseOrder, fails, n)
    ensures Cleanup(fails).called == ReleaseOrder[..n + 1]
    ensures Cleanup(fails).raised == Some(ReleaseOrder[n])
  {
    var r := Cleanup(fails);
    var m := |r.called| - 1;
    assert r.raised.Some?;
    assert r.called == ReleaseOrder[..m + 1];
    assert fails(ReleaseOrder[m]) && NoFailureBefore(ReleaseOrder, fails, m);
    assert m == n;
  }

  /** What a call of `run` amounts to: whether the stream started, the trace
      of the loop over the frames read before it was interrupted, and the
      shutdown. */
  datatype Session<S> = Session(trace: Option<Engine.Trace<S>>, shutdown: Option<Shutdown>)

  /** `VoiceAssistant.run`: a failure to start the stream propagates before
      the `try`, so neither the loop nor `cleanup` runs; otherwise the loop
      runs over the frames and `cleanup` always follows. */
  function RunSession<S>(env: Engine.Env, start: Status, inputs: seq<Engine.Input<S>>, fails: Provider -> bool): (s: Session<S>)
    ensures s.shutdown.Some? <==> start == Completed
    ensures s.trace.Some? <==> start == Completed
    ensures s.trace.Some? ==>
      && |s.trace.value.events| == |inputs|
      && Engine.Inv(env.threshold, s.trace.value.state)
    ensures s.shutdown.Some? ==> !s.shutdown.value.running && s.shutdown.value.called <= ReleaseOrder
    ensures start == Completed ==>
      && s.trace == Some(Engine.Run(env, Engine.Idle(), inputs))
      && s.shutdown == Some(Cleanup(fails))
  {
    match start
    case Failed => Session(None, None)
    case Completed => Session(Some(Engine.Run(env, Engine.Idle(), inputs)), Some(Cleanup(fails)))
  }
}

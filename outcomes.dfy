/** What a whole run of the worker guarantees: how a transfer ends, what is left on the
    disk, and which signals the front end receives. */
module Outcomes {
  import opened Common
  import opened Naming
  import opened Transfer

  /** The extractor, the sidecar, its fields, the server and the output directory all
      let the transfer get as far as the chunk loop. */
  predicate ReachesLoop(files: map<string, seq<byte>>, dirs: set<string>, dir: string, env: Environment)
  {
    env.probe.ProbeOk? &&
    Sidecars(env.listing) != [] && Sidecars(env.listing)[0] in files &&
    env.metadata.Info? && env.metadata.url.Some? && env.metadata.fulltitle.Some? &&
    env.response.Served? && env.response.contentLength.Some? &&
    FitsSignal(env.response.contentLength.value) &&
    DirectoryExists(dirs, dir)
  }

  function Sidecar(env: Environment): string
    requires Sidecars(env.listing) != []
  {
    Sidecars(env.listing)[0]
  }

  function Title(env: Environment): string
    requires env.metadata.Info? && env.metadata.fulltitle.Some?
  {
    env.metadata.fulltitle.value
  }

  function Declared(env: Environment): int
    requires env.response.Served? && env.response.contentLength.Some?
  {
    env.response.contentLength.value
  }

  /** Why the chunk loop of this environment stops. */
  function StopOf(cancelled: bool, env: Environment): Stop
    requires env.response.Served? && env.response.contentLength.Some?
  {
    LoopStop(|env.response.chunks|, CancelPoint(cancelled, env.cancelAt), Declared(env), env.response.end)
  }

  predicate NoProgress(evs: seq<Event>)
  {
    forall i :: 0 <= i < |evs| ==> !evs[i].Progress?
  }

  /** Events around the loop's trace add no percentage and keep the trace's order. */
  lemma FramedProgress(pre: Event, t: seq<Event>, post: seq<Event>, lo: int, hi: int)
    requires !pre.Progress? && NoProgress(post)
    requires ProgressWithin(t, lo, hi) && ProgressNonDecreasing(t)
    ensures ProgressWithin([pre] + t + post, lo, hi) && ProgressNonDecreasing([pre] + t + post)
  {
    var all := [pre] + t + post;
    assert all[0] == pre;
    assert forall i :: 1 <= i <= |t| ==> all[i] == t[i - 1];
    assert forall i :: |t| < i < |all| ==> all[i] == post[i - 1 - |t|];
  }

  /** The loop's part of the run: the declared size, then the progress trace. */
  lemma LoopEvents(files: map<string, seq<byte>>, dirs: set<string>, dir: string, cancelled: bool,
                   env: Environment)
    requires ReachesLoop(files, dirs, dir, env)
    ensures var e := Attempt(files, dirs, dir, cancelled, env);
            var stop := StopOf(cancelled, env);
            e.events == [TotalSize(Declared(env))] + Reported(env.response.chunks, stop, Declared(env)) +
                        (if stop.Completed? then [SuccessMessage] else [])
  {
  }

  /** Without a sidecar in the listing the transfer fails with the info-JSON message and
      has touched nothing: no size was reported and the disk is as before. */
  lemma NoSidecarFailsEarly(files: map<string, seq<byte>>, dirs: set<string>, dir: string, cancelled: bool,
                            env: Environment)
    requires env.probe.ProbeOk?
    requires forall k :: 0 <= k < |env.listing| ==> !IsSidecar(env.listing[k])
    ensures var e := Attempt(files, dirs, dir, cancelled, env);
            e.files == files && e.raised == Some(InfoJsonMissing) &&
            RunEvents(e) == [ErrorMessage("Failed to locate info JSON file.")]
  {
    SidecarsFilter(env.listing);
  }

  /** A transfer that fails before the loop leaves the disk and the cancellation flag
      unchanged; the only signal it can emit before its error is the declared size. */
  lemma EarlyFailureTouchesNothing(files: map<string, seq<byte>>, dirs: set<string>, dir: string,
                                   cancelled: bool, env: Environment)
    requires !ReachesLoop(files, dirs, dir, env)
    ensures var e := Attempt(files, dirs, dir, cancelled, env);
            e.files == files && e.raised.Some? && e.cancelled == cancelled &&
            |e.events| <= 1 && forall i :: 0 <= i < |e.events| ==> e.events[i].TotalSize?
  {
  }

  /** The loop stops on cancellation at iteration k exactly when the flag is first seen set
      there, before the end of the body, and no earlier percentage divided by zero. */
  lemma CancelledIff(cancelled: bool, env: Environment, k: nat)
    requires env.response.Served? && env.response.contentLength.Some?
    ensures StopOf(cancelled, env) == CancelledAt(k) <==>
            CancelPoint(cancelled, env.cancelAt) == Some(k) && k <= |env.response.chunks| &&
            (Declared(env) != 0 || k == 0)
  {
  }

  /** The loop completes exactly when no cancellation is seen up to the end of the body,
      no percentage divides by zero, and the final read reports the end of the stream. */
  lemma CompletedIff(cancelled: bool, env: Environment)
    requires env.response.Served? && env.response.contentLength.Some?
    ensures var c := CancelPoint(cancelled, env.cancelAt);
            StopOf(cancelled, env) == Completed <==>
            (c.None? || c.value > |env.response.chunks|) &&
            (Declared(env) != 0 || |env.response.chunks| == 0) &&
            env.response.end.EndOfStream?
  {
  }

  /** Cancellation does not skip finalisation: the sidecar is removed, the rename finds no
      temporary file, and the run ends with the info-JSON error, never with success. The
      chunks after the cancellation are never read, the temporary file is gone, and every
      other path, the final one included, is as before. */
  lemma CancellationNeverSucceeds(files: map<string, seq<byte>>, dirs: set<string>, dir: string,
                                  cancelled: bool, env: Environment, k: nat)
    requires ReachesLoop(files, dirs, dir, env)
    requires StopOf(cancelled, env) == CancelledAt(k)
    ensures var e := Attempt(files, dirs, dir, cancelled, env);
            var temp, sidecar := TempPath(dir, Title(env)), Sidecar(env);
            e.raised == Some(InfoJsonMissing) && e.cancelled &&
            RunEvents(e)[|RunEvents(e)| - 1] == ErrorMessage("Failed to locate info JSON file.") &&
            SuccessMessage !in RunEvents(e) &&
            temp !in e.files && sidecar !in e.files &&
            (forall p :: p != temp && p != sidecar ==> (p in e.files <==> p in files)) &&
            (forall p :: p != temp && p != sidecar && p in files ==> e.files[p] == files[p]) &&
            e.events == [TotalSize(Declared(env))] +
                        (if k == 0 then [] else Trace(env.response.chunks[..k], Declared(env)))
  {
    var e := Attempt(files, dirs, dir, cancelled, env);
    var size := Declared(env);
    LoopEvents(files, dirs, dir, cancelled, env);
    var t := Reported(env.response.chunks, CancelledAt(k), size);
    var run := RunEvents(e);
    assert run == [TotalSize(size)] + t + [ErrorMessage(Reason(InfoJsonMissing))];
    if size != 0 { TraceHasNoMessage(env.response.chunks[..k], size); }
    NoSuccessInQuietTrace(t);
    forall i | 0 <= i < |run| ensures run[i] != SuccessMessage {
      if 1 <= i <= |t| { assert run[i] == t[i - 1]; }
    }
  }

  /** A sequence without messages holds no success message. */
  lemma {:induction false} NoSuccessInQuietTrace(t: seq<Event>)
    requires MessageCount(t) == 0
    ensures forall i :: 0 <= i < |t| ==> t[i] != SuccessMessage
  {
    if t != [] {
      var u := t[..|t| - 1];
      NoSuccessInQuietTrace(u);
      assert forall i :: 0 <= i < |u| ==> t[i] == u[i];
    }
  }

  /** A completed loop delivers: the final path holds every byte of the body in read order,
      the temporary file and the sidecar are gone, nothing else changed, and the run emits
      the declared size, the loop's progress and exactly one message, the success message. */
  lemma CompletionDelivers(files: map<string, seq<byte>>, dirs: set<string>, dir: string,
                           cancelled: bool, env: Environment)
    requires ReachesLoop(files, dirs, dir, env)
    requires StopOf(cancelled, env) == Completed
    ensures var e := Attempt(files, dirs, dir, cancelled, env);
            var chunks := env.response.chunks;
            var temp, final, sidecar := TempPath(dir, Title(env)), FinalPath(dir, Title(env)), Sidecar(env);
            e.raised == None &&
            e.files == (files - {sidecar} - {temp})[final := Concat(chunks)] &&
            |e.files[final]| == TotalLength(chunks) &&
            temp !in e.files && sidecar !in e.files &&
            RunEvents(e) == [TotalSize(Declared(env))] +
                            (if Declared(env) == 0 then [] else Trace(chunks, Declared(env))) +
                            [SuccessMessage] &&
            MessageCount(RunEvents(e)) == 1
  {
    var chunks := env.response.chunks;
    var size := Declared(env);
    SidecarsFilter(env.listing);
    PathsDistinct(dir, Title(env), Sidecar(env));
    ConcatLength(chunks);
    assert chunks[..|chunks|] == chunks;
    LoopEvents(files, dirs, dir, cancelled, env);
    var t := if size == 0 then [] else Trace(chunks, size);
    if size != 0 { TraceHasNoMessage(chunks, size); }
    MessageCountAppend([TotalSize(size)] + t, [SuccessMessage]);
    MessageCountAppend([TotalSize(size)], t);
    assert [SuccessMessage][..0] == [];
  }

  /** The run succeeds exactly when the chunk loop is reached and completes; the success
      message is emitted in exactly those runs. */
  lemma SucceedsIff(files: map<string, seq<byte>>, dirs: set<string>, dir: string, cancelled: bool,
                    env: Environment)
    ensures var e := Attempt(files, dirs, dir, cancelled, env);
            var ok := ReachesLoop(files, dirs, dir, env) && StopOf(cancelled, env) == Completed;
            (e.raised == None <==> ok) &&
            (RunEvents(e)[|RunEvents(e)| - 1] == SuccessMessage <==> ok)
  {
    var e := Attempt(files, dirs, dir, cancelled, env);
    if ReachesLoop(files, dirs, dir, env) {
      LoopEvents(files, dirs, dir, cancelled, env);
    }
  }

  /** Every run ends with exactly one message, and it is the last event. */
  lemma OneTerminalMessage(files: map<string, seq<byte>>, dirs: set<string>, dir: string, cancelled: bool,
                           env: Environment)
    ensures var run := RunEvents(Attempt(files, dirs, dir, cancelled, env));
            |run| > 0 && run[|run| - 1].Message? && MessageCount(run) == 1
  {
    var run := RunEvents(Attempt(files, dirs, dir, cancelled, env));
    if ReachesLoop(files, dirs, dir, env) {
      QuietLoopRun(files, dirs, dir, cancelled, env);
    } else {
      EarlyFailureTouchesNothing(files, dirs, dir, cancelled, env);
    }
    var body, last := run[..|run| - 1], run[|run| - 1];
    if body != [] && !ReachesLoop(files, dirs, dir, env) {
      assert body[..0] == [];
    }
    assert run == body + [last];
    MessageCountAppend(body, [last]);
    assert [last][..0] == [];
  }

  /** In a run that reaches the loop only the last event is a message. */
  lemma QuietLoopRun(files: map<string, seq<byte>>, dirs: set<string>, dir: string, cancelled: bool,
                     env: Environment)
    requires ReachesLoop(files, dirs, dir, env)
    ensures var run := RunEvents(Attempt(files, dirs, dir, cancelled, env));
            |run| > 0 && run[|run| - 1].Message? && MessageCount(run[..|run| - 1]) == 0
  {
    var run := RunEvents(Attempt(files, dirs, dir, cancelled, env));
    LoopEvents(files, dirs, dir, cancelled, env);
    var size := Declared(env);
    var stop := StopOf(cancelled, env);
    var t := Reported(env.response.chunks, stop, size);
    assert run[..|run| - 1] == [TotalSize(size)] + t;
    if size != 0 { TraceHasNoMessage(env.response.chunks[..Written(|env.response.chunks|, stop)], size); }
    MessageCountAppend([TotalSize(size)], t);
    assert [TotalSize(size)][..0] == [];
  }

  /** With a positive declared size every percentage the run reports lies in 0..100 and the
      percentages never decrease, however many bytes arrive beyond the declared size; the
      progress trace is that of the chunks actually read. */
  lemma ProgressReported(files: map<string, seq<byte>>, dirs: set<string>, dir: string, cancelled: bool,
                         env: Environment)
    requires ReachesLoop(files, dirs, dir, env) && Declared(env) > 0
    ensures var run := RunEvents(Attempt(files, dirs, dir, cancelled, env));
            ProgressWithin(run, 0, 100) && ProgressNonDecreasing(run)
  {
    var e := Attempt(files, dirs, dir, cancelled, env);
    var size := Declared(env);
    var chunks := env.response.chunks;
    var stop := StopOf(cancelled, env);
    var read := chunks[..Written(|chunks|, stop)];
    LoopEvents(files, dirs, dir, cancelled, env);
    TraceWithin(read, size);
    TraceNonDecreasing(read, size);
    PercentBounds(TotalLength(read), size);
    var post := RunEvents(e)[1 + |Trace(read, size)|..];
    assert RunEvents(e) == [TotalSize(size)] + Trace(read, size) + post;
    assert NoProgress(post);
    FramedProgress(TotalSize(size), Trace(read, size), post, 0, 100);
  }

  /** When the body holds at least the declared number of bytes, a completed run's last
      percentage is exactly 100. */
  lemma CompletionReaches100(files: map<string, seq<byte>>, dirs: set<string>, dir: string,
                             cancelled: bool, env: Environment)
    requires ReachesLoop(files, dirs, dir, env) && StopOf(cancelled, env) == Completed
    requires 0 < Declared(env) <= TotalLength(env.response.chunks)
    ensures var run := RunEvents(Attempt(files, dirs, dir, cancelled, env));
            |run| >= 3 && run[|run| - 3] == Progress(100)
  {
    var chunks := env.response.chunks;
    var size := Declared(env);
    CompletionDelivers(files, dirs, dir, cancelled, env);
    assert chunks != [];
    TraceShape(chunks, size);
    assert chunks[..|chunks|] == chunks;
    PercentFull(TotalLength(chunks), size);
  }

  /** A read error in the middle of the body leaves the bytes read so far in the temporary
      file and the sidecar in place, and reports the error. */
  lemma ReadFailureLeavesPartialFile(files: map<string, seq<byte>>, dirs: set<string>, dir: string,
                                     cancelled: bool, env: Environment, d: string)
    requires ReachesLoop(files, dirs, dir, env) && StopOf(cancelled, env) == ReadFailed(d)
    ensures var e := Attempt(files, dirs, dir, cancelled, env);
            e.files == files[TempPath(dir, Title(env)) := Concat(env.response.chunks)] &&
            Sidecar(env) in e.files && e.raised == Some(Unhandled(d))
  {
    SidecarsFilter(env.listing);
    PathsDistinct(dir, Title(env), Sidecar(env));
    assert env.response.chunks[..|env.response.chunks|] == env.response.chunks;
  }

  /** A declared size of 0 and a non-empty body: the first chunk is written, then its
      percentage divides by zero; no progress is reported. */
  lemma ZeroDeclaredSizeDividesByZero(files: map<string, seq<byte>>, dirs: set<string>, dir: string,
                                      cancelled: bool, env: Environment)
    requires ReachesLoop(files, dirs, dir, env) && Declared(env) == 0
    requires |env.response.chunks| > 0 && CancelPoint(cancelled, env.cancelAt) != Some(0)
    ensures var e := Attempt(files, dirs, dir, cancelled, env);
            e.raised == Some(Unhandled("division by zero")) &&
            e.files == files[TempPath(dir, Title(env)) := env.response.chunks[0]] &&
            e.events == [TotalSize(0)]
  {
    var chunks := env.response.chunks;
    assert chunks[..1] == [chunks[0]];
    assert chunks[..1][..0] == [];
    assert Concat(chunks[..1]) == chunks[0];
  }
}

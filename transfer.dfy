/** The behaviour of one transfer of the GUI worker (`DownloadThread.download_audio`
    followed by the error reporting of `DownloadThread.run`) as a function of the
    state of the disk and of what the extractor, the server and the user do.
    The worker class in module Worker is proved to change the disk and to emit
    exactly what `Attempt` and `RunEvents` below say. */
module Transfer {
  import opened Common
  import opened Naming

  /** What the worker emits through its signals (the speed signal is not modelled). */
  datatype Event =
    | TotalSize(declared: int)                // total_size_signal
    | Progress(percent: int)                  // progress_signal
    | Size(bytes: nat)                        // size_signal
    | Message(title: string, text: string)    // emit_message_signal

  /** The exceptions that leave `download_audio`. */
  datatype Failure =
    | InfoJsonMissing                // the message raised at the "no sidecar" branch and for any FileNotFoundError
    | ExtractorFailed(detail: string)  // the extractor exited with an error status
    | NetworkFailed(detail: string)    // the media URL could not be opened
    | Unhandled(detail: string)        // any other exception, reported with its own text

  const InfoJsonMissingText := "Failed to locate info JSON file."
  const DownloadFailedPrefix := "Failed to download audio. "
  /** The texts of the two uncaught exceptions whose wording the model fixes. */
  const DivisionByZeroText := "division by zero"
  const IntOfNoneText := "int() argument must be a string, a bytes-like object or a real number, not 'NoneType'"
  const SignalOverflowText := "argument 1 overflowed: value must be in the range -2147483648 to 2147483647"

  /** The `int` signals of PyQt5 carry a 32-bit C++ `int`; emitting a value outside its
      range raises OverflowError. */
  predicate FitsSignal(v: int)
  {
    -0x8000_0000 <= v < 0x8000_0000
  }

  /** The text `run` hands to `emit_error_signal`: `str(e)` of the exception. */
  function Reason(f: Failure): string
  {
    match f
    case InfoJsonMissing => InfoJsonMissingText
    case ExtractorFailed(d) => DownloadFailedPrefix + d
    case NetworkFailed(d) => DownloadFailedPrefix + d
    case Unhandled(d) => d
  }

  const SuccessMessage := Message("Download Complete", "Audio download complete.")

  function ErrorMessage(reason: string): (e: Event)
    ensures e.Message? && e != SuccessMessage
  {
    Message("Error", "An error occurred: " + reason)
  }

  /** Outcome of `youtube-dl --get-filename`: success, an error exit status, no such
      program (FileNotFoundError), or another failure to start it (a PermissionError, say). */
  datatype Probe = ProbeOk | ProbeExit(detail: string) | ToolMissing | SpawnFails(detail: string)
  /** The sidecar as `json.load` sees it. */
  datatype Metadata = Malformed(detail: string) | Info(url: Option<string>, fulltitle: Option<string>)
  /** What the read after the last chunk does: return nothing, or raise. */
  datatype StreamEnd = EndOfStream | ReadFails(detail: string)
  /** What `urlopen` on the media URL gives: a URLError, another exception (a ValueError for
      an unknown URL type, a connection dropped before the status line), or a response. */
  datatype Response =
    | Unreachable(detail: string)
    | Refused(detail: string)
    | Served(contentLength: Option<int>, chunks: seq<Chunk>, end: StreamEnd)

  /** Everything outside the worker: the extractor's results, the listing of the working
      directory, the server, and the iteration before whose cancellation check the user
      presses Cancel (`cancelAt`). */
  datatype Environment = Environment(probe: Probe, listing: seq<string>, metadata: Metadata,
                                     response: Response, cancelAt: Option<nat>)

  /** The disk, the emitted events, the cancellation flag and the raised exception after `download_audio`. */
  datatype Effect = Effect(files: map<string, seq<byte>>, events: seq<Event>, cancelled: bool,
                           raised: Option<Failure>)

  /** The bytes of the chunks, in read order. */
  function Concat(s: seq<Chunk>): seq<byte>
  {
    if s == [] then [] else Concat(s[..|s| - 1]) + s[|s| - 1]
  }

  /** The running `downloaded` counter after reading the chunks `s`. */
  function TotalLength(s: seq<Chunk>): nat
  {
    if s == [] then 0 else TotalLength(s[..|s| - 1]) + |s[|s| - 1]|
  }

  lemma {:induction false} ConcatLength(s: seq<Chunk>)
    ensures |Concat(s)| == TotalLength(s)
  {
    if s != [] { ConcatLength(s[..|s| - 1]); }
  }

  /** Concatenating the first k chunks and then the rest gives all the bytes. */
  lemma {:induction false} ConcatSplit(s: seq<Chunk>, k: nat)
    requires k <= |s|
    ensures Concat(s) == Concat(s[..k]) + Concat(s[k..])
  {
    if k < |s| {
      var t := s[..|s| - 1];
      ConcatSplit(t, k);
      assert t[..k] == s[..k];
      assert s[k..][..|s[k..]| - 1] == t[k..];
    } else {
      assert s[..k] == s;
      assert s[k..] == [];
    }
  }

  /** Chunk j sits in the file right after the bytes of the chunks before it. */
  lemma ChunkInPlace(s: seq<Chunk>, j: nat)
    requires j < |s|
    ensures TotalLength(s[..j]) + |s[j]| == TotalLength(s[..j + 1]) <= |Concat(s)|
    ensures Concat(s)[TotalLength(s[..j])..TotalLength(s[..j + 1])] == s[j]
  {
    ConcatSplit(s, j + 1);
    ConcatLength(s[..j + 1]);
    ConcatLength(s[..j]);
    ConcatLength(s);
    assert s[..j + 1][..j] == s[..j];
    assert Concat(s[..j + 1]) == Concat(s[..j]) + s[j];
  }

  lemma {:induction false} TotalLengthMonotone(s: seq<Chunk>, j: nat, k: nat)
    requires j <= k <= |s|
    ensures TotalLength(s[..j]) <= TotalLength(s[..k])
    ensures j < k ==> TotalLength(s[..j]) < TotalLength(s[..k])
  {
    if j < k {
      TotalLengthMonotone(s, j, k - 1);
      assert s[..k][..k - 1] == s[..k - 1];
    }
  }

  /** `min(int((downloaded / file_size) * 100), 100)` in exact arithmetic; `int` truncates
      toward zero, which matters for a negative declared size. */
  function Percent(downloaded: nat, fileSize: int): int
    requires fileSize != 0
  {
    if fileSize > 0 then
      var q := downloaded * 100 / fileSize;
      if q >= 100 then 100 else q
    else
      var q := -(downloaded * 100 / -fileSize);
      if q >= 100 then 100 else q
  }

  /** The percentage never exceeds 100; for a positive declared size it is the floor of the
      exact ratio, in 0..100, and 100 exactly when all declared bytes arrived; for a negative
      declared size it is never positive. */
  lemma PercentBounds(downloaded: nat, fileSize: int)
    requires fileSize != 0
    ensures var p := Percent(downloaded, fileSize);
            p <= 100 &&
            (fileSize > 0 ==> 0 <= p && (p == 100 <==> downloaded >= fileSize)) &&
            (fileSize > 0 && p < 100 ==> p * fileSize <= downloaded * 100 < (p + 1) * fileSize) &&
            (fileSize < 0 ==> p <= 0)
  {
    if fileSize > 0 { FloorPercent(downloaded, fileSize); }
  }

  /** The exact quotient, before the cap, is at least 100 exactly when all declared bytes arrived. */
  lemma FloorPercent(d: nat, f: int)
    requires f > 0
    ensures 0 <= d * 100 / f
    ensures (d * 100 / f) * f <= d * 100 < (d * 100 / f + 1) * f
    ensures d * 100 / f >= 100 <==> d >= f
  {
    var q := d * 100 / f;
    DivBounds(d * 100, f);
    if q >= 100 {
      MulMono(100, q, f);
    }
    if d >= f && q < 100 {
      MulMono(q + 1, 100, f);
    }
  }

  lemma DivBounds(a: int, b: int)
    requires b > 0
    ensures (a / b) * b <= a < (a / b) * b + b
    ensures a >= 0 ==> a / b >= 0
  {
  }

  lemma MulMono(a: int, b: int, c: nat)
    requires a <= b
    ensures a * c <= b * c
  {
  }

  lemma MulCancel(a: int, b: int, c: int)
    requires c > 0 && a * c < b * c
    ensures a < b
  {
    if a >= b { MulMono(b, a, c); }
  }

  /** More bytes never lower the reported percentage. */
  lemma PercentMonotone(a: nat, b: nat, fileSize: int)
    requires a <= b && fileSize > 0
    ensures Percent(a, fileSize) <= Percent(b, fileSize)
  {
    var pa, pb := Percent(a, fileSize), Percent(b, fileSize);
    PercentBounds(a, fileSize);
    PercentBounds(b, fileSize);
    if pb < 100 {
      assert pa < 100;
      assert pa * fileSize <= a * 100 <= b * 100 < (pb + 1) * fileSize;
      MulCancel(pa, pb + 1, fileSize);
    }
  }

  /** A transfer whose bytes reach the declared size reports 100. */
  lemma PercentFull(downloaded: nat, fileSize: int)
    requires 0 < fileSize <= downloaded
    ensures Percent(downloaded, fileSize) == 100
  {
    PercentBounds(downloaded, fileSize);
  }

  /** The progress and size signals of the chunks `s`, chunk by chunk. */
  function Trace(s: seq<Chunk>, fileSize: int): seq<Event>
    requires fileSize != 0
  {
    if s == [] then []
    else Trace(s[..|s| - 1], fileSize) + [Progress(Percent(TotalLength(s), fileSize)), Size(TotalLength(s))]
  }

  /** For chunk j the loop emits the percentage and then the running total of the bytes read so far. */
  lemma {:induction false} TraceShape(s: seq<Chunk>, fileSize: int)
    requires fileSize != 0
    ensures |Trace(s, fileSize)| == 2 * |s|
    ensures forall j :: 0 <= j < |s| ==>
              Trace(s, fileSize)[2 * j] == Progress(Percent(TotalLength(s[..j + 1]), fileSize)) &&
              Trace(s, fileSize)[2 * j + 1] == Size(TotalLength(s[..j + 1]))
  {
    if s != [] {
      var t := s[..|s| - 1];
      TraceShape(t, fileSize);
      forall j | 0 <= j < |s|
        ensures Trace(s, fileSize)[2 * j] == Progress(Percent(TotalLength(s[..j + 1]), fileSize))
        ensures Trace(s, fileSize)[2 * j + 1] == Size(TotalLength(s[..j + 1]))
      {
        if j < |t| { assert t[..j + 1] == s[..j + 1]; } else { assert s[..j + 1] == s; }
      }
    }
  }

  predicate ProgressWithin(evs: seq<Event>, lo: int, hi: int)
  {
    forall i :: 0 <= i < |evs| && evs[i].Progress? ==> lo <= evs[i].percent <= hi
  }

  predicate ProgressNonDecreasing(evs: seq<Event>)
  {
    forall i, j :: 0 <= i < j < |evs| && evs[i].Progress? && evs[j].Progress? ==> evs[i].percent <= evs[j].percent
  }

  function MessageCount(evs: seq<Event>): nat
  {
    if evs == [] then 0 else MessageCount(evs[..|evs| - 1]) + (if evs[|evs| - 1].Message? then 1 else 0)
  }

  lemma {:induction false} MessageCountAppend(a: seq<Event>, b: seq<Event>)
    ensures MessageCount(a + b) == MessageCount(a) + MessageCount(b)
  {
    if b != [] {
      MessageCountAppend(a, b[..|b| - 1]);
      assert (a + b)[..|a + b| - 1] == a + b[..|b| - 1];
    } else {
      assert a + b == a;
    }
  }

  /** With a positive declared size every reported percentage lies between 0 and the
      percentage of all the bytes read, so never above 100. */
  lemma TraceWithin(s: seq<Chunk>, fileSize: int)
    requires fileSize > 0
    ensures ProgressWithin(Trace(s, fileSize), 0, Percent(TotalLength(s), fileSize))
  {
    var tr := Trace(s, fileSize);
    TraceShape(s, fileSize);
    forall i | 0 <= i < |tr| && tr[i].Progress? ensures 0 <= tr[i].percent <= Percent(TotalLength(s), fileSize) {
      var j := i / 2;
      assert i == 2 * j;
      TotalLengthMonotone(s, j + 1, |s|);
      assert s[..|s|] == s;
      PercentMonotone(TotalLength(s[..j + 1]), TotalLength(s), fileSize);
      PercentBounds(TotalLength(s[..j + 1]), fileSize);
    }
  }

  /** With a positive declared size the reported percentages never decrease. */
  lemma TraceNonDecreasing(s: seq<Chunk>, fileSize: int)
    requires fileSize > 0
    ensures ProgressNonDecreasing(Trace(s, fileSize))
  {
    var tr := Trace(s, fileSize);
    TraceShape(s, fileSize);
    forall i, j | 0 <= i < j < |tr| && tr[i].Progress? && tr[j].Progress?
      ensures tr[i].percent <= tr[j].percent
    {
      var a, b := i / 2, j / 2;
      assert i == 2 * a && j == 2 * b;
      TotalLengthMonotone(s, a + 1, b + 1);
      PercentMonotone(TotalLength(s[..a + 1]), TotalLength(s[..b + 1]), fileSize);
    }
  }

  /** The chunk loop itself never emits a message. */
  lemma {:induction false} TraceHasNoMessage(s: seq<Chunk>, fileSize: int)
    requires fileSize != 0
    ensures MessageCount(Trace(s, fileSize)) == 0
  {
    if s != [] {
      var t := s[..|s| - 1];
      var p := Percent(TotalLength(s), fileSize);
      var tail := [Progress(p), Size(TotalLength(s))];
      TraceHasNoMessage(t, fileSize);
      assert Trace(s, fileSize) == Trace(t, fileSize) + tail;
      MessageCountAppend(Trace(t, fileSize), tail);
      assert tail[..1] == [Progress(p)];
      assert [Progress(p)][..0] == [];
      assert MessageCount([Progress(p)]) == 0;
      assert MessageCount(tail) == 0;
    }
  }

  /** Where the cancellation flag is first seen set: at once when it was set before the
      transfer, otherwise at the iteration before which the user cancels. */
  function CancelPoint(cancelled: bool, cancelAt: Option<nat>): Option<nat>
  {
    if cancelled then Some(0) else cancelAt
  }

  /** Why the chunk loop stops. */
  datatype Stop = Completed | CancelledAt(k: nat) | ReadFailed(detail: string) | DividedByZero

  /** How the loop over `n` chunks ends, given where cancellation is first seen and the
      declared size (a declared size of 0 makes the first percentage divide by zero). */
  function LoopStop(n: nat, c: Option<nat>, fileSize: int, end: StreamEnd): (r: Stop)
    ensures r.CancelledAt? ==> c == Some(r.k) && r.k <= n
    ensures r.DividedByZero? ==> fileSize == 0 && n > 0
  {
    if c.Some? && c.value <= n then
      if fileSize == 0 && c.value > 0 then DividedByZero else CancelledAt(c.value)
    else if fileSize == 0 && n > 0 then DividedByZero
    else if end.EndOfStream? then Completed
    else ReadFailed(end.detail)
  }

  /** How many chunks reach the temporary file. */
  function Written(n: nat, stop: Stop): (w: nat)
    requires stop.CancelledAt? ==> stop.k <= n
    requires stop.DividedByZero? ==> n > 0
    ensures w <= n
  {
    match stop
    case DividedByZero => 1
    case CancelledAt(k) => k
    case _ => n
  }

  /** The iteration of the last cancellation check the loop performs. */
  function LastCheck(n: nat, stop: Stop): nat
  {
    match stop
    case DividedByZero => 0
    case CancelledAt(k) => k
    case _ => n
  }

  predicate DirectoryExists(dirs: set<string>, dir: string)
  {
    dir == "" || dir in dirs
  }

  /** An exception raised before anything was written. */
  function Raise(files: map<string, seq<byte>>, cancelled: bool, f: Failure): Effect
  {
    Effect(files, [], cancelled, Some(f))
  }

  /** The progress and size signals of the loop: none when the first percentage divides by zero. */
  function Reported(chunks: seq<Chunk>, stop: Stop, fileSize: int): seq<Event>
    requires stop.CancelledAt? ==> stop.k <= |chunks|
    requires stop.DividedByZero? ==> |chunks| > 0
  {
    if fileSize == 0 then [] else Trace(chunks[..Written(|chunks|, stop)], fileSize)
  }

  /** The cancellation flag once the loop has stopped. */
  function CancelledAfter(cancelled: bool, cancelAt: Option<nat>, n: nat, stop: Stop): bool
  {
    cancelled || (cancelAt.Some? && cancelAt.value <= LastCheck(n, stop))
  }

  /** From opening the temporary file to the rename: the chunk loop and its finalisation. */
  function Stream(files: map<string, seq<byte>>, dirs: set<string>, dir: string, cancelled: bool,
                  cancelAt: Option<nat>, sidecar: string, title: string, fileSize: int,
                  chunks: seq<Chunk>, end: StreamEnd): Effect
  {
    if !DirectoryExists(dirs, dir) then Raise(files, cancelled, InfoJsonMissing)
    else
      var temp := TempPath(dir, title);
      var n := |chunks|;
      var stop := LoopStop(n, CancelPoint(cancelled, cancelAt), fileSize, end);
      var written := files[temp := Concat(chunks[..Written(n, stop)])];
      var reported := Reported(chunks, stop, fileSize);
      var flag := CancelledAfter(cancelled, cancelAt, n, stop);
      match stop
      case DividedByZero => Effect(written, reported, flag, Some(Unhandled(DivisionByZeroText)))
      case ReadFailed(d) => Effect(written, reported, flag, Some(Unhandled(d)))
      case CancelledAt(_) => Effect(written - {temp} - {sidecar}, reported, flag, Some(InfoJsonMissing))
      case Completed =>
        Effect((written - {sidecar} - {temp})[FinalPath(dir, title) := written[temp]],
               reported + [SuccessMessage], flag, None)
  }

  /** Everything `download_audio` does, from the extractor calls to the success signal. */
  function Attempt(files: map<string, seq<byte>>, dirs: set<string>, dir: string, cancelled: bool,
                   env: Environment): Effect
  {
    match env.probe
    case ToolMissing => Raise(files, cancelled, InfoJsonMissing)
    case ProbeExit(d) => Raise(files, cancelled, ExtractorFailed(d))
    case SpawnFails(d) => Raise(files, cancelled, Unhandled(d))
    case ProbeOk =>
      var names := Sidecars(env.listing);
      if names == [] || names[0] !in files then Raise(files, cancelled, InfoJsonMissing)
      else
        match env.metadata
        case Malformed(d) => Raise(files, cancelled, Unhandled(d))
        case Info(url, title) =>
          if url.None? then Raise(files, cancelled, Unhandled("'url'"))
          else if title.None? then Raise(files, cancelled, Unhandled("'fulltitle'"))
          else
            match env.response
            case Unreachable(d) => Raise(files, cancelled, NetworkFailed(d))
            case Refused(d) => Raise(files, cancelled, Unhandled(d))
            case Served(length, chunks, end) =>
              if length.None? then Raise(files, cancelled, Unhandled(IntOfNoneText))
              else if !FitsSignal(length.value) then Raise(files, cancelled, Unhandled(SignalOverflowText))
              else
                var e := Stream(files, dirs, dir, cancelled, env.cancelAt, names[0], title.value,
                                length.value, chunks, end);
                e.(events := [TotalSize(length.value)] + e.events)
  }

  /** The events of `run`: those of `download_audio`, then the error signal for an exception. */
  function RunEvents(e: Effect): seq<Event>
  {
    if e.raised.Some? then e.events + [ErrorMessage(Reason(e.raised.value))] else e.events
  }
}

# SoundCloudPy Downloader: a Dafny model of the transfer worker

SoundCloudPy Downloader fetches one audio track. The external `youtube-dl` extractor
writes a metadata sidecar (`*.info.json`) into the working directory. The program
reads the direct media URL and the title from that sidecar. It then streams the HTTP
body in 1024-byte reads into a temporary `<title>.mp3.scpydownload` file in the output
directory. Finally it removes the sidecar and renames the temporary file to
`<title>.mp3`. The GUI runs this in a worker thread (`DownloadThread`) that the user
can pause or cancel. That thread reports the declared size, a percentage and the bytes
received on every chunk, and ends with one message box. The console front end uses
the same file-name rule and prints a percentage from `urlretrieve`'s progress hook.

The project has these parts:

- `common.dfy`: `Option`, a `byte` newtype, and `Chunk`, a non-empty read of at most 1024 bytes.
- `naming.dfy` (module `Naming`):
  - the file-name rule and `os.path.join`;
  - the temporary and final paths;
  - the sidecar filter over the directory listing.
- `transfer.dfy` (module `Transfer`): what one run of `download_audio` does, as pure functions.
  - The disk is a `map<string, seq<byte>>`.
  - The world outside the thread is an `Environment`:
    - the extractor's outcome;
    - the listing;
    - the parsed sidecar, a record with optional `url` and `fulltitle`;
    - the server's response, with its declared `Content-Length`, its chunks and how the last read ends;
    - the iteration before whose cancellation check the user presses Cancel.
  - Exceptions are a `Failure` datatype. `RunEvents` adds the error signal that `run` emits.
  - The loop's effect is given in closed form by `Concat`, `TotalLength`, `Trace`, `LoopStop` and `Written`.
  - This module also holds the lemmas about the progress arithmetic.
- `worker.dfy` (module `Worker`): the `DownloadThread` class, with the fields `isPaused`, `isCancelled` and `events`.
  - `events` records every signal the thread has emitted.
  - A `FileSystem` class holds the file map and the existing directories.
  - The `while true` loop of `CopyBody` appends each chunk to the temporary file in place.
  - The loop invariants state three facts:
    - the counter equals the bytes written;
    - the file holds the concatenation of the chunks;
    - the emitted events are the progress trace so far.
  - `Run`, `DownloadAudio`, `Fetch`, `CopyBody` and `Finalise` are each proved to produce exactly what `Transfer.Attempt` and `Transfer.RunEvents` say.
- `outcomes.dfy` (module `Outcomes`): properties of whole runs, stated over `Attempt` and therefore also about the class.
  - how each run ends;
  - what the disk holds afterwards;
  - that a run emits exactly one message;
  - progress bounds and monotonicity.
- `cli.dfy` (module `Cli`): the console file name and `progress_update`'s arithmetic.

The model follows the code as written, including these behaviours, which differ from what the worker evidently sets out to do:

- **Cancellation.** It does not end silently. After the `break`, the code still removes the sidecar and then renames the temporary file, which has already been deleted. The resulting `FileNotFoundError` becomes the message "An error occurred: Failed to locate info JSON file." (`Outcomes.CancellationNeverSucceeds`).
- **Sidecar removal.** The sidecar is removed only after the loop, not as soon as it is read. Every failure before that point leaves it on disk.
- **Missing `Content-Length`.** A missing header is no dedicated error. `int(None)` raises a `TypeError`, and `run` reports that exception's own text.
- **Percentage.** The GUI truncates toward zero (`int(...)`), so a negative declared size gives non-positive percentages. A declared size of 0 together with a first chunk makes that chunk raise `ZeroDivisionError` after it has been written. A first chunk can exist under `Content-Length: 0` only when the server sends the body chunked anyway; otherwise the first read is empty and the run succeeds with an empty file.
- **Final file.** A cancelled transfer leaves the final path as it was. It does not create a file there, and it does not delete one that already existed.

## Model

| member | source | states |
|---|---|---|
| `Naming.Replace` | SoundCloud_GUI_PyQt5.py:71 | `str.replace` with one-character arguments keeps the length and replaces exactly the matching characters, position by position |
| `Naming.FileNameRule` | SoundCloud_GUI_PyQt5.py:71 | the final name contains no `/`, has length of title plus 4, ends in `.mp3`, and every title character is kept except `/`, which becomes `_` |
| `Naming.FileNameKeepsCleanTitle` | SoundCloud_GUI_PyQt5.py:71 | a title without `/` becomes exactly `title + ".mp3"` |
| `Naming.JoinRule` | SoundCloud_GUI_PyQt5.py:72-73 | `os.path.join(dir, name)` is `name` for an empty directory; otherwise it is the directory, then one separator unless the directory already ends with one, then the name |
| `Naming.TempBesideFinal` | SoundCloud_GUI_PyQt5.py:72-73 | the temporary path is the final path followed by `.scpydownload`, in the same output directory |
| `Naming.SidecarsFilter` | SoundCloud_GUI_PyQt5.py:60-64 | the filtered listing holds only `.info.json` names from the listing; it is empty exactly when the listing has none; its head is the first such name in listing order |
| `Naming.PathsDistinct` | SoundCloud_GUI_PyQt5.py:69-73 | the final path, the temporary path and any sidecar name are pairwise different, so writing one never clobbers another |
| `Transfer.ErrorMessage` | SoundCloud_GUI_PyQt5.py:134-135 | an error signal is a message that is never the success message |
| `Transfer.LoopStop` | SoundCloud_GUI_PyQt5.py:85-109 | a loop stopped by cancellation stopped at the iteration where the flag was first seen, at or before the end of the body; a division by zero needs a declared size of 0 and a non-empty body |
| `Transfer.Written` | SoundCloud_GUI_PyQt5.py:90-95 | no more chunks are written than the body holds |
| `Transfer.ConcatLength` | SoundCloud_GUI_PyQt5.py:94-95 | the bytes written to the temporary file number exactly the `downloaded` counter |
| `Transfer.ConcatSplit` | SoundCloud_GUI_PyQt5.py:90-94 | the file content is the content after the first k chunks followed by the remaining chunks |
| `Transfer.ChunkInPlace` | SoundCloud_GUI_PyQt5.py:90-95 | chunk j occupies exactly the bytes from the counter before it to the counter after it: the file is the chunks in read order |
| `Transfer.TotalLengthMonotone` | SoundCloud_GUI_PyQt5.py:95 | the `downloaded` counter strictly increases with every chunk read |
| `Transfer.PercentBounds` | SoundCloud_GUI_PyQt5.py:101 | the percentage is at most 100. For a positive declared size it is the floor of the exact ratio, lies in 0..100, and is 100 exactly when the bytes reach the declared size. For a negative declared size it is never positive |
| `Transfer.FloorPercent` | SoundCloud_GUI_PyQt5.py:101 | the uncapped quotient is the floor of `downloaded * 100 / file_size` and reaches 100 exactly when `downloaded >= file_size` |
| `Transfer.PercentMonotone` | SoundCloud_GUI_PyQt5.py:101 | with a positive declared size, more bytes never give a smaller percentage |
| `Transfer.PercentFull` | SoundCloud_GUI_PyQt5.py:101 | once the bytes reach a positive declared size, the reported value is exactly 100 |
| `Transfer.TraceShape` | SoundCloud_GUI_PyQt5.py:101-104 | for each chunk the loop emits the percentage and then the running byte total, exactly twice as many events as chunks |
| `Transfer.TraceWithin` | SoundCloud_GUI_PyQt5.py:101-102 | with a positive declared size every emitted percentage is between 0 and the final percentage, so never above 100, even when more bytes arrive than declared (which a server can do only with a chunked body) |
| `Transfer.TraceNonDecreasing` | SoundCloud_GUI_PyQt5.py:101-102 | with a positive declared size the emitted percentages never decrease |
| `Transfer.TraceHasNoMessage` | SoundCloud_GUI_PyQt5.py:85-109 | the chunk loop emits no message box |
| `Outcomes.LoopEvents` | SoundCloud_GUI_PyQt5.py:78-115 | a run that reaches the loop emits the declared size, then the progress of the chunks actually written, then success only if the loop completed |
| `Outcomes.NoSidecarFailsEarly` | SoundCloud_GUI_PyQt5.py:60-65 | with no `.info.json` name listed, the run fails with "Failed to locate info JSON file."; it has emitted nothing else and has not touched the disk |
| `Outcomes.EarlyFailureTouchesNothing` | SoundCloud_GUI_PyQt5.py:46-83 | every failure before the loop leaves the disk and the cancellation flag unchanged; at most one signal precedes the error, and it is the declared size |
| `Outcomes.CancelledIff` | SoundCloud_GUI_PyQt5.py:86-88 | the loop stops on cancellation at iteration k exactly when the flag is first seen set there, within the body, and no percentage divided by zero before |
| `Outcomes.CompletedIff` | SoundCloud_GUI_PyQt5.py:85-92 | the loop completes exactly when no cancellation is seen up to the end of the body, no percentage divides by zero, and the last read is the empty read |
| `Outcomes.CancellationNeverSucceeds` | SoundCloud_GUI_PyQt5.py:86-121 | after cancellation the run emits no success; it ends with "Failed to locate info JSON file."; temporary file and sidecar are gone; every other path, the final one included, is untouched; only the chunks before the cancellation were read |
| `Outcomes.NoSuccessInQuietTrace` | SoundCloud_GUI_PyQt5.py:85-109 | a stretch of events without messages holds no success message |
| `Outcomes.CompletionDelivers` | SoundCloud_GUI_PyQt5.py:111-115 | on the empty read, the sidecar and the temporary file are removed; the final path holds all the bytes in order; nothing else changes; exactly one message, the success message, ends the run |
| `Outcomes.SucceedsIff` | SoundCloud_GUI_PyQt5.py:40-123 | a run raises nothing, and ends with the success message, exactly when it reaches the loop and the loop completes |
| `Outcomes.OneTerminalMessage` | SoundCloud_GUI_PyQt5.py:40-44 | every run, on every path, emits exactly one message box, and it is the last event |
| `Outcomes.QuietLoopRun` | SoundCloud_GUI_PyQt5.py:78-115 | in a run that reaches the loop only the final event is a message |
| `Outcomes.ProgressReported` | SoundCloud_GUI_PyQt5.py:101-102 | with a positive declared size every percentage of the run is in 0..100 and they never decrease |
| `Outcomes.CompletionReaches100` | SoundCloud_GUI_PyQt5.py:101-102 | a completed transfer of at least the declared number of bytes reports 100 last |
| `Outcomes.ReadFailureLeavesPartialFile` | SoundCloud_GUI_PyQt5.py:83-92 | a read error partway through the body leaves the bytes read so far in the temporary file, keeps the sidecar, and reports the error's text |
| `Outcomes.ZeroDeclaredSizeDividesByZero` | SoundCloud_GUI_PyQt5.py:94-101 | a declared size of 0 with a non-empty body (a chunked response) writes the first chunk, then fails with "division by zero" before any progress is emitted |
| `Worker.DownloadThread.constructor` | SoundCloud_GUI_PyQt5.py:33-38 | a new worker keeps the URL and output directory, is neither paused nor cancelled, and has emitted nothing |
| `Worker.DownloadThread.TogglePauseResume` | SoundCloud_GUI_PyQt5.py:125-126 | negates `isPaused` and may change no other field |
| `Worker.DownloadThread.CancelDownload` | SoundCloud_GUI_PyQt5.py:128-129 | sets `isCancelled` and may change no other field, so it can never reset the flag |
| `Worker.DownloadThread.EmitSuccessSignal` | SoundCloud_GUI_PyQt5.py:131-132 | appends the "Download Complete" message |
| `Worker.DownloadThread.EmitErrorSignal` | SoundCloud_GUI_PyQt5.py:134-135 | appends the "An error occurred: …" message |
| `Worker.DownloadThread.Run` | SoundCloud_GUI_PyQt5.py:40-44 | leaves the disk, the flag and the events exactly as `Attempt` and `RunEvents` give them |
| `Worker.DownloadThread.DownloadAudio` | SoundCloud_GUI_PyQt5.py:46-123 | leaves the disk, the flag and the events as `Attempt` gives them, and returns the exception it raises |
| `Worker.DownloadThread.Fetch` | SoundCloud_GUI_PyQt5.py:72-115 | from opening the temporary file to the success signal, the disk, flag and events are as `Stream` gives them |
| `Worker.DownloadThread.Finalise` | SoundCloud_GUI_PyQt5.py:111-115 | removes the sidecar. If the temporary file exists it is renamed to the final path and success is emitted; otherwise the rename raises the info-JSON error |
| `Worker.DownloadThread.CopyBody` | SoundCloud_GUI_PyQt5.py:83-109 | the loop stops as `LoopStop` says. The temporary file holds exactly the chunks written, in order, or is deleted on cancellation. The events are the progress trace of those chunks, and the flag is set exactly when the user cancelled by then |
| `Worker.ToggleTwice` | SoundCloud_GUI_PyQt5.py:125-126 | on any worker, pressing Pause/Resume twice restores the pause flag and leaves the cancellation flag and the events unchanged |
| `Worker.CancelTwice` | SoundCloud_GUI_PyQt5.py:128-129 | on any worker, a second Cancel leaves the flag set, as the first did, and neither press touches the pause flag or the events |
| `Cli.FileName` | soundcloud_CLI.py:23 | the console's name contains no `/`, has the title's length plus 4, ends in `.mp3`, keeps every other title character in place, and equals the GUI's name |
| `Cli.LastBlockOvershoot` | soundcloud_CLI.py:41 | the estimate `block_num * block_size` reaches the total on the last block and exceeds it by less than one block; one block earlier it is short |
| `Cli.Percent` | soundcloud_CLI.py:42 | the printed percentage never exceeds 100; a total size of 0 raises the division by zero |
| `Cli.PercentFull` | soundcloud_CLI.py:42 | the percentage is exactly 100 whenever `block_num * block_size >= total_size > 0` |
| `Cli.PercentMonotone` | soundcloud_CLI.py:42 | for a fixed block size and positive total the percentage never decreases as blocks arrive |
| `Cli.NegativeTotalUnguarded` | soundcloud_CLI.py:42 | only an upper clamp exists: a negative total gives a non-positive percentage, negative once any byte is counted |

## Left out

- The `SoundCloudDownloaderApp` widget (SoundCloud_GUI_PyQt5.py:138-261) is presentation, including its float formatting of speed and sizes.
- The `youtube-dl` processes are foreign binaries.
  - The first call is modelled by its outcome: success, an error exit, the tool missing, or another failure to start it.
  - The second call, whose exit status the code ignores, is modelled by the directory listing it leaves.
- JSON parsing is abstracted into a `Metadata` record. A malformed sidecar is reported with its parser's text.
- The network is abstracted into a `Response` value:
  - `urlopen` raises a `URLError`, raises another exception, or yields a declared `Content-Length` (an integer, or absent) and a list of chunks;
  - the read after the last chunk either returns nothing or raises;
  - a non-numeric header is not modelled.
- Python's exception texts:
  - `KeyError` and integer `ZeroDivisionError` have fixed texts that the model reproduces.
  - The text of `int(None)` is the one of Python 3.10 and later.
  - The text of the `OverflowError` from an out-of-range `int` signal is the one PyQt5's `sip` binding gives.
  - All other texts are inputs.
- The pause busy-wait, `msleep`, and the thread race between the UI and the worker are concurrency and wall-clock time.
  - The model assumes that a pause ends. Pause only flips the flag.
  - A Cancel is modelled by the iteration before which it happens (`Environment.cancelAt`).
- The speed computation and `speed_signal` depend on the wall clock and on floats.
- Opening the temporary file fails in the model only when the output directory is missing. Other refusals, such as a `PermissionError`, are not modelled.
- Write errors while appending to the temporary file are not modelled. Removing the sidecar at line 111 cannot fail in the model, because nothing else touches it.
- Worker.DownloadThread.CopyBody: emits the byte count as an unbounded integer. In PyQt5 `size_signal` carries a 32-bit `int`, so a body of more than 2147483647 bytes would raise `OverflowError` inside the loop. A declared size outside that range is modelled: it fails at `total_size_signal.emit`, before the temporary file is opened.
- The file operations follow POSIX semantics.
  - `os.rename` replaces an existing final file; the map update does the same.
  - `os.remove` on the temporary file succeeds while the `with` block still holds it open.
  - `os.path.join` follows `posixpath`, with `/` as the only separator.
- Paths are compared as strings. Two spellings of the same file (`./a` and `a`) are different keys.
- The unused `MAX_RETRY` and `RETRY_DELAY` constants have no behaviour.
- The console's `input()` and its `download_audio` driver (soundcloud_CLI.py:7-38, 45-47) are console I/O.
- Transfer.PercentBounds: states the exact floor of `downloaded * 100 / file_size`. It does not state the float computation `int((downloaded / file_size) * 100)`, which can land one below that floor (29 of 100 bytes gives 28).
- Transfer.Trace: uses that exact floor, so the progress values in the event sequences of `Worker.DownloadThread.CopyBody`, `Outcomes.CompletionDelivers`, `Outcomes.CancellationNeverSucceeds` and `Outcomes.LoopEvents` can each be one above what the program emits. Bounds, monotonicity and the final 100 hold of both.
- Transfer.Response: the chunks of `Served` are not tied to `Content-Length`. For a non-chunked response, `http.client` stops reading at the declared length, so the body never exceeds a valid declared size, and `Content-Length: 0` gives an empty body. The model admits every body with every declared size, so it only has more inputs than the program; the overrun cases of `Transfer.TraceWithin` and `Outcomes.ProgressReported` and the division by zero arise only for a chunked response.
- Cli.NegativeTotalUnguarded: its strict negativity holds of the exact value only. After `round(…, 2)` a value in (-0.005, 0) prints as `-0.00`, so the printed percentage is negative only when `20000 * block_num * block_size > -total_size`. The unknown-size value -1 that `urlretrieve` passes always meets this.
- Cli.Percent: computes in exact real arithmetic without `round(…, 2)`. Its bound, its value 100 and its monotonicity survive that rounding, because the clamp is applied after it.

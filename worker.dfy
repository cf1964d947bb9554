/** The GUI worker thread: its pause and cancellation flags, its signals (kept as the
    sequence of events emitted so far) and the transfer it runs over a disk. */
module Worker {
  import opened Common
  import opened Naming
  import opened Transfer

  /** The disk: the content of every file by path, and the directories that exist. */
  class FileSystem {
    var files: map<string, seq<byte>>
    const dirs: set<string>

    constructor (files: map<string, seq<byte>>, dirs: set<string>)
      ensures this.files == files && this.dirs == dirs
    {
      this.files := files;
      this.dirs := dirs;
    }
  }

  class DownloadThread {
    const url: string
    const outputDir: string
    var isPaused: bool
    var isCancelled: bool
    /** Everything emitted through the signals, oldest first. */
    var events: seq<Event>

    constructor (url: string, outputDir: string)
      ensures this.url == url && this.outputDir == outputDir
      ensures !isPaused && !isCancelled && events == []
    {
      this.url := url;
      this.outputDir := outputDir;
      isPaused := false;
      isCancelled := false;
      events := [];
    }

    /** The Pause/Resume button: flips the pause flag and nothing else. */
    method TogglePauseResume()
      modifies this`isPaused
      ensures isPaused == !old(isPaused)
    {
      isPaused := !isPaused;
    }

    /** The Cancel button: sets the flag; nothing ever clears it. */
    method CancelDownload()
      modifies this`isCancelled
      ensures isCancelled
    {
      isCancelled := true;
    }

    method EmitSuccessSignal()
      modifies this`events
      ensures events == old(events) + [SuccessMessage]
    {
      events := events + [SuccessMessage];
    }

    method EmitErrorSignal(message: string)
      modifies this`events
      ensures events == old(events) + [ErrorMessage(message)]
    {
      events := events + [ErrorMessage(message)];
    }

    /** The thread body: the transfer, and one error signal for whatever exception it raises. */
    method Run(fs: FileSystem, env: Environment)
      modifies this`events, this`isCancelled, fs`files
      ensures var e := Attempt(old(fs.files), fs.dirs, outputDir, old(isCancelled), env);
              fs.files == e.files && isCancelled == e.cancelled && events == old(events) + RunEvents(e)
    {
      var raised := DownloadAudio(url, outputDir, fs, env);
      if raised.Some? {
        EmitErrorSignal(Reason(raised.value));
      }
    }

    /** Resolves the media through the extractor's sidecar, opens the media URL and streams it;
        an exception is returned in `raised` instead of being thrown. */
    method DownloadAudio(url: string, dir: string, fs: FileSystem, env: Environment)
      returns (raised: Option<Failure>)
      modifies this`events, this`isCancelled, fs`files
      ensures var e := Attempt(old(fs.files), fs.dirs, dir, old(isCancelled), env);
              fs.files == e.files && isCancelled == e.cancelled && events == old(events) + e.events &&
              raised == e.raised
    {
      match env.probe {
        case ToolMissing => return Some(InfoJsonMissing);
        case ProbeExit(d) => return Some(ExtractorFailed(d));
        case SpawnFails(d) => return Some(Unhandled(d));
        case ProbeOk =>
      }
      var jsonFiles := Sidecars(env.listing);
      if jsonFiles == [] {
        return Some(InfoJsonMissing);
      }
      if jsonFiles[0] !in fs.files {
        return Some(InfoJsonMissing);
      }
      if env.metadata.Malformed? {
        return Some(Unhandled(env.metadata.detail));
      }
      if env.metadata.url.None? {
        return Some(Unhandled("'url'"));
      }
      if env.metadata.fulltitle.None? {
        return Some(Unhandled("'fulltitle'"));
      }
      var title := env.metadata.fulltitle.value;
      if env.response.Unreachable? {
        return Some(NetworkFailed(env.response.detail));
      }
      if env.response.Refused? {
        return Some(Unhandled(env.response.detail));
      }
      if env.response.contentLength.None? {
        return Some(Unhandled(IntOfNoneText));
      }
      var fileSize := env.response.contentLength.value;
      if !FitsSignal(fileSize) {
        return Some(Unhandled(SignalOverflowText));   // total_size_signal.emit raises
      }
      SidecarsFilter(env.listing);
      events := events + [TotalSize(fileSize)];
      raised := Fetch(dir, fs, env.cancelAt, jsonFiles[0], title, fileSize,
                      env.response.chunks, env.response.end);
    }

    /** Opens the temporary file, streams the body into it, then removes the sidecar and
        renames the temporary file. */
    method Fetch(dir: string, fs: FileSystem, cancelAt: Option<nat>, sidecar: string, title: string,
                 fileSize: int, chunks: seq<Chunk>, end: StreamEnd)
      returns (raised: Option<Failure>)
      requires sidecar in fs.files && IsSidecar(sidecar)
      modifies this`events, this`isCancelled, fs`files
      ensures var e := Stream(old(fs.files), fs.dirs, dir, old(isCancelled), cancelAt, sidecar, title,
                              fileSize, chunks, end);
              fs.files == e.files && isCancelled == e.cancelled && events == old(events) + e.events &&
              raised == e.raised
    {
      var fullPath := FinalPath(dir, title);
      var tempPath := TempPath(dir, title);
      PathsDistinct(dir, title, sidecar);
      if !DirectoryExists(fs.dirs, dir) {
        return Some(InfoJsonMissing);   // opening the temporary file raises FileNotFoundError
      }
      ghost var before := fs.files;
      fs.files := fs.files[tempPath := []];
      var stop := CopyBody(tempPath, fs, cancelAt, fileSize, chunks, end);
      ghost var written := before[tempPath := Concat(chunks[..Written(|chunks|, stop)])];
      assert fs.files == if stop.CancelledAt? then written - {tempPath} else written;
      ghost var e := Stream(before, fs.dirs, dir, old(isCancelled), cancelAt, sidecar, title, fileSize, chunks, end);
      ghost var reported := Reported(chunks, stop, fileSize);
      ghost var flag := CancelledAfter(old(isCancelled), cancelAt, |chunks|, stop);
      assert events == old(events) + reported && isCancelled == flag;
      match stop {
        case DividedByZero =>
          assert e == Effect(written, reported, flag, Some(Unhandled(DivisionByZeroText)));
          return Some(Unhandled(DivisionByZeroText));
        case ReadFailed(d) =>
          assert e == Effect(written, reported, flag, Some(Unhandled(d)));
          return Some(Unhandled(d));
        case CancelledAt(_) =>
          assert e == Effect(written - {tempPath} - {sidecar}, reported, flag, Some(InfoJsonMissing));
          raised := Finalise(sidecar, tempPath, fullPath, fs);
        case Completed =>
          assert e == Effect((written - {sidecar} - {tempPath})[fullPath := written[tempPath]],
                             reported + [SuccessMessage], flag, None);
          raised := Finalise(sidecar, tempPath, fullPath, fs);
      }
    }

    /** Removes the sidecar, then renames the temporary file to the final path; the rename
        raises FileNotFoundError when cancellation has already deleted the temporary file. */
    method Finalise(sidecar: string, tempPath: string, fullPath: string, fs: FileSystem)
      returns (raised: Option<Failure>)
      requires sidecar in fs.files && sidecar != tempPath
      modifies this`events, fs`files
      ensures tempPath in old(fs.files) ==>
                fs.files == (old(fs.files) - {sidecar} - {tempPath})[fullPath := old(fs.files)[tempPath]] &&
                events == old(events) + [SuccessMessage] && raised == None
      ensures tempPath !in old(fs.files) ==>
                fs.files == old(fs.files) - {sidecar} && events == old(events) && raised == Some(InfoJsonMissing)
    {
      fs.files := fs.files - {sidecar};
      if tempPath !in fs.files {
        return Some(InfoJsonMissing);
      }
      fs.files := (fs.files - {tempPath})[fullPath := fs.files[tempPath]];
      EmitSuccessSignal();
      raised := None;
    }

    /** The `while True` loop: check the cancellation flag, read a chunk, append it to the
        temporary file, report progress. Cancellation deletes the temporary file. */
    method CopyBody(tempPath: string, fs: FileSystem, cancelAt: Option<nat>, fileSize: int,
                    chunks: seq<Chunk>, end: StreamEnd)
      returns (stop: Stop)
      requires tempPath in fs.files && fs.files[tempPath] == []
      modifies this`events, this`isCancelled, fs`files
      ensures stop == LoopStop(|chunks|, CancelPoint(old(isCancelled), cancelAt), fileSize, end)
      ensures var copied := old(fs.files)[tempPath := Concat(chunks[..Written(|chunks|, stop)])];
              fs.files == if stop.CancelledAt? then copied - {tempPath} else copied
      ensures events == old(events) + Reported(chunks, stop, fileSize)
      ensures isCancelled == CancelledAfter(old(isCancelled), cancelAt, |chunks|, stop)
    {
      ghost var c := CancelPoint(old(isCancelled), cancelAt);
      var downloaded := 0;
      var i := 0;
      while true
        invariant 0 <= i <= |chunks|
        invariant c.None? || i <= c.value
        invariant fileSize == 0 ==> i == 0
        invariant isCancelled == (old(isCancelled) || (cancelAt.Some? && cancelAt.value < i))
        invariant downloaded == TotalLength(chunks[..i])
        invariant fs.files == old(fs.files)[tempPath := Concat(chunks[..i])]
        invariant events == old(events) + (if fileSize == 0 then [] else Trace(chunks[..i], fileSize))
        decreases |chunks| - i
      {
        if cancelAt == Some(i) {
          CancelDownload();   // the user presses Cancel before this check
        }
        if isCancelled {
          fs.files := fs.files - {tempPath};
          return CancelledAt(i);
        }
        if i == |chunks| {
          if end.ReadFails? {
            return ReadFailed(end.detail);
          }
          return Completed;   // the empty read: end of stream
        }
        var data := chunks[i];
        assert chunks[..i + 1][..i] == chunks[..i];
        fs.files := fs.files[tempPath := fs.files[tempPath] + data];
        downloaded := downloaded + |data|;
        if fileSize == 0 {
          return DividedByZero;
        }
        var progress := Percent(downloaded, fileSize);
        events := events + [Progress(progress), Size(downloaded)];
        assert Trace(chunks[..i + 1], fileSize) == Trace(chunks[..i], fileSize) + [Progress(progress), Size(downloaded)];
        i := i + 1;
      }
    }
  }

  /** Pressing Pause/Resume twice restores the pause flag and touches nothing else. */
  method ToggleTwice(t: DownloadThread)
    modifies t`isPaused
    ensures t.isPaused == old(t.isPaused)
    ensures t.isCancelled == old(t.isCancelled) && t.events == old(t.events)
  {
    t.TogglePauseResume();
    t.TogglePauseResume();
  }

  /** A second Cancel leaves the worker exactly as the first one did: the flag stays set,
      and neither press touches the pause flag or the signals. */
  method CancelTwice(t: DownloadThread)
    modifies t`isCancelled
    ensures t.isCancelled
    ensures t.isPaused == old(t.isPaused) && t.events == old(t.events)
  {
    t.CancelDownload();
    assert t.isCancelled;
    t.CancelDownload();
  }
}

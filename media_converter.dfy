/** The transcoding step of recognition_bot/src/media_converter.rs: the payload
    is written to a temporary file whose suffix follows its container, avconv
    turns that file into mono 16 kHz signed 16-bit WAV on its standard output,
    and the exit status decides between the audio and an error. The operating
    system is a `Host` of answers; each operation returns its result together
    with the calls it made, in order. */
module MediaConverter {
  import opened Common
  import Utf8

  /** `MediaKind`: the payload, with the container its kind implies. */
  datatype MediaKind = Ogg(bytes: seq<byte>) | Mp4(bytes: seq<byte>)

  /** `std::process::ExitStatus`: an exit code, or None when a signal ended the process. */
  datatype ExitStatus = ExitStatus(code: Option<int>) {
    predicate Success() {
      code == Some(0)
    }
  }

  datatype ProcessOutput = ProcessOutput(status: ExitStatus, stdout: seq<byte>, stderr: seq<byte>)

  /** What the converter asks of the operating system. `RemoveFile` is the drop
      of the `NamedTempFile`, whose outcome is ignored. */
  datatype Call =
    | CreateTempFile(suffix: string)
    | WriteAll(path: string, data: seq<byte>)
    | RunCommand(program: string, args: seq<string>)
    | RemoveFile(path: string)

  /** How the operating system answers each call: the path of a fresh temporary
      file with a given suffix, the outcome of `write_all` (None when everything
      was written), the outcome of `Command::output`. */
  datatype Host = Host(
    createTempFile: string -> Result<string, IoErrorKind>,
    writeAll: (string, seq<byte>) -> Option<IoErrorKind>,
    output: (string, seq<string>) -> Result<ProcessOutput, IoErrorKind>)

  datatype Run<T> = Run(result: Result<T, Failure>, calls: seq<Call>)

  datatype TempFile = TempFile(path: string)

  /** The suffix `write_media_file` gives the temporary file. */
  function Suffix(kind: MediaKind): string {
    match kind
    case Ogg(_) => ".oga"
    case Mp4(_) => "mp4"
  }

  const Avconv: string := "avconv"

  /** The argument vector of `convert_int`: the input path, then fixed output options. */
  function AvconvArgs(path: string): seq<string> {
    ["-i", path, "-vn", "-acodec", "pcm_s16le", "-ac", "1", "-ar", "16000", "-f", "wav", "pipe:"]
  }

  /** `write_media_file`: create the temporary file, then write the payload to
      it; a failed write drops (removes) the file. */
  function WriteMediaFile(kind: MediaKind, host: Host): Run<TempFile> {
    var suffix := Suffix(kind);
    match host.createTempFile(suffix)
    case Failure(e) => Run(Failure(IoError(e)), [CreateTempFile(suffix)])
    case Success(path) =>
      match host.writeAll(path, kind.bytes)
      case Some(e) => Run(Failure(IoError(e)), [CreateTempFile(suffix), WriteAll(path, kind.bytes), RemoveFile(path)])
      case None => Run(Success(TempFile(path)), [CreateTempFile(suffix), WriteAll(path, kind.bytes)])
  }

  /** The status decision of `convert_int` on avconv's output. */
  function AvconvOutcome(out: ProcessOutput): Result<seq<byte>, Failure> {
    if out.status.Success() then Success(out.stdout)
    else
      match Utf8.Decode(out.stderr)
      case None => Failure(Utf8Error)
      case Some(text) => Failure(AvconvError(text))
  }

  /** `convert_int`: run avconv on the file, decide on its output; the file is
      dropped at the end whatever happened. */
  function ConvertInt(file: TempFile, host: Host): Run<seq<byte>> {
    var args := AvconvArgs(file.path);
    var result :=
      match host.output(Avconv, args)
      case Failure(e) => Failure(IoError(e))
      case Success(out) => AvconvOutcome(out);
    Run(result, [RunCommand(Avconv, args), RemoveFile(file.path)])
  }

  /** `convert`: `write_media_file(kind).and_then(convert_int)`. */
  function Convert(kind: MediaKind, host: Host): Run<seq<byte>> {
    var written := WriteMediaFile(kind, host);
    match written.result
    case Failure(e) => Run(Failure(e), written.calls)
    case Success(file) =>
      var converted := ConvertInt(file, host);
      Run(converted.result, written.calls + converted.calls)
  }

  /** A call that runs a program. */
  predicate IsRun(c: Call) {
    c.RunCommand?
  }

  /** How many times the calls remove `path`. */
  function Removals(calls: seq<Call>, path: string): nat {
    if calls == [] then 0
    else (if calls[0] == RemoveFile(path) then 1 else 0) + Removals(calls[1..], path)
  }

  lemma {:induction false} RemovalsAppend(a: seq<Call>, b: seq<Call>, path: string)
    ensures Removals(a + b, path) == Removals(a, path) + Removals(b, path)
  {
    if a != [] {
      assert (a + b)[1..] == a[1..] + b;
      RemovalsAppend(a[1..], b, path);
    } else {
      assert a + b == b;
    }
  }

  /** The argument vector is fixed except for the input path, which is the value of `-i`. */
  lemma AvconvArgsOnlyPathVaries(p: string, q: string)
    ensures |AvconvArgs(p)| == 12 && AvconvArgs(p)[0] == "-i" && AvconvArgs(p)[1] == p
    ensures AvconvArgs(p)[2..] == AvconvArgs(q)[2..]
  {
  }

  /** The value following `flag` in an option list, at its first occurrence at
      or after position `from`. */
  function OptionValue(options: seq<string>, flag: string, from: nat): Option<string>
    decreases |options| - from
  {
    if from + 1 >= |options| then None
    else if options[from] == flag then Some(options[from + 1])
    else OptionValue(options, flag, from + 1)
  }

  /** Positions before `to` that do not hold `flag` are passed over. */
  lemma {:induction false} OptionValueSkips(options: seq<string>, flag: string, from: nat, stop: nat)
    requires from <= stop < |options|
    requires forall i :: from <= i < stop ==> options[i] != flag
    ensures OptionValue(options, flag, from) == OptionValue(options, flag, stop)
    decreases stop
  {
    if from < stop {
      OptionValueSkips(options, flag, from, stop - 1);
    }
  }

  /** Read as avconv reads them, the output options ask for no video, PCM
      signed 16-bit little-endian, one channel, 16000 Hz, a WAV container, and
      standard output as the destination. */
  lemma AvconvOutputOptions(path: string)
    ensures var options := AvconvArgs(path)[2..];
            && options[0] == "-vn"
            && OptionValue(options, "-acodec", 0) == Some("pcm_s16le")
            && OptionValue(options, "-ac", 0) == Some("1")
            && OptionValue(options, "-ar", 0) == Some("16000")
            && OptionValue(options, "-f", 0) == Some("wav")
            && options[|options| - 1] == "pipe:"
  {
    var options := AvconvArgs(path)[2..];
    assert options == ["-vn", "-acodec", "pcm_s16le", "-ac", "1", "-ar", "16000", "-f", "wav", "pipe:"];
    OptionValueSkips(options, "-ac", 0, 3);
    OptionValueSkips(options, "-ar", 0, 5);
    OptionValueSkips(options, "-f", 0, 7);
  }

  /** The exit status decides: success gives stdout unchanged; a failure gives an
      avconv error carrying stderr as text exactly when stderr is UTF-8, and the
      UTF-8 error otherwise. */
  lemma AvconvOutcomeMeaning(out: ProcessOutput, text: string)
    ensures out.status.Success() ==> AvconvOutcome(out) == Success(out.stdout)
    ensures !out.status.Success() ==> AvconvOutcome(out).Failure?
    ensures !out.status.Success() ==>
              (AvconvOutcome(out) == Failure(AvconvError(text)) <==> out.stderr == Utf8.Encode(text))
    ensures !out.status.Success() && out.stderr == Utf8.Encode(text) ==>
              AvconvErrorText(AvconvOutcome(out).error) == "Avconv error: " + text
    ensures !out.status.Success() ==>
              (AvconvOutcome(out) == Failure(Utf8Error) <==> Utf8.Decode(out.stderr).None?)
  {
    Utf8.DecodeIffEncode(out.stderr, text);
  }

  /** The calls `convert` makes: first the temporary file with the kind's
      suffix; if that was created, the payload written to it unchanged; avconv
      runs, with the fixed arguments on the file's path, only if the write
      succeeded; and the file is removed exactly once, as the last call. */
  lemma ConvertCalls(kind: MediaKind, host: Host)
    ensures var calls := Convert(kind, host).calls;
            && |calls| >= 1
            && calls[0] == CreateTempFile(Suffix(kind))
            && (host.createTempFile(Suffix(kind)).Failure? ==> calls == [CreateTempFile(Suffix(kind))])
    ensures var calls := Convert(kind, host).calls;
            host.createTempFile(Suffix(kind)).Success? ==>
              var path := host.createTempFile(Suffix(kind)).value;
              && |calls| >= 3
              && calls[1] == WriteAll(path, kind.bytes)
              && calls[|calls| - 1] == RemoveFile(path)
              && Removals(calls, path) == 1
              && (host.writeAll(path, kind.bytes).None? ==> calls[2] == RunCommand(Avconv, AvconvArgs(path)))
              && (host.writeAll(path, kind.bytes).Some? ==> forall i :: 0 <= i < |calls| ==> !IsRun(calls[i]))
  {
    var suffix := Suffix(kind);
    if host.createTempFile(suffix).Success? {
      var path := host.createTempFile(suffix).value;
      var calls := Convert(kind, host).calls;
      var written := [CreateTempFile(suffix), WriteAll(path, kind.bytes)];
      if host.writeAll(path, kind.bytes).None? {
        var converted := [RunCommand(Avconv, AvconvArgs(path)), RemoveFile(path)];
        assert calls == written + converted;
        RemovalsAppend(written, converted, path);
        RemovalsAppend([RunCommand(Avconv, AvconvArgs(path))], [RemoveFile(path)], path);
      } else {
        assert calls == written + [RemoveFile(path)];
        RemovalsAppend(written, [RemoveFile(path)], path);
      }
    }
  }

  /** If the temporary file cannot be created or written, that I/O error is the
      result and avconv is never run. */
  lemma WriteFailureSkipsAvconv(kind: MediaKind, host: Host)
    ensures host.createTempFile(Suffix(kind)).Failure? ==>
              Convert(kind, host).result == Failure(IoError(host.createTempFile(Suffix(kind)).error))
    ensures host.createTempFile(Suffix(kind)).Success? &&
            host.writeAll(host.createTempFile(Suffix(kind)).value, kind.bytes).Some? ==>
              Convert(kind, host).result ==
                Failure(IoError(host.writeAll(host.createTempFile(Suffix(kind)).value, kind.bytes).value))
    ensures Convert(kind, host).result.Failure? && !(exists i :: 0 <= i < |Convert(kind, host).calls| && IsRun(Convert(kind, host).calls[i])) ==>
              Convert(kind, host).result.error.IoError?
  {
    ConvertCalls(kind, host);
  }

  /** `convert` yields audio exactly when the file was created and written,
      avconv ran and exited successfully; the audio is then avconv's stdout. */
  lemma ConvertSucceedsIff(kind: MediaKind, host: Host, audio: seq<byte>)
    ensures Convert(kind, host).result == Success(audio) <==>
              && host.createTempFile(Suffix(kind)).Success?
              && var path := host.createTempFile(Suffix(kind)).value;
                 && host.writeAll(path, kind.bytes).None?
                 && host.output(Avconv, AvconvArgs(path)).Success?
                 && host.output(Avconv, AvconvArgs(path)).value.status.Success()
                 && host.output(Avconv, AvconvArgs(path)).value.stdout == audio
  {
  }
}

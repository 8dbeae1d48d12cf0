/** `decoreco` in src/main.rs: which encoder to run on one file, with which
    argument vector, and how its exit turns into the per-file result. The
    process itself is outside the model; its exit arrives as a value. */
module Encoder {
  import opened Wrappers

  /** The codec names the command line accepts (src/cli.rs). */
  datatype VideoCodec = H264 | Hevc | Vp9 | Vp8 | Av1
  datatype AudioCodec = Aac | Opus | Vorbis | Mp3

  function VideoName(c: VideoCodec): string {
    match c
    case H264 => "h264"
    case Hevc => "hevc"
    case Vp9 => "vp9"
    case Vp8 => "vp8"
    case Av1 => "av1"
  }

  function AudioName(c: AudioCodec): string {
    match c
    case Aac => "aac"
    case Opus => "opus"
    case Vorbis => "vorbis"
    case Mp3 => "mp3"
  }

  /** `--images` or the video codec pair, fixed for the whole run. */
  datatype Mode = Images | Video(video: VideoCodec, audio: AudioCodec)

  /** The position of the last dot of `s`, or -1 when it has none. */
  function LastDot(s: string): (i: int)
    ensures -1 <= i < |s|
    ensures i >= 0 ==> s[i] == '.'
    ensures forall j :: i < j < |s| ==> s[j] != '.'
    decreases |s|
  {
    if s == [] then -1
    else if s[|s| - 1] == '.' then |s| - 1
    else LastDot(s[..|s| - 1])
  }

  /** `s.split('.').last()`: the text after the last dot, or all of `s` when
      it has no dot (`split` always yields at least one piece). */
  function LastSegment(s: string): (r: string)
    ensures '.' !in r
    ensures |r| <= |s| && r == s[|s| - |r|..]
    ensures |r| < |s| ==> s[|s| - |r| - 1] == '.'
    ensures '.' !in s ==> r == s
  {
    var i := LastDot(s);
    assert '.' !in s ==> i == -1;
    s[i + 1..]
  }

  /** The segment taken is the one after the last dot. */
  lemma LastSegmentAfterDot(pre: string, ext: string)
    requires '.' !in ext
    ensures LastSegment(pre + "." + ext) == ext
  {
    var s := pre + "." + ext;
    assert s[|pre|] == '.';
    assert forall j :: |pre| < j < |s| ==> s[j] == ext[j - |pre| - 1];
    assert LastDot(s) == |pre|;
    assert s[|pre| + 1..] == ext;
  }

  datatype Quality = Lossless | Lossy

  function UnsupportedImage(file: string): string {
    file + " is not a supported image format"
  }

  /** Image mode sorts a file by the text after its last dot: `png` is
      encoded losslessly, `jpg` and `jpeg` lossily, anything else refused. */
  function ImageQuality(file: string): (r: Result<Quality, string>)
    ensures r == Ok(Lossless) <==> LastSegment(file) == "png"
    ensures r == Ok(Lossy) <==> LastSegment(file) == "jpg" || LastSegment(file) == "jpeg"
    ensures r.Err? ==> r.error == UnsupportedImage(file)
  {
    var ext := LastSegment(file);
    if ext == "png" then Ok(Lossless)
    else if ext == "jpg" || ext == "jpeg" then Ok(Lossy)
    else Err(UnsupportedImage(file))
  }

  /** The comparison is on the exact text: an upper-case extension is
      refused, and only the last of several extensions counts. */
  lemma UpperCaseRefused()
    ensures ImageQuality("holiday.PNG") == Err(UnsupportedImage("holiday.PNG"))
  {
    assert "holiday.PNG" == "holiday" + "." + "PNG";
    ExtensionOf("holiday", "PNG");
  }

  lemma LastExtensionCounts()
    ensures ImageQuality("scan.tar.png") == Ok(Lossless)
  {
    assert "scan.tar.png" == "scan.tar" + "." + "png";
    ExtensionOf("scan.tar", "png");
  }

  /** Classifying `pre.ext` depends on `ext` alone. */
  lemma ExtensionOf(pre: string, ext: string)
    requires '.' !in ext
    ensures var q := ImageQuality(pre + "." + ext);
            && (ext == "png" ==> q == Ok(Lossless))
            && (ext == "jpeg" ==> q == Ok(Lossy))
            && (ext != "png" && ext != "jpg" && ext != "jpeg" ==> q == Err(pre + "." + ext + " is not a supported image format"))
  {
    LastSegmentAfterDot(pre, ext);
  }

  /** `Path::join` with the scratch directory: a relative name goes under the
      directory, an absolute one replaces it, and an empty directory adds no
      separator. */
  function Join(dir: string, name: string): (path: string)
    ensures |name| > 0 && name[0] == '/' ==> path == name
    ensures dir == [] ==> path == name
    ensures dir != [] && !(|name| > 0 && name[0] == '/') ==>
              |path| > |name| && |path| >= |dir| + |name| && path[..|dir|] == dir && path[|path| - |name|..] == name
              && path[|path| - |name| - 1] == '/'
    ensures dir != [] && !(|name| > 0 && name[0] == '/') ==>
              |path| == |dir| + |name| + (if dir[|dir| - 1] == '/' then 0 else 1)
  {
    if |name| > 0 && name[0] == '/' then name
    else if dir == [] then name
    else if dir[|dir| - 1] == '/' then dir + name
    else dir + "/" + name
  }

  /** One external command: the program and its argument vector. */
  datatype Invocation = Invocation(program: string, args: seq<string>)

  /** `cjxl [-d 0] <file> <out>`: the distance option only for lossless. */
  function CjxlArgs(q: Quality, file: string, out: string): (args: seq<string>)
    ensures |args| == (if q == Lossless then 4 else 2)
    ensures args[|args| - 2..] == [file, out]
    ensures q == Lossless ==> args[..2] == ["-d", "0"]
  {
    (if q == Lossless then ["-d", "0"] else []) + [file, out]
  }

  /** The ffmpeg vector: input, video and audio codec, subtitles copied,
      metadata of input 0 kept, overwrite, output. */
  function FfmpegArgs(v: VideoCodec, a: AudioCodec, file: string, out: string): (args: seq<string>)
    ensures |args| == 12 && args[0] == "-i" && args[1] == file && args[11] == out
    ensures args[2] == "-c:v" && args[3] == VideoName(v) && args[4] == "-c:a" && args[5] == AudioName(a)
    ensures args[6] == "-c:s" && args[7] == "copy" && args[8] == "-map_metadata" && args[9] == "0" && args[10] == "-y"
  {
    ["-i", file, "-c:v", VideoName(v), "-c:a", AudioName(a), "-c:s", "copy",
     "-map_metadata", "0", "-y", out]
  }

  /** The command `decoreco` runs for `file`, writing to `out`; in image mode
      an unsupported extension is refused before any command exists. */
  function CommandFor(mode: Mode, file: string, out: string): (r: Result<Invocation, string>)
    ensures mode.Images? ==> (r.Err? <==> ImageQuality(file).Err?)
    ensures mode.Images? && r.Ok? ==>
              r.value.program == "cjxl" && |r.value.args| >= 2 && r.value.args[|r.value.args| - 2..] == [file, out]
    ensures mode.Video? ==>
              r.Ok? && r.value.program == "ffmpeg" && |r.value.args| == 12 && r.value.args[1] == file
    ensures r.Ok? ==> |r.value.args| >= 2 && r.value.args[|r.value.args| - 1] == out
    ensures mode.Video? ==> r == Ok(Invocation("ffmpeg", FfmpegArgs(mode.video, mode.audio, file, out)))
    ensures mode.Images? && r.Ok? ==> r.value == Invocation("cjxl", CjxlArgs(ImageQuality(file).value, file, out))
  {
    match mode
    case Images =>
      (match ImageQuality(file)
       case Err(e) => Err(e)
       case Ok(q) => Ok(Invocation("cjxl", CjxlArgs(q, file, out))))
    case Video(v, a) => Ok(Invocation("ffmpeg", FfmpegArgs(v, a, file, out)))
  }

  // ---------------------------------------------------------------------------
  // Reading an argument vector back, the way the encoders read it.

  /** Options given as a name and a value, switches given as a name alone,
      and the remaining positional words in order. */
  datatype Parsed = Parsed(options: map<string, string>, switches: set<string>, positional: seq<string>)

  /** Reads `args` left to right; a repeated option keeps its last value. */
  function ParseArgs(args: seq<string>, valued: set<string>, flags: set<string>): Parsed
    decreases |args|
  {
    if args == [] then Parsed(map[], {}, [])
    else if args[0] in valued && |args| >= 2 then
      var p := ParseArgs(args[2..], valued, flags);
      if args[0] in p.options then p else p.(options := p.options[args[0] := args[1]])
    else
      var p := ParseArgs(args[1..], valued, flags);
      if args[0] in flags then p.(switches := p.switches + {args[0]})
      else p.(positional := [args[0]] + p.positional)
  }

  const FfmpegValued: set<string> := {"-i", "-c:v", "-c:a", "-c:s", "-map_metadata"}
  const FfmpegFlags: set<string> := {"-y"}
  const CjxlValued: set<string> := {"-d"}

  predicate IsOption(s: string) {
    |s| > 0 && s[0] == '-'
  }

  lemma ParseEmpty(valued: set<string>, flags: set<string>)
    ensures ParseArgs([], valued, flags) == Parsed(map[], {}, [])
  {
  }

  lemma ParseValued(name: string, value: string, rest: seq<string>, valued: set<string>, flags: set<string>)
    requires name in valued && name !in ParseArgs(rest, valued, flags).options
    ensures var p := ParseArgs(rest, valued, flags);
            ParseArgs([name, value] + rest, valued, flags) == p.(options := p.options[name := value])
  {
    assert ([name, value] + rest)[2..] == rest;
  }

  lemma ParseFlag(name: string, rest: seq<string>, valued: set<string>, flags: set<string>)
    requires name !in valued && name in flags
    ensures var p := ParseArgs(rest, valued, flags);
            ParseArgs([name] + rest, valued, flags) == p.(switches := p.switches + {name})
  {
    assert ([name] + rest)[1..] == rest;
  }

  lemma ParsePositional(word: string, rest: seq<string>, valued: set<string>, flags: set<string>)
    requires word !in valued && word !in flags
    ensures var p := ParseArgs(rest, valued, flags);
            ParseArgs([word] + rest, valued, flags) == p.(positional := [word] + p.positional)
  {
    assert ([word] + rest)[1..] == rest;
  }

  lemma NotAnOptionName(w: string, names: set<string>)
    requires !IsOption(w)
    requires forall n :: n in names ==> IsOption(n)
    ensures w !in names
  {
  }

  /** ffmpeg reads back the input, both codecs, subtitle copying, metadata
      mapping, the overwrite switch and the output, whatever the file is
      called. */
  lemma FfmpegArgsReadBack(v: VideoCodec, a: AudioCodec, file: string, out: string)
    requires !IsOption(out)
    ensures ParseArgs(FfmpegArgs(v, a, file, out), FfmpegValued, FfmpegFlags)
         == Parsed(map["-map_metadata" := "0", "-c:s" := "copy", "-c:a" := AudioName(a),
                       "-c:v" := VideoName(v), "-i" := file],
                   {"-y"}, [out])
  {
    FfmpegShape(v, a, file, out);
    FfmpegCodecs(v, a, out);
    ParseValued("-i", file, CodecTail(v, a, out), FfmpegValued, FfmpegFlags);
  }

  /** The words after `-i <file>`, and the words after each codec option. */
  function CodecTail(v: VideoCodec, a: AudioCodec, out: string): seq<string> {
    ["-c:v", VideoName(v)] + AudioTail(a, out)
  }

  function AudioTail(a: AudioCodec, out: string): seq<string> {
    ["-c:a", AudioName(a)] + SubsTail(out)
  }

  function SubsTail(out: string): seq<string> {
    ["-c:s", "copy", "-map_metadata", "0", "-y", out]
  }

  lemma FfmpegShape(v: VideoCodec, a: AudioCodec, file: string, out: string)
    ensures FfmpegArgs(v, a, file, out) == ["-i", file] + CodecTail(v, a, out)
  {
  }

  lemma FfmpegCodecs(v: VideoCodec, a: AudioCodec, out: string)
    requires !IsOption(out)
    ensures ParseArgs(CodecTail(v, a, out), FfmpegValued, FfmpegFlags)
         == Parsed(map["-map_metadata" := "0", "-c:s" := "copy", "-c:a" := AudioName(a), "-c:v" := VideoName(v)],
                   {"-y"}, [out])
  {
    FfmpegAudio(a, out);
    ParseValued("-c:v", VideoName(v), AudioTail(a, out), FfmpegValued, FfmpegFlags);
  }

  lemma FfmpegAudio(a: AudioCodec, out: string)
    requires !IsOption(out)
    ensures ParseArgs(AudioTail(a, out), FfmpegValued, FfmpegFlags)
         == Parsed(map["-map_metadata" := "0", "-c:s" := "copy", "-c:a" := AudioName(a)], {"-y"}, [out])
  {
    FfmpegTail(out);
    ParseValued("-c:a", AudioName(a), SubsTail(out), FfmpegValued, FfmpegFlags);
  }

  /** The fixed end of the ffmpeg vector: subtitles, metadata, overwrite, output. */
  lemma FfmpegTail(out: string)
    requires !IsOption(out)
    ensures ParseArgs(SubsTail(out), FfmpegValued, FfmpegFlags)
         == Parsed(map["-map_metadata" := "0", "-c:s" := "copy"], {"-y"}, [out])
  {
    var V, F := FfmpegValued, FfmpegFlags;
    NotAnOptionName(out, V);
    NotAnOptionName(out, F);
    ParseEmpty(V, F);
    ParsePositional(out, [], V, F);
    assert [out] + [] == [out];
    var r0 := ["-y", out];
    ParseFlag("-y", [out], V, F);
    assert ParseArgs(r0, V, F) == Parsed(map[], {"-y"}, [out]);
    var r1 := ["-map_metadata", "0"] + r0;
    ParseValued("-map_metadata", "0", r0, V, F);
    assert ParseArgs(r1, V, F) == Parsed(map["-map_metadata" := "0"], {"-y"}, [out]);
    ParseValued("-c:s", "copy", r1, V, F);
    assert ["-c:s", "copy"] + r1 == SubsTail(out);
  }

  /** cjxl reads back the input and output, and the distance 0 (lossless)
      exactly when the file is a png. */
  lemma CjxlArgsReadBack(q: Quality, file: string, out: string)
    requires !IsOption(file) && !IsOption(out)
    ensures ParseArgs(CjxlArgs(q, file, out), CjxlValued, {})
         == Parsed(if q == Lossless then map["-d" := "0"] else map[], {}, [file, out])
  {
    var V: set<string>, F: set<string> := CjxlValued, {};
    NotAnOptionName(out, V);
    NotAnOptionName(file, V);
    ParseEmpty(V, F);
    ParsePositional(out, [], V, F);
    assert [out] + [] == [out];
    ParsePositional(file, [out], V, F);
    assert [file] + [out] == [file, out];
    if q == Lossless {
      ParseValued("-d", "0", [file, out], V, F);
      assert CjxlArgs(q, file, out) == ["-d", "0"] + [file, out];
    } else {
      assert CjxlArgs(q, file, out) == [file, out];
    }
  }

  /** The whole command in image mode: lossless exactly for png files. */
  lemma ImageCommandReadBack(file: string, out: string)
    requires !IsOption(file) && !IsOption(out)
    requires ImageQuality(file).Ok?
    ensures CommandFor(Images, file, out).Ok?
    ensures var p := ParseArgs(CommandFor(Images, file, out).value.args, CjxlValued, {});
            p.positional == [file, out] && p.options == (if LastSegment(file) == "png" then map["-d" := "0"] else map[])
             && p.switches == {}
  {
    CjxlArgsReadBack(ImageQuality(file).value, file, out);
  }

  // ---------------------------------------------------------------------------
  // Running the command

  /** What the process call gave back: it could not be started, or it ran and
      exited with a status and captured error output. */
  datatype Exit = SpawnFailed(error: string) | Exited(success: bool, stderr: string)

  /** `"{file}\n{stderr}\n"`. */
  function FailureReport(file: string, stderr: string): (msg: string)
    ensures |msg| == |file| + |stderr| + 2
    ensures msg[..|file|] == file && msg[|file|] == '\n' && msg[|file| + 1..|msg| - 1] == stderr && msg[|msg| - 1] == '\n'
  {
    file + "\n" + stderr + "\n"
  }

  /** `decoreco(matches, tmp, name, file)`: `Ok` exactly when a command was
      built and exited successfully. */
  function Decoreco(mode: Mode, dir: string, name: string, file: string, exit: Exit): (r: Result<(), string>)
    ensures r.Ok? <==> CommandFor(mode, file, Join(dir, name)).Ok? && exit.Exited? && exit.success
    ensures mode.Images? && ImageQuality(file).Err? ==> r == Err(UnsupportedImage(file))
    ensures CommandFor(mode, file, Join(dir, name)).Ok? && exit.SpawnFailed? ==> r == Err(exit.error)
    ensures CommandFor(mode, file, Join(dir, name)).Ok? && exit.Exited? && !exit.success
            ==> r == Err(FailureReport(file, exit.stderr))
  {
    match CommandFor(mode, file, Join(dir, name))
    case Err(e) => Err(e)
    case Ok(_) =>
      match exit
      case SpawnFailed(e) => Err(e)
      case Exited(ok, stderr) => if ok then Ok(()) else Err(FailureReport(file, stderr))
  }

  /** The refusal of an unsupported image does not depend on the process. */
  lemma UnsupportedIgnoresExit(dir: string, name: string, file: string, e1: Exit, e2: Exit)
    requires ImageQuality(file).Err?
    ensures Decoreco(Images, dir, name, file, e1) == Decoreco(Images, dir, name, file, e2)
  {
  }

  function IndexOfNewline(s: string): (i: nat)
    requires '\n' in s
    ensures i < |s| && s[i] == '\n' && '\n' !in s[..i]
  {
    if s[0] == '\n' then 0
    else
      var i := 1 + IndexOfNewline(s[1..]);
      assert s[..i] == [s[0]] + s[1..][..i - 1];
      i
  }

  /** The file name and captured output read back from a failure report. */
  function SplitReport(msg: string): Option<(string, string)> {
    if '\n' !in msg || |msg| < 2 || msg[|msg| - 1] != '\n' then None
    else
      var i := IndexOfNewline(msg);
      if i + 1 > |msg| - 1 then None else Some((msg[..i], msg[i + 1..|msg| - 1]))
  }

  /** A failure report names the file and carries its captured output intact,
      for any file name without a newline. */
  lemma FailureReportReadBack(file: string, stderr: string)
    requires '\n' !in file
    ensures SplitReport(FailureReport(file, stderr)) == Some((file, stderr))
  {
    var msg := FailureReport(file, stderr);
    assert msg[|file|] == '\n';
    assert forall j :: 0 <= j < |file| ==> msg[j] == file[j];
    var i := IndexOfNewline(msg);
    assert forall j :: 0 <= j < i ==> msg[..i][j] == msg[j];
    assert i == |file|;
    assert msg[..|file|] == file;
    assert msg[|file| + 1..|msg| - 1] == stderr;
  }
}

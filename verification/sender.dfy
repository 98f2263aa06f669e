/** The capture host's stream launcher (sender/sender.py): the ffmpeg
    argument vector built from the configuration, the diagnostic printed
    when ffmpeg exits, and the monitoring loop that stops at the first exit. */
module Sender {
  import opened Wrappers
  import opened Strings

  /** The values sender/config.py holds. The receiver port is kept as the
      text that ends up in the output URL: the GUI patches it in as the
      entry's text, the config file holds the number 12345. */
  datatype SenderConfig = SenderConfig(
    receiverIp: string,
    receiverPort: string,
    discoveryPort: int,
    scalingResolution: Option<string>,
    fps: int,
    screenIndex: string,
    audioIndex: string,
    preset: string,
    tune: string,
    bitrate: string,
    gopSize: int)

  /** sender/config.py as shipped. */
  const DefaultConfig: SenderConfig := SenderConfig(
    receiverIp := "192.168.1.100",
    receiverPort := IntToString(12345),
    discoveryPort := 5001,
    scalingResolution := Some("1280:720"),
    fps := 30,
    screenIndex := "1",
    audioIndex := "none",
    preset := "ultrafast",
    tune := "zerolatency",
    bitrate := "5000k",
    gopSize := 30)

  /** Python truthiness of `SCALING_RESOLUTION`: neither `None` nor "". */
  predicate Scales(c: SenderConfig)
  {
    c.scalingResolution.Some? && c.scalingResolution.value != ""
  }

  /** The AVFoundation input `"<screen>:<audio>"`. */
  function CaptureDevice(c: SenderConfig): string
  {
    c.screenIndex + ":" + c.audioIndex
  }

  /** The MPEG-TS output `"tcp://<ip>:<port>"`. */
  function OutputUrl(c: SenderConfig): string
  {
    "tcp://" + c.receiverIp + ":" + c.receiverPort
  }

  /** Position of the optional `-vf` filter and of the output options. */
  const ScaleAt: nat := 23

  /** build_ffmpeg_command: capture options, fixed libx264 encoding options,
      the scale filter only when scaling is configured, then the output. */
  function BuildFfmpegCommand(c: SenderConfig): (cmd: seq<string>)
    ensures |cmd| == if Scales(c) then 28 else 26
    ensures cmd[0] == "ffmpeg"
    ensures cmd[1..7] == ["-f", "avfoundation", "-capture_cursor", "1", "-pixel_format", "uyvy422"]
    ensures cmd[13..19] == ["-preset", c.preset, "-tune", c.tune, "-b:v", c.bitrate]
    ensures cmd[|cmd| - 3..] == ["-f", "mpegts", OutputUrl(c)]
    ensures cmd[7..11] == ["-framerate", IntToString(c.fps), "-i", CaptureDevice(c)]
    ensures cmd[11..13] == ["-c:v", "libx264"] && cmd[21..23] == ["-pix_fmt", "yuv420p"]
    ensures cmd[19..21] == ["-g", IntToString(c.gopSize)]
    ensures cmd[ScaleAt] == "-vf" <==> Scales(c)
    ensures Scales(c) ==> cmd[ScaleAt + 1] == "scale=" + c.scalingResolution.value
  {
    var capture := [
      "ffmpeg",
      "-f", "avfoundation",
      "-capture_cursor", "1",
      "-pixel_format", "uyvy422",
      "-framerate", IntToString(c.fps),
      "-i", CaptureDevice(c)];
    var encode := [
      "-c:v", "libx264",
      "-preset", c.preset,
      "-tune", c.tune,
      "-b:v", c.bitrate,
      "-g", IntToString(c.gopSize),
      "-pix_fmt", "yuv420p"];
    var scale := if Scales(c) then ["-vf", "scale=" + c.scalingResolution.value] else [];
    capture + encode + scale + ["-f", "mpegts", OutputUrl(c)]
  }

  /** Without scaling, no `-vf` token appears at all, provided the three
      free-text encoder settings are not themselves the word `-vf`; with
      scaling it appears. */
  lemma ScaleFlagIffScaling(c: SenderConfig)
    requires c.preset != "-vf" && c.tune != "-vf" && c.bitrate != "-vf"
    ensures "-vf" in BuildFfmpegCommand(c) <==> Scales(c)
  {
    var cmd := BuildFfmpegCommand(c);
    IntToStringNotOption(c.fps, "-vf");
    IntToStringNotOption(c.gopSize, "-vf");
    assert ':' in CaptureDevice(c) && ':' in OutputUrl(c);
    if !Scales(c) {
      forall k | 0 <= k < |cmd|
        ensures cmd[k] != "-vf"
      {
        if k == 10 {
          assert ':' in cmd[k];
        } else if k == 25 {
          assert ':' in cmd[k];
        }
      }
    } else {
      assert cmd[ScaleAt] == "-vf";
    }
  }

  /** Turning scaling on inserts exactly the two filter tokens before the
      output options and changes nothing else; an empty resolution is the
      same as none. */
  lemma ScalingOnlyInsertsFilter(c: SenderConfig, r: string)
    ensures var plain := BuildFfmpegCommand(c.(scalingResolution := None));
            BuildFfmpegCommand(c.(scalingResolution := Some(r))) ==
              if r == "" then plain
              else plain[..ScaleAt] + ["-vf", "scale=" + r] + plain[ScaleAt..]
  {
  }

  /** What `main` prints once ffmpeg has exited. */
  datatype ExitDiagnostic =
    | ReceiverUnreachable
    | EncoderError(tail: string)

  const RefusedSignature: string := "Connection refused"
  const ErrorTailLength: nat := 500

  /** The exit diagnostic: a refused connection means the receiver is not
      listening yet; anything else reports the last 500 characters of
      ffmpeg's error output. */
  function ClassifyExit(stderr: string): (d: ExitDiagnostic)
    ensures d.ReceiverUnreachable? <==> exists i :: OccursAt(stderr, RefusedSignature, i)
    ensures d.EncoderError? ==>
              |d.tail| == (if |stderr| <= ErrorTailLength then |stderr| else ErrorTailLength)
              && stderr == stderr[..|stderr| - |d.tail|] + d.tail
  {
    ContainsIffOccurs(stderr, RefusedSignature);
    if Contains(stderr, RefusedSignature) then ReceiverUnreachable
    else EncoderError(Tail(stderr, ErrorTailLength))
  }

  /** What one poll of the running ffmpeg observed. */
  datatype Poll =
    | StillRunning
    | Exited(stderr: string)
    | Interrupted

  predicate Ends(p: Poll)
  {
    !p.StillRunning?
  }

  /** How the sender's run ended, if it has. */
  datatype SenderEnd =
    | Streaming
    | Ended(diagnostic: ExitDiagnostic)
    | StoppedByUser

  /** The end reached and the number of polls it took. */
  datatype Monitoring = Monitoring(end: SenderEnd, polls: nat)

  /** The `while True` loop of `main`: poll once a second, and on the first
      exit print the diagnostic and leave the loop; ffmpeg is never started
      again. An interrupt stops the stream instead. */
  function Monitor(polls: seq<Poll>): (m: Monitoring)
    ensures m.polls <= |polls|
    ensures m.end.Streaming? <==> forall i :: 0 <= i < |polls| ==> !Ends(polls[i])
    ensures m.end.Streaming? ==> m.polls == |polls|
    ensures !m.end.Streaming? ==>
              m.polls >= 1 && Ends(polls[m.polls - 1])
              && forall i :: 0 <= i < m.polls - 1 ==> !Ends(polls[i])
    ensures m.end.Ended? <==> !m.end.Streaming? && polls[m.polls - 1].Exited?
    ensures m.end.Ended? ==> m.end.diagnostic == ClassifyExit(polls[m.polls - 1].stderr)
    decreases |polls|
  {
    if |polls| == 0 then Monitoring(Streaming, 0)
    else match polls[0]
      case Exited(stderr) => Monitoring(Ended(ClassifyExit(stderr)), 1)
      case Interrupted => Monitoring(StoppedByUser, 1)
      case StillRunning =>
        var rest := Monitor(polls[1..]);
        assert forall i :: 1 <= i < |polls| ==> polls[i] == polls[1..][i - 1];
        Monitoring(rest.end, rest.polls + 1)
  }

  /** No retry: once the run has ended, whatever would be observed later
      changes nothing. */
  lemma {:induction false} NoRetryAfterEnd(polls: seq<Poll>, later: seq<Poll>)
    requires !Monitor(polls).end.Streaming?
    ensures Monitor(polls + later) == Monitor(polls)
    decreases |polls|
  {
    if polls[0].StillRunning? {
      assert (polls + later)[1..] == polls[1..] + later;
      NoRetryAfterEnd(polls[1..], later);
    }
  }
}

/** The playback host's listener (receiver/receiver.py): the ffplay argument
    vector, the classification of each finished ffplay run, and the endless
    relaunch loop that only an interrupt leaves. */
module Receiver {
  import opened Strings
  import opened Seqs

  /** The values receiver/config.py holds. The port is kept as the text that
      ends up in the input URL (the GUI patches in the entry's text). */
  datatype ReceiverConfig = ReceiverConfig(
    listenIp: string,
    port: string,
    discoveryPort: int,
    fullscreen: bool,
    windowTitle: string,
    fflags: string,
    probesize: string,
    analyzeDuration: string)

  /** receiver/config.py as shipped. */
  const DefaultConfig: ReceiverConfig := ReceiverConfig(
    listenIp := "0.0.0.0",
    port := IntToString(12345),
    discoveryPort := 5001,
    fullscreen := true,
    windowTitle := "OpenSecondDisplay Receiver",
    fflags := "nobuffer",
    probesize := "32",
    analyzeDuration := "0")

  /** The listening input `"tcp://<ip>:<port>?listen"`. */
  function InputUrl(c: ReceiverConfig): string
  {
    "tcp://" + c.listenIp + ":" + c.port + "?listen"
  }

  /** build_ffplay_command: low-latency playback options and the listening
      MPEG-TS input last, with `-fs` inserted right after the program name
      when fullscreen is on. */
  function BuildFfplayCommand(c: ReceiverConfig): (cmd: seq<string>)
    ensures |cmd| == if c.fullscreen then 19 else 18
    ensures cmd[0] == "ffplay"
    ensures cmd[|cmd| - 3..] == ["-f", "mpegts", InputUrl(c)]
    ensures cmd[1] == "-fs" <==> c.fullscreen
    ensures !c.fullscreen ==> cmd[1] == "-window_title"
    ensures var o := if c.fullscreen then 1 else 0;
            cmd[o + 1..o + 15] == ["-window_title", c.windowTitle, "-fflags", c.fflags,
                                   "-flags", "low_delay", "-strict", "experimental",
                                   "-probesize", c.probesize, "-analyzeduration", c.analyzeDuration,
                                   "-vf", "setpts=0"]
  {
    var base := [
      "ffplay",
      "-window_title", c.windowTitle,
      "-fflags", c.fflags,
      "-flags", "low_delay",
      "-strict", "experimental",
      "-probesize", c.probesize,
      "-analyzeduration", c.analyzeDuration,
      "-vf", "setpts=0",
      "-f", "mpegts",
      InputUrl(c)];
    if c.fullscreen then InsertAt(base, 1, "-fs") else base
  }

  /** Fullscreen only inserts `-fs`: taking it out again gives the windowed
      command, so every other token keeps its relative order. */
  lemma FullscreenOnlyInsertsFlag(c: ReceiverConfig)
    ensures RemoveAt(BuildFfplayCommand(c.(fullscreen := true)), 1)
            == BuildFfplayCommand(c.(fullscreen := false))
  {
  }

  /** `-fs` appears anywhere in the command exactly when fullscreen is on,
      provided no free-text setting is itself the word `-fs`. */
  lemma FullscreenFlagIff(c: ReceiverConfig)
    requires c.windowTitle != "-fs" && c.fflags != "-fs"
    requires c.probesize != "-fs" && c.analyzeDuration != "-fs"
    ensures "-fs" in BuildFfplayCommand(c) <==> c.fullscreen
  {
  }

  /** How one iteration of the loop ended: ffplay ran to completion with a
      return code, an exception was raised, or the user interrupted. */
  datatype Outcome =
    | Completed(returnCode: int)
    | Raised(error: string)
    | Interrupted

  /** What the loop prints about an iteration. */
  datatype Report =
    | EndedNormally
    | EndedWithCode(code: int)
    | CriticalError(error: string)
    | StoppingReceiver

  /** What the loop does next: wait and relaunch, or exit the program. */
  datatype Step =
    | Relaunch(report: Report, cooldownSeconds: nat)
    | Exit(report: Report, status: int)

  const CompletedCooldown: nat := 1
  const ErrorCooldown: nat := 5

  /** Return code 0 is a normal end; any other code is reported as such. */
  function ClassifyReturnCode(code: int): (r: Report)
    ensures r.EndedNormally? <==> code == 0
    ensures r.EndedNormally? || r == EndedWithCode(code)
  {
    if code == 0 then EndedNormally else EndedWithCode(code)
  }

  /** One iteration's consequence: a finished ffplay is followed by a 1 s
      pause, a caught exception by a 5 s pause, and only an interrupt ends
      the program, with status 0. */
  function StepAfter(o: Outcome): (s: Step)
    ensures s.Exit? <==> o.Interrupted?
    ensures s.Exit? ==> s.status == 0
    ensures o.Completed? ==> s == Relaunch(ClassifyReturnCode(o.returnCode), CompletedCooldown)
    ensures o.Interrupted? ==> s.report == StoppingReceiver
    ensures o.Raised? ==> s == Relaunch(CriticalError(o.error), ErrorCooldown)
  {
    match o
    case Completed(code) => Relaunch(ClassifyReturnCode(code), CompletedCooldown)
    case Raised(e) => Relaunch(CriticalError(e), ErrorCooldown)
    case Interrupted => Exit(StoppingReceiver, 0)
  }

  /** What the loop did over a run of iterations: the command each iteration
      set out to launch (recorded even when the iteration raised before ffplay
      started, say because the executable was missing), each report it
      printed, the seconds it paused, and whether it exited. */
  datatype ReceiverRun = ReceiverRun(
    launches: seq<seq<string>>,
    reports: seq<Report>,
    pausedSeconds: nat,
    exited: bool)

  /** One more iteration of a loop that has not exited: launch `cmd`, print
      the report of outcome `o`, then pause or exit. */
  function Advance(run: ReceiverRun, cmd: seq<string>, o: Outcome): ReceiverRun
  {
    match StepAfter(o)
    case Relaunch(report, pause) =>
      ReceiverRun(run.launches + [cmd], run.reports + [report], run.pausedSeconds + pause, false)
    case Exit(report, _) =>
      ReceiverRun(run.launches + [cmd], run.reports + [report], run.pausedSeconds, true)
  }

  /** The loop of `main` over the outcomes of successive iterations, each of
      which launches the same command `cmd`. Outcomes after the exit are
      never reached. */
  function Supervise(cmd: seq<string>, outcomes: seq<Outcome>): (r: ReceiverRun)
    ensures |r.launches| == |r.reports| <= |outcomes|
    ensures forall k :: 0 <= k < |r.launches| ==> r.launches[k] == cmd
    ensures r.exited <==> exists i :: 0 <= i < |outcomes| && outcomes[i].Interrupted?
    ensures !r.exited ==> |r.launches| == |outcomes|
    ensures r.exited ==>
              |r.launches| >= 1 && outcomes[|r.launches| - 1].Interrupted?
              && forall i :: 0 <= i < |r.launches| - 1 ==> !outcomes[i].Interrupted?
    ensures var relaunched := if r.exited then |r.launches| - 1 else |r.launches|;
            CompletedCooldown * relaunched <= r.pausedSeconds <= ErrorCooldown * relaunched
    decreases |outcomes|
  {
    if |outcomes| == 0 then ReceiverRun([], [], 0, false)
    else
      var n := |outcomes| - 1;
      var prev := Supervise(cmd, outcomes[..n]);
      assert forall i :: 0 <= i < n ==> outcomes[..n][i] == outcomes[i];
      if prev.exited then prev else Advance(prev, cmd, outcomes[n])
  }

  /** The k-th report printed is the report of the k-th iteration's own
      outcome: nothing is skipped, reordered or reworded. */
  lemma {:induction false} SupervisedReports(cmd: seq<string>, outcomes: seq<Outcome>)
    ensures forall k :: 0 <= k < |Supervise(cmd, outcomes).reports| ==>
              Supervise(cmd, outcomes).reports[k] == StepAfter(outcomes[k]).report
    decreases |outcomes|
  {
    if |outcomes| > 0 {
      var n := |outcomes| - 1;
      SupervisedReports(cmd, outcomes[..n]);
      assert forall i :: 0 <= i < n ==> outcomes[..n][i] == outcomes[i];
    }
  }

  /** One more outcome advances a loop that has not exited by one iteration. */
  lemma SuperviseStep(cmd: seq<string>, outcomes: seq<Outcome>, i: nat)
    requires i < |outcomes| && !Supervise(cmd, outcomes[..i]).exited
    ensures Supervise(cmd, outcomes[..i + 1]) == Advance(Supervise(cmd, outcomes[..i]), cmd, outcomes[i])
  {
    var prefix := outcomes[..i + 1];
    assert prefix[..i] == outcomes[..i] && prefix[i] == outcomes[i];
  }

  /** An exited loop ignores one more outcome. */
  lemma ExitedIgnoresOne(cmd: seq<string>, outcomes: seq<Outcome>, o: Outcome)
    requires Supervise(cmd, outcomes).exited
    ensures Supervise(cmd, outcomes + [o]) == Supervise(cmd, outcomes)
  {
    assert (outcomes + [o])[..|outcomes|] == outcomes;
  }

  /** Once the loop has exited, later outcomes change nothing. */
  lemma {:induction false} NothingAfterExit(cmd: seq<string>, outcomes: seq<Outcome>, later: seq<Outcome>)
    requires Supervise(cmd, outcomes).exited
    ensures Supervise(cmd, outcomes + later) == Supervise(cmd, outcomes)
    decreases |later|
  {
    if |later| > 0 {
      var n := |later| - 1;
      var front := outcomes + later[..n];
      NothingAfterExit(cmd, outcomes, later[..n]);
      ExitedIgnoresOne(cmd, front, later[n]);
      AppendLast(outcomes, later);
    } else {
      assert outcomes + later == outcomes;
    }
  }

  /** `main`: the command is built once, before the loop, and each
      iteration launches it, classifies the result and pauses or exits. */
  method RunReceiver(c: ReceiverConfig, outcomes: seq<Outcome>) returns (run: ReceiverRun)
    ensures run == Supervise(BuildFfplayCommand(c), outcomes)
    ensures forall k :: 0 <= k < |run.launches| ==> run.launches[k] == BuildFfplayCommand(c)
  {
    run := RunLoop(BuildFfplayCommand(c), outcomes);
  }

  /** The loop itself, over an already built command. */
  method RunLoop(cmd: seq<string>, outcomes: seq<Outcome>) returns (run: ReceiverRun)
    ensures run == Supervise(cmd, outcomes)
  {
    run := ReceiverRun([], [], 0, false);
    var i := 0;
    while i < |outcomes| && !run.exited
      invariant 0 <= i <= |outcomes|
      invariant run == Supervise(cmd, outcomes[..i])
      invariant run.exited ==> run == Supervise(cmd, outcomes)
      decreases |outcomes| - i
    {
      SuperviseStep(cmd, outcomes, i);
      run := Advance(run, cmd, outcomes[i]);
      i := i + 1;
      if run.exited {
        NothingAfterExit(cmd, outcomes[..i], outcomes[i..]);
        assert outcomes[..i] + outcomes[i..] == outcomes;
      }
    }
    if !run.exited {
      assert outcomes[..i] == outcomes;
    }
  }
}

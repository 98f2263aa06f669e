/** The sender window's hand-over to the stream launcher (start_stream and
    run_process in sender/gui.py): the form is checked, its values pass
    through the environment, and three configuration values are replaced. */
module SenderGui {
  import opened Wrappers
  import Sender

  /** The resolution menu entry that means "do not scale". */
  const NativeChoice: string := "Native"

  datatype StartError = MissingReceiverIp

  /** The values start_stream places in the environment for run_process. */
  datatype StreamEnv = StreamEnv(receiverIp: string, receiverPort: string, scalingResolution: string)

  /** A resolution the sender will scale to: anything but "Native" and
      the empty text. */
  predicate ScalesTo(choice: string)
  {
    choice != NativeChoice && choice != ""
  }

  /** start_stream: an empty IP field is refused before anything is
      started; otherwise the form's values are passed on, "Native" as the
      empty text. */
  function StartStream(ip: string, port: string, choice: string): (r: Result<StreamEnv, StartError>)
    ensures r.Err? <==> ip == ""
    ensures r.Ok? ==> r.value.receiverIp == ip && r.value.receiverPort == port
    ensures r.Ok? ==> (r.value.scalingResolution == "" <==> !ScalesTo(choice))
    ensures r.Ok? && ScalesTo(choice) ==> r.value.scalingResolution == choice
  {
    if ip == "" then Err(MissingReceiverIp)
    else Ok(StreamEnv(ip, port, if choice != NativeChoice then choice else ""))
  }

  /** run_process: the environment's values replace the receiver address,
      port and scaling resolution (empty text becoming `None`); every other
      setting keeps its configured value. */
  function ApplyEnv(base: Sender.SenderConfig, env: StreamEnv): (c: Sender.SenderConfig)
    ensures c.receiverIp == env.receiverIp && c.receiverPort == env.receiverPort
    ensures c.scalingResolution.None? <==> env.scalingResolution == ""
    ensures c.scalingResolution.Some? ==> c.scalingResolution.value == env.scalingResolution
    ensures c.(receiverIp := base.receiverIp, receiverPort := base.receiverPort,
               scalingResolution := base.scalingResolution) == base
  {
    base.(receiverIp := env.receiverIp, receiverPort := env.receiverPort,
          scalingResolution := if env.scalingResolution != "" then Some(env.scalingResolution) else None)
  }

  /** The configuration the stream is started with, from the form. */
  function StreamConfig(base: Sender.SenderConfig, ip: string, port: string, choice: string)
    : (r: Result<Sender.SenderConfig, StartError>)
    ensures r.Err? <==> ip == ""
    ensures r.Ok? ==> Sender.OutputUrl(r.value) == "tcp://" + ip + ":" + port
    ensures r.Ok? ==> (Sender.Scales(r.value) <==> ScalesTo(choice))
    ensures r.Ok? && ScalesTo(choice) ==> r.value.scalingResolution == Some(choice)
  {
    match StartStream(ip, port, choice)
    case Err(e) => Err(e)
    case Ok(env) => Ok(ApplyEnv(base, env))
  }

  /** From the form to ffmpeg: the command streams to the entered address
      and port, and carries the scale filter exactly when a resolution
      other than "Native" was chosen. */
  lemma FormReachesCommand(base: Sender.SenderConfig, ip: string, port: string, choice: string)
    requires ip != ""
    ensures StreamConfig(base, ip, port, choice).Ok?
    ensures var cmd := Sender.BuildFfmpegCommand(StreamConfig(base, ip, port, choice).value);
            && cmd[|cmd| - 1] == "tcp://" + ip + ":" + port
            && (cmd[Sender.ScaleAt] == "-vf" <==> ScalesTo(choice))
            && (ScalesTo(choice) ==> cmd[Sender.ScaleAt + 1] == "scale=" + choice)
  {
  }
}

# OpenSecondDisplay core in Dafny

OpenSecondDisplay mirrors a macOS screen to a Linux machine. The sender
wraps ffmpeg: it captures the screen and pushes MPEG-TS over TCP. The
receiver wraps ffplay: it listens on a TCP port and plays what arrives. A
small UDP broadcast lets the sender's window find receivers on the LAN.

This project models the three pure computations at the heart of the
sender and receiver. Everything else in them is tkinter, sockets and
subprocess handling.

- **Discovery replies** (`Discovery`, from `scan_receivers` in sender/gui.py).
  The broadcast request is `OSD_DISCOVER`, sent to `255.255.255.255` on the
  discovery port. A datagram is kept only if it starts with `OSD_ACK:` and
  splits on `:` into at least three fields. Fields 1 and 2 are the host name
  and the address. Kept replies stay in arrival order and are not
  deduplicated. Anything else, including a datagram that cannot be decoded,
  is skipped, and the datagrams after it are still read. The first reply's
  address fills the IP field; with no replies the field is left as it was.
- **Launch commands** (`Sender.BuildFfmpegCommand`,
  `Receiver.BuildFfplayCommand`). Each one maps a configuration record to an
  argument vector. In the sender, `-vf scale=…` is present only when a
  scaling resolution is set. In the receiver, `-fs` goes in at index 1 only
  when fullscreen is on.
- **Exit handling.** The sender classifies ffmpeg's error output: a refused
  connection, or else its last 500 characters. The sender stops at the first
  exit and never retries (`Sender.Monitor`). The receiver classifies ffplay's
  return code and relaunches the same command forever. It waits 1 s after a
  finished run and 5 s after an exception, and stops only on an interrupt
  (`Receiver.Supervise`, `Receiver.RunReceiver`).
- **The sender window's hand-over** (`SenderGui`). An empty IP field is
  refused before anything starts. The resolution "Native" becomes "no
  scaling". The address, port and resolution replace those three
  configuration values and leave the rest unchanged.

`Strings` holds the parts of Python's `str` that the code relies on, with
the properties the proofs rely on: `split` is proved against `join` in both
directions, the `in` test against a positional definition of a substring,
and `str()` of an integer against reading the digits back. `Seqs` holds
`list.insert`, its inverse, and splitting off a sequence's last element.

The configuration files become the default records
`Sender.DefaultConfig` and `Receiver.DefaultConfig`. Ports are kept as
text, because the GUIs patch in the text of their entry fields; the
default `12345` is rendered with `IntToString`.

Two behaviours of the code worth knowing:
- Inside its loop, receiver/receiver.py treats a missing ffplay like any
  other exception and retries after 5 s; `check_ffplay` runs only once,
  before the loop. sender/sender.py returns after the first exit and
  retries nothing.
- The discovery client accepts empty host names and addresses
  (`Discovery.EmptyNamesAccepted`).

## Model

| member | source | states |
|---|---|---|
| `Strings.Split` | sender/gui.py:170 | `str.split(':')` always yields at least one field and no field contains the separator |
| `Strings.SplitHead` | sender/gui.py:170 | the first field is a prefix of the text, followed by nothing exactly when it is the only field, otherwise by a separator and the text of the remaining fields |
| `Strings.SplitFirstTwo` | sender/gui.py:170-173 | text of two or more fields is the first field, a separator, the second field, then nothing or a separator-led remainder |
| `Strings.JoinSplit` | sender/gui.py:170 | splitting loses nothing: joining the fields with the separator gives back the text |
| `Strings.SplitJoin` | sender/gui.py:170-173 | separator-free fields joined and split again come back unchanged, so field positions are recovered exactly |
| `Strings.ContainsIffOccurs` | sender/sender.py:116 | the `in` substring test holds exactly when the substring occurs at some position |
| `Strings.Tail` | sender/sender.py:119 | for `n > 0`, `s[-n:]` is the suffix of `s` of length `n`, or all of `s` when it is shorter |
| `Strings.NatToString` | sender/sender.py:49 | `str()` of a natural number is non-empty decimal digits, one digit exactly below 10, no leading zero |
| `Strings.ParseNatToString` | sender/sender.py:65 | reading back the rendered digits gives the number |
| `Strings.IntToString` | sender/sender.py:49 | `str()` of an integer has a minus sign exactly for negatives, then digits with no leading zero (except `0` itself) |
| `Strings.IntToStringRoundTrip` | sender/sender.py:65 | the rendered integer reads back as the same integer |
| `Strings.IntToStringNotOption` | sender/sender.py:49 | a rendered integer never equals an option word such as `-vf` |
| `Discovery.DiscoveryRequest` | sender/gui.py:160-161 | the request is `OSD_DISCOVER` to `255.255.255.255` on the configured discovery port, and the client's own parser rejects it as a reply |
| `Discovery.ParseReply` | sender/gui.py:166-174 | the datagram test: only decoded text starting with `OSD_ACK:` is accepted, and the names it yields hold no colon; `Discovery.ParseReplySound` and `Discovery.ReplyNamesAccepted` pin down exactly which texts are accepted and with which names |
| `Discovery.ParseReplySound` | sender/gui.py:169-174 | an accepted datagram starts with `OSD_ACK:`, then host name, `:`, address, then nothing or a `:`-led remainder, with colon-free names |
| `Discovery.ReplyNamesAccepted` | sender/gui.py:169-174 | every datagram of that shape is accepted with exactly that host name and address; extra fields are ignored |
| `Discovery.HostnameOnlyRejected` | sender/gui.py:170-171 | a tagged datagram with only two fields contributes nothing |
| `Discovery.EmptyNamesAccepted` | sender/gui.py:169-174 | `OSD_ACK::` is accepted with empty host name and address |
| `Discovery.CollectReplies` | sender/gui.py:163-178 | no more replies are kept than datagrams arrived |
| `Discovery.AcceptedPositions` | sender/gui.py:163-178 | the positions of accepted datagrams lie within the arrivals |
| `Discovery.KeptRepliesFromPositions` | sender/gui.py:169-174 | there is one kept reply per accepted position, and the k-th kept reply is the peer parsed from the datagram at the k-th accepted position |
| `Discovery.PositionsIncrease` | sender/gui.py:163-174 | the accepted positions strictly increase, so replies are kept in arrival order |
| `Discovery.AcceptedDatagramKept` | sender/gui.py:163-174 | the peer of every accepted datagram is kept, duplicate or not, right after the replies of the datagrams before it |
| `Discovery.NothingAccepted` | sender/gui.py:169-178 | datagrams none of which is accepted yield an empty list |
| `Discovery.CollectAppend` | sender/gui.py:165-178 | the loop's result over two consecutive stretches of arrivals is the concatenation of the results |
| `Discovery.RejectedSkipped` | sender/gui.py:166-178 | a rejected or undecodable datagram contributes nothing and later datagrams are still processed |
| `Discovery.AcceptedKept` | sender/gui.py:172-174 | an accepted datagram adds its peer at its arrival place, even when it repeats an earlier one |
| `Discovery.ReceiveReplies` | sender/gui.py:163-178 | the appending receive loop computes the collected replies |
| `Discovery.SelectReceiver` | sender/gui.py:182-199 | no replies leave the IP entry unchanged; otherwise it becomes the first reply's address, with one report for a single receiver and a list of all for several |
| `Discovery.Scan` | sender/gui.py:151-203 | a failure of the socket setup or broadcast leaves the IP entry unchanged and reports the failure |
| `Discovery.ScanPicksFirstReply` | sender/gui.py:163-196 | the IP entry becomes the address of the first accepted datagram, whatever was dropped before it or arrives after it |
| `Discovery.ScanWithoutReplies` | sender/gui.py:182-184 | "no receivers" is reported exactly when no datagram is accepted, and then the IP entry is unchanged |
| `Discovery.OneReceiverAnswers` | sender/gui.py:163-190 | one valid reply among non-replies yields that single receiver and its address in the IP entry |
| `Sender.BuildFfmpegCommand` | sender/sender.py:40-82 | starts with `ffmpeg`, has length 26 or 28 (with scaling), ends with `-f mpegts tcp://ip:port`; every fixed option and every configured value sits at its place: the AVFoundation capture options, `-framerate`, `-i` with the device, `-c:v libx264`, `-preset`, `-tune`, `-b:v`, `-g` with their configured values, `-pix_fmt yuv420p`; `-vf` at index 23 exactly when scaling is set |
| `Sender.ScaleFlagIffScaling` | sender/sender.py:69-71 | `-vf` occurs anywhere in the command exactly when a scaling resolution is set |
| `Sender.ScalingOnlyInsertsFilter` | sender/sender.py:69-80 | turning on scaling inserts exactly `-vf`, `scale=R` before the output options and changes nothing else; an empty resolution is the same as none |
| `Sender.ClassifyExit` | sender/sender.py:114-119 | "receiver unreachable" exactly when the error output contains `Connection refused`; otherwise the report is the last at most 500 characters of it |
| `Sender.Monitor` | sender/sender.py:110-120 | monitoring ends at the first poll that sees an exit or an interrupt; an exit is reported with that exit's diagnostic |
| `Sender.NoRetryAfterEnd` | sender/sender.py:110-120 | once the run has ended, later observations change nothing: ffmpeg is not started again |
| `Seqs.InsertAt` | receiver/receiver.py:56-57 | `list.insert(i, x)` puts `x` at `i` and shifts the later elements one place up |
| `Seqs.RemoveAt` | receiver/receiver.py:56-57 | removing index `i` keeps the earlier elements and shifts the later ones down |
| `Receiver.BuildFfplayCommand` | receiver/receiver.py:31-61 | starts with `ffplay`, has length 19 with fullscreen and 18 without, ends with `-f mpegts tcp://ip:port?listen`; index 1 is `-fs` exactly with fullscreen, otherwise `-window_title`; the fourteen tokens after the optional `-fs` are the title, fflags, `-flags low_delay`, `-strict experimental`, probesize, analyzeduration and `-vf setpts=0` options with the configured values |
| `Receiver.FullscreenOnlyInsertsFlag` | receiver/receiver.py:56-57 | removing index 1 from the fullscreen command gives the windowed command |
| `Receiver.FullscreenFlagIff` | receiver/receiver.py:37-57 | `-fs` occurs anywhere in the command exactly when fullscreen is on |
| `Receiver.ClassifyReturnCode` | receiver/receiver.py:78-81 | return code 0 is "ended normally"; any other code is reported with that code |
| `Receiver.StepAfter` | receiver/receiver.py:71-91 | only an interrupt exits (status 0, reporting that the receiver stops); a finished run reports its return code's classification and waits 1 s, an exception reports the error and waits 5 s, before relaunching |
| `Receiver.Supervise` | receiver/receiver.py:71-91 | every iteration sets out to launch the same command (an iteration that raised before ffplay started is recorded too); the loop exits exactly when an interrupt occurs, at the first one; without one it runs every iteration; each relaunch pauses between 1 and 5 s |
| `Receiver.SupervisedReports` | receiver/receiver.py:73-90 | the k-th outcome report printed is the report of the k-th iteration's own outcome |
| `Receiver.NothingAfterExit` | receiver/receiver.py:86-88 | after the interrupt nothing further happens |
| `Receiver.RunLoop` | receiver/receiver.py:70-90 | the `while True` loop, stopped by the interrupt, computes `Supervise` |
| `Receiver.RunReceiver` | receiver/receiver.py:63-91 | `main` builds the command once and every iteration launches that identical command |
| `SenderGui.StartStream` | sender/gui.py:36-54 | an empty IP is refused before any stream starts; otherwise IP and port pass unchanged and "Native" (or nothing) becomes the empty resolution |
| `SenderGui.ApplyEnv` | sender/gui.py:94-100 | receiver IP, port and resolution are replaced, with empty text becoming no scaling; every other setting is unchanged |
| `SenderGui.StreamConfig` | sender/gui.py:36-100 | the started configuration streams to the entered address and port and scales exactly when a resolution other than "Native" was chosen |
| `SenderGui.FormReachesCommand` | sender/gui.py:36-110 | the ffmpeg command started from the form ends with the entered address and port and carries `scale=` with the chosen resolution exactly when one was chosen |

## Left out

- The UDP sockets, the 1 s receive window and the socket timeout are left out. The model takes the datagrams that arrived before the window closed as its input.
- Truncation of a datagram to 1024 bytes by `recvfrom` is left out.
- UTF-8 decoding is left out. A datagram that fails to decode, or any other receive exception, is the single `Garbled` arrival.
- tkinter widgets, button states, status labels and message-box texts are left out. The scan and exit reports are datatypes standing for the messages shown or printed.
- Console lines that report nothing about an outcome are left out: the receiver's banner and listening line (receiver/receiver.py:64, :68) and its "Waiting for connection..." at the start of every iteration (:73); the sender's banner and settings lines (sender/sender.py:85-94) and its "FFmpeg exited unexpectedly." before each exit diagnostic (:115). They depend on no decision the model makes.
- `check_ffmpeg`, `check_ffplay` and `list_devices` are left out: they are process I/O.
- `Popen`, `run`, `poll`, `terminate`, `wait` and `kill` are process control. Their results are inputs: polls for the sender, outcomes for the receiver.
- The sender's terminate-then-kill escalation after an interrupt is left out. The model ends in `StoppedByUser`.
- The 1 s polling sleep and the cooldown sleeps are not executed. The cooldowns are recorded as seconds.
- `get_ip`'s outbound-connect address heuristic (receiver/gui.py) is network I/O and is left out.
- Threads, environment variables and the patching of module globals are left out. They are modelled as values passed along (`SenderGui.ApplyEnv`).
- The receiver window's own patching of port and fullscreen (receiver/gui.py) is left out.
- `stop_stream_signal` and `stop_receiver_signal` are left out: the GUIs call them, but they are not defined in sender.py or receiver.py.
- The discovery responder and a start/stop session state machine do not exist in the code, so they are not modelled.
- An interrupt that lands in the receiver's 5 s wait is left out. That wait is outside the `try`, so the interrupt goes uncaught. The model treats every interrupt as arriving while ffplay runs.
- `FPS` and `GOP_SIZE` are modelled as integers only. Python's `str()` of other types is left out.
- Sender.ScaleFlagIffScaling: requires that preset, tune and bitrate are not themselves the text `-vf`. If one of them were, the token would appear without scaling.
- Receiver.FullscreenFlagIff: requires that no free-text setting is the text `-fs`, for the same reason.
- Receiver.Supervise: states the total pause as bounds, between 1 and 5 s per relaunch, not as the exact sum. `Receiver.StepAfter` fixes the exact pause of each step.

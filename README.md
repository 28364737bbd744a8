# OpenRover session layer and pitstop utility in Dafny

This project models two parts of the roverpro-python host library: the `Rover` session layer (`openrover/rover.py`) and the decision and frame logic of the `pitstop` companion utility (`openrover/pitstop.py`). It then proves properties of the model. Both parts sit on top of `OpenRoverProtocol`, which is modelled here as an abstract channel with two parts:

- an outgoing queue of command frames (motor triple, verb, argument), appended to by `write_nowait` and handed to the transport by `flush`;
- a scripted stream of decoded `(key, value)` replies, consumed one at a time by `read_one`.

Running out of scripted replies stands for a read that times out. A ghost event trace records every write, read and timeout in order.

Modules:

- `Protocol` (`protocol.dfy`) has the verbs, frames, replies and the `Channel` class.
- `Session` (`session.dfy`) covers `rover.py`:
  - the `Rover` class, whose mutable fields are the motor triple;
  - the `sorted(set(indices))` step of a batch request;
  - positional matching of replies against requests;
  - the bounded version probe.
- `PyInt` (`pyint.dfy`) is Python's `int(str)` in base 10, used by the `k:v` validator, together with the decimal rendering `str(n)` that the round-trip lemmas use.
- `Pitstop` (`pitstop.dfy`) covers `pitstop.py`:
  - `SETTINGS_VERBS` and `rover_command_arg_pair`;
  - argparse's conversion of the `-u` list;
  - the action check, the port choice and the version check;
  - the RESTART frame and the RELOAD / settings / COMMIT sequence;
  - `amain` as a method over fresh channels, one per serial connection the source opens, and as a function `Pitstop` that the method is proved equal to.

Exit paths that the model distinguishes:

- **No action requested.** `parser.error` (openrover/pitstop.py:45) ends the tool with status 2, the same as a `-u` argument the validator rejects.
- **Version read timeout.** The read under `trio.fail_after(10)` (openrover/pitstop.py:92-93) raises `TooSlowError`, which nothing in `amain` catches (`Crashed(ReadTimedOut)`). The process still ends with status 1, but `exit(1)` at openrover/pitstop.py:99 is never reached and a traceback replaces the "could not get version" message.
- **`get_openrover_version` without a version reply.** The handler at openrover/rover.py:106-107 turns every failure into `OpenRoverException`, so a missing version is meant to be a domain error. As written, the function returns `None` when both attempts read another key (see Findings).

## Model

| member | source | states |
|---|---|---|
| Protocol.Code | openrover/pitstop.py:16 | Verb codes are bytes; a code lies in 3..8 exactly for a settings verb, and then it is that verb's setting code |
| Protocol.CodeInjective | openrover/pitstop.py:21 | `CommandVerbs(int(k))` names at most one verb: equal codes mean equal verbs |
| Protocol.Next | openrover/rover.py:74 | The reply `read_one` yields: none exactly when no reply is left, otherwise the first one |
| Protocol.Channel.constructor | openrover/pitstop.py:66 | A fresh connection: nothing queued, flushed or read, and the device's future replies fixed |
| Protocol.Channel.WriteNowait | openrover/rover.py:57 | `write_nowait` appends exactly one frame with the given motors, verb and argument to the queue and trace, and changes nothing else |
| Protocol.Channel.Flush | openrover/pitstop.py:69 | `flush` hands every queued frame to the transport; queue, cursor and trace unchanged |
| Protocol.Channel.ReadOne | openrover/rover.py:74 | `read_one` yields the next unread reply and advances past it, or records a timeout and stays put when none is left |
| Session.Insert | openrover/rover.py:81 | Inserting into a strictly increasing sequence keeps it strictly increasing and adds exactly the new element |
| Session.SortedDistinct | openrover/rover.py:81 | The batch indices are strictly increasing and hold exactly the elements of the input |
| Session.StrictlyIncreasingUnique | openrover/rover.py:81 | Two strictly increasing sequences with the same elements are equal |
| Session.SortedDistinctIsSortedSet | openrover/rover.py:81 | `SortedDistinct(xs)` is the one strictly increasing sequence holding set(xs), that is `sorted(set(xs))` |
| Session.SortedDistinctCount | openrover/rover.py:81 | A batch has exactly \|set(xs)\| indices |
| Session.BatchExample | openrover/rover.py:81 | Indices 40, 14, 14, 28 are requested as 14, 28, 40 |
| Session.Requests | openrover/rover.py:84-85 | The first loop queues exactly one frame per index |
| Session.RequestsContents | openrover/rover.py:84-85 | The i-th queued frame is GET_DATA for the i-th index, carrying the given motor triple |
| Session.Expect | openrover/rover.py:73-76 | One read succeeds exactly when a reply arrives with the requested key and yields its value; no reply is a timeout; another key is an unexpected-response error naming both keys |
| Session.MatchReplies | openrover/rover.py:86-91 | The batch succeeds exactly when there are enough replies and the i-th reply carries the i-th index, for every i |
| Session.MatchRepliesLast | openrover/rover.py:86-91 | A successful batch is the successful batch of all but the last index, with the last index set to the last reply's value |
| Session.MatchRepliesKeys | openrover/rover.py:82-91 | On success the result's key set is exactly the set of requested indices |
| Session.MatchRepliesMap | openrover/rover.py:82-91 | On success the result's key set is exactly the set of requested indices, and each key maps to the value of the reply at the position where that key was last requested |
| Session.Consumed | openrover/rover.py:86-90 | A batch reads at most one reply per index, and exactly one per index on success |
| Session.MatchStep | openrover/rover.py:86-91 | One more matching reply extends a successful batch by that key and value, and by one read |
| Session.MatchFailsAt | openrover/rover.py:86-90 | The first failing position p decides the whole batch: a mismatch there fails it with UnexpectedResponse after p + 1 reads; running out of replies there fails it with Timeout after p reads |
| Session.SingleBatchIsGetData | openrover/rover.py:69-78 | A batch of one index reads exactly like get_data |
| Session.OrderedRepliesExample | openrover/tests/test_openrover_protocol.py:68-81 | Keys 14, 16, 28, 30 answered in request order fill the whole map |
| Session.SwappedRepliesExample | openrover/rover.py:89-90 | A reply out of order fails the batch with the expected and received keys |
| Session.WriteEventsContents | openrover/rover.py:84-85 | The i-th write event of the first loop records the i-th queued frame |
| Session.ReadEventsContents | openrover/rover.py:86-88 | The read events of a batch are the replies read, in order, followed by the timeout if one happened |
| Session.FanDuty | openrover/rover.py:64 | The fan duty is int(f * 240): the floor of f * 240, in 0..240 |
| Session.Rover.constructor | openrover/rover.py:35-46 | A new Rover has all motors stopped and uses the given connection |
| Session.Rover.SetMotorSpeeds | openrover/rover.py:48-54 | Succeeds exactly when all three values lie in [-1, 1]; it then stores exactly those values, and otherwise changes nothing; nothing is sent |
| Session.Rover.SendCommand | openrover/rover.py:56-57 | Appends exactly one frame, carrying the current motor triple, with the given verb and argument |
| Session.Rover.SendSpeed | openrover/rover.py:59-60 | Appends exactly one NOP frame with argument 0 and the current motors |
| Session.Rover.SetFanSpeed | openrover/rover.py:62-64 | Succeeds exactly when 0 <= f <= 1 and then appends one SET_FAN_SPEED frame with duty FanDuty(f); otherwise appends nothing |
| Session.Rover.FlipperCalibrate | openrover/rover.py:66-67 | Appends one FLIPPER_CALIBRATE frame whose argument is that verb's own code |
| Session.Rover.GetData | openrover/rover.py:69-78 | Appends one GET_DATA frame for the index, then reads exactly one reply, or records a timeout; the result is that reply's value when its key is the index, otherwise the matching error |
| Session.Rover.ReadExpected | openrover/rover.py:73-76 | One read checked against the expected key, with the reply or timeout recorded in the trace |
| Session.Rover.QueueRequests | openrover/rover.py:84-85 | The first loop appends exactly Requests(motors, idx) and reads nothing |
| Session.Rover.CollectReplies | openrover/rover.py:86-91 | The second loop's result is MatchReplies on the replies still unread; it reads exactly Consumed replies, and its trace ends in a timeout exactly when the batch timed out |
| Session.Rover.GetDataItems | openrover/rover.py:80-93 | Every request goes out, one per distinct index in ascending order, before any reply is read; then the result, replies read and trace are those of MatchReplies over SortedDistinct(indices) |
| Session.ProbeAsWritten | openrover/rover.py:106-107 | The only error the probe as written raises is the domain error for a missing version |
| Session.ProbeAsWrittenOutcome | openrover/rover.py:96-107 | The probe as written returns None exactly when every attempt reads a non-version key; it raises exactly when the replies run out first; otherwise it returns the first version reply within the attempts |
| Session.ProbeAsWrittenReturnsNone | openrover/rover.py:101-105 | Two replies with other keys make the probe as written return None without raising |
| Session.ProbeVersion | openrover/rover.py:106-107 | The only error the corrected probe gives is the domain error for a missing version |
| Session.ProbeVersionOutcome | openrover/rover.py:96-107 | The corrected probe succeeds exactly when a version reply is among the first two replies, and it then returns the first one |
| Session.ProbeVersionRaises | openrover/rover.py:106-107 | With the correction, two replies with other keys give the domain error |
| Session.ProbeWrites | openrover/rover.py:101-103 | The probe sends between one and two requests |
| Session.ProbeEvents | openrover/rover.py:101-103 | Every attempt contributes one write and one read or timeout, so the probe records two events per request |
| Session.ProbeEventAt | openrover/rover.py:101-105 | The probe's events alternate: every even position is the version request, and the odd position after it is the read of the reply at that attempt, or a timeout when none is left |
| Session.VersionRequests | openrover/rover.py:102 | n attempts queue n frames |
| Session.VersionRequestsContents | openrover/rover.py:102 | Every frame the probe queues is GET_DATA 40 with motors 0, 0, 0 |
| Session.AttemptEvents | openrover/rover.py:101-103 | i attempts that each read a reply record 2i events |
| Session.ProbeEventsAfter | openrover/rover.py:101-105 | After i attempts that each read another key, the probe's events are those i writes and reads followed by the events of the probe on the remaining replies |
| Session.ProbeStep | openrover/rover.py:101-104 | An attempt that reads another key moves the probe to the next reply with one attempt fewer, adding one request and its write and read |
| Session.ProbeLast | openrover/rover.py:103-105 | An attempt that times out or reads key 40 ends the probe after one request: with the version, or with the domain error on a timeout |
| Session.RequestVersion | openrover/rover.py:102-103 | One attempt queues exactly GET_DATA 40 with stopped motors, then reads the next reply or records a timeout |
| Session.GetOpenRoverVersion | openrover/rover.py:96-107 | The corrected probe: its result is ProbeVersion of the replies; it queues 1 or 2 GET_DATA 40 frames with stopped motors and reads one reply per request while replies remain; its trace is exactly ProbeEvents, each request followed by its read or timeout |
| PyInt.ParseInt | openrover/pitstop.py:21-24 | Python's base-10 `int(str)`: a result needs a non-blank argument, and a negative result needs a leading '-' after the whitespace is stripped |
| PyInt.Show | openrover/pitstop.py:21-24 | `str(n)`, the text that the `int()` calls invert in the round-trip lemmas: never empty, the decimal rendering of n, with a leading '-' exactly when n is negative |
| PyInt.UnsignedDigits | openrover/pitstop.py:21 | A string of decimal digits is a valid body whose number is its value |
| PyInt.ValueOfDecimal | openrover/pitstop.py:21 | The value of the decimal rendering of n is n |
| PyInt.DecimalIsDigitGroups | openrover/pitstop.py:21 | A decimal rendering is a valid body without underscores and without surrounding whitespace |
| PyInt.ParseDigits | openrover/pitstop.py:21 | int() of a string of decimal digits is its value |
| PyInt.ParseSignDigits | openrover/pitstop.py:21 | int() of a sign followed by decimal digits is the signed value |
| PyInt.ParseSignBody | openrover/pitstop.py:21 | A sign in front of a valid body negates its number for '-' and keeps it for '+' |
| PyInt.ParseDecimal | openrover/pitstop.py:21 | int(str(n)) == n for n >= 0 |
| PyInt.ParseSignDecimal | openrover/pitstop.py:21 | int() of a sign followed by str(m) is m or -m |
| PyInt.ParseShow | openrover/pitstop.py:21 | int(str(n)) == n for every integer n |
| PyInt.ParseIntLeadingSpace | openrover/pitstop.py:23 | A leading whitespace character that int() ignores (tab to carriage return, space, or a non-ASCII character str.isspace accepts) does not change what int() returns |
| PyInt.ParseIntSeparator | openrover/pitstop.py:21-23 | A leading U+001C..U+001F makes int() reject the string, although str.isspace accepts these characters |
| PyInt.ParseIntPlusSign | openrover/pitstop.py:23 | "+" followed by str(n) parses to n |
| PyInt.ParseIntLoneSign | openrover/pitstop.py:23 | A sign alone, or a sign followed by whitespace, is rejected |
| Pitstop.SettingsVerbsAreCodes3To8 | openrover/pitstop.py:16 | SETTINGS_VERBS holds exactly the verbs with codes 3..8 |
| Pitstop.FirstColon | openrover/pitstop.py:20 | The first colon of a string: a colon with none before it |
| Pitstop.ColonsAfterFirst | openrover/pitstop.py:20 | Every colon but the first lies after the first one |
| Pitstop.NoColon | openrover/pitstop.py:20 | A string has no colon exactly when it has zero colons |
| Pitstop.Split | openrover/pitstop.py:20 | str.split(':', maxsplit) yields at least one piece |
| Pitstop.SplitLength | openrover/pitstop.py:20 | The split yields min(colons, maxsplit) + 1 pieces |
| Pitstop.TwoPiecesIffOneColon | openrover/pitstop.py:20 | The two-name unpacking of split(':', 2) succeeds exactly when the argument holds one colon |
| Pitstop.SplitOneColon | openrover/pitstop.py:20 | With one colon, the two pieces are the colon-free text before and after it, and they rebuild the argument |
| Pitstop.SplitPair | openrover/pitstop.py:20 | Two colon-free pieces joined by a colon split back into exactly those pieces |
| Pitstop.PairOf | openrover/pitstop.py:21-24 | The conversions after unpacking succeed exactly when int(k) is in 3..8 and int(v) is in 0..255; they then give the settings verb with code int(k) and int(v) |
| Pitstop.RoverCommandArgPair | openrover/pitstop.py:19-24 | An argument with zero colons or more than one is rejected as not a pair; with one colon the result is the conversion of the two pieces |
| Pitstop.ArgPairAccepts | openrover/pitstop.py:19-24 | On "k:v" with colon-free k and v the validator converts exactly k and v |
| Pitstop.ArgPairRejectsSeparator | openrover/pitstop.py:21 | A key led by U+001C..U+001F, such as "\x1c3:5", is rejected because int(k) fails |
| Pitstop.ArgPieces | openrover/pitstop.py:19-24 | "str(k):str(v)" splits back into str(k) and str(v), which int() parses back to k and v |
| Pitstop.ArgPairRoundTrip | openrover/pitstop.py:24 | "k:v" with k in 3..8 and v in 0..255 is accepted as exactly (verb k, v) |
| Pitstop.ArgPairRejectsOtherVerbs | openrover/pitstop.py:21-22 | Any k outside 3..8 is rejected, whatever v is |
| Pitstop.ArgPairRejectsOutOfRange | openrover/pitstop.py:23 | With k a settings code, a v outside 0..255 is rejected |
| Pitstop.PairOfValueOutOfRange | openrover/pitstop.py:23 | A valid key with an integer value out of range gives ValueOutOfRange |
| Pitstop.ConvertAll | openrover/pitstop.py:38 | argparse's `type=` conversion of a list succeeds exactly when every element converts; the result then holds the converted elements, in order |
| Pitstop.ParseSettings | openrover/pitstop.py:38 | The -u list is accepted exactly when rover_command_arg_pair accepts every argument; the pairs are then those conversions, in order |
| Pitstop.ActionRequested | openrover/pitstop.py:44 | `any([flash, minimumversion, updatesettings])`: a minimum version, a non-empty flash path or a non-empty settings list requests an action; an absent or empty path with no version and an absent or empty list requests none |
| Pitstop.ParseArgs | openrover/pitstop.py:30-43 | parse_args passes -p, -f and -m through unchanged; without -u it always succeeds; with -u it succeeds only with a non-empty list of pairs |
| Pitstop.SettingFrames | openrover/pitstop.py:110-111 | One frame per pair |
| Pitstop.SettingFramesContents | openrover/pitstop.py:110-111 | The i-th frame is the i-th pair with stopped motors |
| Pitstop.SettingsUpdate | openrover/pitstop.py:109-112 | The settings update is n + 2 frames |
| Pitstop.SettingsUpdateContents | openrover/pitstop.py:109-112 | The update is RELOAD_SETTINGS 0, then each pair in the order given, then COMMIT_SETTINGS 0, all with stopped motors |
| Pitstop.SendRestart | openrover/pitstop.py:66-69 | Exactly one frame is queued and flushed: RESTART with motors 0, 0, 0 and argument 0 |
| Pitstop.UpdateSettings | openrover/pitstop.py:106-113 | Queues exactly SettingsUpdate(pairs) and flushes it; nothing is read |
| Pitstop.ChoosePort | openrover/pitstop.py:47-56 | An explicit port is used as given; otherwise there is none exactly when no candidate exists, and the first candidate otherwise |
| Pitstop.VersionVerdict | openrover/pitstop.py:92-104 | The check passes exactly when the first reply carries key 40 and a version not below the minimum; a timeout is an uncaught exception; any other failure exits 1 |
| Pitstop.CheckVersion | openrover/pitstop.py:89-104 | Sends exactly the version request, reads at most one reply, and decides as VersionVerdict on that reply |
| Pitstop.Actions | openrover/pitstop.py:44-123 | amain after parsing exits 2 exactly when no action is requested; any device it uses is the port choice; a run without a device queues nothing; settings are sent only on a run that exits 0 |
| Pitstop.Checks | openrover/pitstop.py:85-113 | The version and settings stages keep the chosen device and the restart frames, and never end in a usage error |
| Pitstop.Pitstop | openrover/pitstop.py:27-123 | amain on a command line: exit 0 needs a parse that succeeded, a usage error uses no device, and a run without a device queues nothing |
| Pitstop.RunChecks | openrover/pitstop.py:85-113 | The version check and the settings update on fresh connections agree with Checks |
| Pitstop.Amain | openrover/pitstop.py:27-123 | amain over fresh connections agrees with the functional model Pitstop |
| Pitstop.RunActions | openrover/pitstop.py:44-123 | amain after parse_args, stage by stage, agrees with Actions |
| Pitstop.UsageErrorTouchesNoDevice | openrover/pitstop.py:44-45 | Exit 2 happens exactly on a parse failure or when no action is requested, and then no port is chosen and no frame is queued |
| Pitstop.ParseArgsFails | openrover/pitstop.py:38 | parse_args fails exactly when -u is given with no argument or with an argument the validator rejects |
| Pitstop.NoCandidateExitsOne | openrover/pitstop.py:48-53 | With no explicit port and no candidate, the run exits 1 having sent nothing |
| Pitstop.FirstCandidateUsed | openrover/pitstop.py:54-56 | With no explicit port, the first candidate is used even when there are several |
| Pitstop.RestartIsSingleFrame | openrover/pitstop.py:59-69 | The restart connection carries nothing or exactly the RESTART frame. It carries RESTART only when a flash was requested and the file exists, and on success exactly when a flash was requested |
| Pitstop.VersionGate | openrover/pitstop.py:85-104 | With -m, success needs the first reply to carry key 40 and a version not below the minimum; once the earlier stages pass, exactly the version request is sent; on failure no settings are sent |
| Pitstop.SettingsSequenceOnSuccess | openrover/pitstop.py:106-113 | A successful run with -u sends RELOAD_SETTINGS, each pair in order, then COMMIT_SETTINGS: n + 2 frames |
| Pitstop.SettingsFromCommandLine | openrover/pitstop.py:38 | The pairs a run sends are the -u arguments as rover_command_arg_pair converted them, in order |
| Pitstop.SuccessConditions | openrover/pitstop.py:44-123 | A run exits 0 exactly when an action was requested, a port is available, any flash had its file and a successful bootloader, and any version check passed |
| Pitstop.AllFramesStopped | openrover/pitstop.py:68 | Every frame pitstop queues carries motors 0, 0, 0 |

## Left out

- The wire codec, checksum, frame byte layout and data-element decoders: `openrover_protocol.py` and `openrover_data.py` are not part of this model. Frames stay abstract tuples and reply values are opaque (type parameter `V`).
- Protocol.Code: the codes of the verbs other than the settings verbs 3..8 (NOP 0, RELOAD_SETTINGS 1, COMMIT_SETTINGS 2, GET_DATA 10, SET_FAN_SPEED 20, RESTART 230, FLIPPER_CALIBRATE 250) are assumed values; the CommandVerbs enumeration in `openrover_protocol.py` is not part of this model. The proofs rely on these codes being distinct, below 256 and outside 3..8; FLIPPER_CALIBRATE's argument is its assumed code.
- Serial transport, trio, nurseries, memory channels (`_openrover_data_to_memory_channel` is never read), `open_rover`, `set_device`, `SerialTrio` and `open_rover_device`: these are I/O and cooperative concurrency.
- `trio.fail_after` deadlines: a read past the last scripted reply stands for a timeout; wall-clock time is not modelled.
- Session.Rover.SetMotorSpeeds: Python's `assert` is modelled as an error result that changes nothing, not as an AssertionError raised to the caller; running with `python -O`, which drops the check, is not modelled.
- Session.Rover.SetFanSpeed: the fan fraction is a `real` and `int(f * 240)` is its floor, without IEEE double rounding; the `assert` is modelled as an error result, not as an AssertionError raised to the caller.
- Session.GetOpenRoverVersion: models the corrected probe (see Findings); the source's exception chaining, and timing out of the whole block rather than of each read, are not modelled.
- Pitstop.Amain: argparse is modelled only as the type conversion of `-u`, its one-or-more rule, and the "no action" usage error (both exit 2). Help text, option spellings and `-p`/`-f` parsing are taken as already-parsed values.
- Pitstop.ParseArgs: `-m` is parsed by LooseVersion, whose comparison is the `older` parameter; its internals are not modelled.
- `print`, the banner and `exit` are not modelled; the exit status is the returned `Outcome`.
- The bootloader subprocess (`subprocess.check_call`) is not modelled; its success is the `bootloaderSucceeds` parameter, and a failure is an uncaught exception.
- The firmware file check is not modelled; `Path.is_file()` is the `hexIsFile` parameter.
- The wake-up bytes written after bootloading are a literal byte blob sent on a raw serial connection, not a protocol frame.
- Device discovery (`get_ftdi_device_paths`) is the `candidates` parameter.
- Pitstop.PairOf: the ValueError raised by `CommandVerbs(int(k))` for a code that names no verb is merged with the explicit rejection of verbs outside 3..8 (`NotASettingsVerb`).
- PyInt.ParseInt: only ASCII decimal digits are accepted; `int()` also accepts other Unicode decimal digits, which are not modelled. The limit on the number of digits in a base-10 conversion (4300 by default, `sys.int_info.default_max_str_digits`, in Python 3.11 and later and in the 2022 security releases of 3.7 to 3.10; leading zeros count) is not modelled either: `ParseInt` accepts a digit string of any length where such a Python raises ValueError.
- The hardware tests' timing and success ratios need a live device and are not modelled; only their ordering claim is stated (Session.OrderedRepliesExample).

## Findings

| source | as written | input that shows it | evidently intended | confidence | as-written member | corrected member |
|---|---|---|---|---|---|---|
| openrover/rover.py:101-107 | When both attempts read a reply with a key other than 40, the `for` loop ends and the function falls off its end, returning None without raising | replies (41, a) then (14, b) | Report the domain error (OpenRoverException) whenever no version reply arrives | not executed | Session.ProbeAsWrittenReturnsNone | Session.ProbeVersion |

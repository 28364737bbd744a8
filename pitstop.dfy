/** The pitstop utility of openrover/pitstop.py with argparse, serial ports, the
    bootloader process and printing stripped away: the `k:v` settings validator,
    the pass/fail decisions of amain, and the frames amain queues on each of the
    connections it opens. */
module Pitstop {
  import opened Protocol
  import opened PyInt

  // ---------------------------------------------------------------------------
  // Settings verbs and the `k:v` validator
  // ---------------------------------------------------------------------------

  /** The verbs with codes 3..8. */
  const SettingsVerbs: seq<Verb> := [Setting(3), Setting(4), Setting(5), Setting(6), Setting(7), Setting(8)]

  lemma SettingsVerbsAreCodes3To8(v: Verb)
    ensures v in SettingsVerbs <==> 3 <= Code(v) <= 8
  {
    if v.Setting? {
      assert v == Setting(v.code);
      assert v.code in {3, 4, 5, 6, 7, 8};
    }
  }

  /** How many colons s holds. */
  function Colons(s: string): nat
  {
    if s == [] then 0 else (if s[0] == ':' then 1 else 0) + Colons(s[1..])
  }

  /** Position of the first colon. */
  function FirstColon(s: string): (i: nat)
    requires ':' in s
    ensures i < |s| && s[i] == ':' && ':' !in s[..i]
  {
    if s[0] == ':' then 0
    else
      assert ':' in s[1..];
      var j := FirstColon(s[1..]);
      assert s[..j + 1] == [s[0]] + s[1..][..j];
      1 + j
  }

  /** The first colon is one of the colons; the rest follow it. */
  lemma {:induction false} ColonsAfterFirst(s: string)
    requires ':' in s
    ensures Colons(s) == 1 + Colons(s[FirstColon(s) + 1..])
  {
    if s[0] != ':' {
      assert ':' in s[1..];
      ColonsAfterFirst(s[1..]);
      assert s[1..][FirstColon(s[1..]) + 1..] == s[FirstColon(s) + 1..];
    }
  }

  lemma {:induction false} NoColon(s: string)
    ensures ':' !in s <==> Colons(s) == 0
  {
    if s != [] {
      assert s == [s[0]] + s[1..];
      NoColon(s[1..]);
    }
  }

  /** s.split(':', maxsplit): cut at the first `maxsplit` colons. */
  function Split(s: string, maxsplit: nat): (pieces: seq<string>)
    ensures |pieces| >= 1
  {
    if maxsplit == 0 || ':' !in s then [s]
    else
      var i := FirstColon(s);
      [s[..i]] + Split(s[i + 1..], maxsplit - 1)
  }

  /** The split yields one piece more than the colons it cuts at. */
  lemma {:induction false} SplitLength(s: string, maxsplit: nat)
    ensures |Split(s, maxsplit)| == Min(Colons(s), maxsplit) + 1
  {
    if ':' !in s {
      NoColon(s);
    } else if maxsplit > 0 {
      ColonsAfterFirst(s);
      SplitLength(s[FirstColon(s) + 1..], maxsplit - 1);
    }
  }

  /** Unpacking `k, v = arg.split(':', 2)` succeeds exactly when arg holds one colon. */
  lemma TwoPiecesIffOneColon(s: string)
    ensures |Split(s, 2)| == 2 <==> Colons(s) == 1
  {
    SplitLength(s, 2);
  }

  /** With exactly one colon, the two pieces are the text before and after it. */
  lemma SplitOneColon(s: string)
    requires Colons(s) == 1
    ensures var pieces := Split(s, 2);
            |pieces| == 2 && s == pieces[0] + ":" + pieces[1] && ':' !in pieces[0] && ':' !in pieces[1]
  {
    NoColon(s);
    var i := FirstColon(s);
    var tail := s[i + 1..];
    ColonsAfterFirst(s);
    NoColon(tail);
    assert Split(tail, 1) == [tail];
    assert Split(s, 2) == [s[..i]] + Split(tail, 1);
    assert s == s[..i] + [s[i]] + tail;
  }

  /** Why the validator rejects an argument (argparse reports each as a usage error). */
  datatype ArgError =
    | NotAPair            // zero colons, or more than one
    | KeyNotAnInteger
    | NotASettingsVerb    // int(k) names no verb, or one outside 3..8
    | ValueNotAnInteger
    | ValueOutOfRange     // int(v) outside 0..255

  /** The conversions after unpacking: verb int(k), which must be a settings verb,
      and int(v), which must lie in 0..255. */
  function PairOf(k: string, v: string): (r: Result<(Verb, int), ArgError>)
    ensures r.Ok? <==> ParseInt(k).Some? && 3 <= ParseInt(k).value <= 8
                       && ParseInt(v).Some? && 0 <= ParseInt(v).value <= 255
    ensures r.Ok? ==> r.value.0 in SettingsVerbs && Code(r.value.0) == ParseInt(k).value
                      && r.value.1 == ParseInt(v).value
  {
    match ParseInt(k)
    case None => Err(KeyNotAnInteger)
    case Some(key) =>
      if !(3 <= key <= 8) then Err(NotASettingsVerb)
      else
        SettingsVerbsAreCodes3To8(Setting(key));
        match ParseInt(v)
        case None => Err(ValueNotAnInteger)
        case Some(value) => if !(0 <= value <= 255) then Err(ValueOutOfRange) else Ok((Setting(key), value))
  }

  /** rover_command_arg_pair: "k:v" to (verb k, int v). */
  function RoverCommandArgPair(arg: string): (r: Result<(Verb, int), ArgError>)
    ensures Colons(arg) != 1 ==> r == Err(NotAPair)
    ensures Colons(arg) == 1 ==> |Split(arg, 2)| == 2 && r == PairOf(Split(arg, 2)[0], Split(arg, 2)[1])
  {
    var pieces := Split(arg, 2);
    TwoPiecesIffOneColon(arg);
    if |pieces| != 2 then Err(NotAPair) else PairOf(pieces[0], pieces[1])
  }

  /** On "k:v" with colon-free k and v the validator converts exactly k and v. */
  lemma ArgPairAccepts(key: string, value: string)
    requires ':' !in key && ':' !in value
    ensures RoverCommandArgPair(key + ":" + value) == PairOf(key, value)
  {
    SplitPair(key, value);
  }

  /** A key led by an information separator, such as "\x1c3:5", is rejected as
      not an integer: int() does not strip U+001C..U+001F. */
  lemma ArgPairRejectsSeparator(c: char, key: string, value: string)
    requires '\U{1C}' <= c <= '\U{1F}' && ':' !in key && ':' !in value
    ensures RoverCommandArgPair([c] + key + ":" + value) == Err(KeyNotAnInteger)
  {
    ArgPairAccepts([c] + key, value);
    ParseIntSeparator(c, key);
  }

  lemma {:induction false} FirstColonAfter(a: string, rest: string)
    requires ':' !in a
    ensures ':' in a + ":" + rest && FirstColon(a + ":" + rest) == |a|
  {
    var s := a + ":" + rest;
    assert s[|a|] == ':';
    if a != [] {
      assert s[1..] == a[1..] + ":" + rest;
      FirstColonAfter(a[1..], rest);
    }
  }

  /** Two colon-free pieces joined by a colon split back into those pieces. */
  lemma SplitPair(a: string, b: string)
    requires ':' !in a && ':' !in b
    ensures Split(a + ":" + b, 2) == [a, b]
  {
    var s := a + ":" + b;
    FirstColonAfter(a, b);
    assert s[..|a|] == a && s[|a| + 1..] == b;
  }

  lemma ShowHasNoColon(n: int)
    ensures ':' !in Show(n)
  {
    var s := Show(n);
    var d := Decimal(if n < 0 then -n else n);
    assert forall i :: 0 <= i < |d| ==> d[i] != ':';
    if n < 0 {
      assert forall i :: 1 <= i < |s| ==> s[i] == d[i - 1];
    }
    assert forall i :: 0 <= i < |s| ==> s[i] != ':';
  }

  lemma ArgPieces(k: int, v: int)
    ensures RoverCommandArgPair(Show(k) + ":" + Show(v)) == PairOf(Show(k), Show(v))
    ensures ParseInt(Show(k)) == Some(k) && ParseInt(Show(v)) == Some(v)
  {
    ShowHasNoColon(k);
    ShowHasNoColon(v);
    ArgPairAccepts(Show(k), Show(v));
    ParseShow(k);
    ParseShow(v);
  }

  /** "k:v" with k a settings code and v a byte is accepted as exactly (verb k, v). */
  lemma ArgPairRoundTrip(k: int, v: int)
    requires 3 <= k <= 8 && 0 <= v <= 255
    ensures RoverCommandArgPair(Show(k) + ":" + Show(v)) == Ok((Setting(k), v))
  {
    ArgPieces(k, v);
  }

  /** Any other k is rejected, whatever v is. */
  lemma ArgPairRejectsOtherVerbs(k: int, v: int)
    requires !(3 <= k <= 8)
    ensures RoverCommandArgPair(Show(k) + ":" + Show(v)) == Err(NotASettingsVerb)
  {
    ArgPieces(k, v);
  }

  /** A value outside 0..255 is rejected. */
  lemma ArgPairRejectsOutOfRange(k: int, v: int)
    requires 3 <= k <= 8 && !(0 <= v <= 255)
    ensures RoverCommandArgPair(Show(k) + ":" + Show(v)) == Err(ValueOutOfRange)
  {
    ArgPieces(k, v);
    PairOfValueOutOfRange(Show(k), Show(v));
  }

  lemma PairOfValueOutOfRange(a: string, b: string)
    requires ParseInt(a).Some? && 3 <= ParseInt(a).value <= 8
    requires ParseInt(b).Some? && !(0 <= ParseInt(b).value <= 255)
    ensures PairOf(a, b) == Err(ValueOutOfRange)
  {
  }

  /** argparse's conversion of an `nargs='+'` option: `convert` (its `type=`) is
      applied to every argument, in order; one rejection is a usage error. */
  function ConvertAll<T, E>(raw: seq<string>, convert: string -> Result<T, E>): (r: Option<seq<T>>)
    ensures r.Some? <==> forall i :: 0 <= i < |raw| ==> convert(raw[i]).Ok?
    ensures r.Some? ==> |r.value| == |raw|
                        && forall i :: 0 <= i < |raw| ==> r.value[i] == convert(raw[i]).value
  {
    if raw == [] then Some([])
    else
      var n := |raw| - 1;
      var front := raw[..n];
      assert forall i :: 0 <= i < n ==> front[i] == raw[i];
      var head := ConvertAll(front, convert);
      var last := convert(raw[n]);
      if head.None? || last.Err? then None
      else Some(head.value + [last.value])
  }

  /** The -u arguments converted by rover_command_arg_pair. */
  function ParseSettings(raw: seq<string>): (r: Option<seq<(Verb, int)>>)
    ensures r.Some? <==> forall i :: 0 <= i < |raw| ==> RoverCommandArgPair(raw[i]).Ok?
    ensures r.Some? ==> |r.value| == |raw|
                        && forall i :: 0 <= i < |raw| ==> r.value[i] == RoverCommandArgPair(raw[i]).value
  {
    ConvertAll(raw, RoverCommandArgPair)
  }

  // ---------------------------------------------------------------------------
  // Frames queued by amain
  // ---------------------------------------------------------------------------

  /** Sent before bootloading: RESTART with stopped motors and argument 0. */
  const RestartFrame := Frame(Stopped, Restart, 0)

  /** One frame per (verb, value) pair, in order, motors stopped. */
  function SettingFrames(pairs: seq<(Verb, int)>): (fs: seq<Frame>)
    ensures |fs| == |pairs|
  {
    if pairs == [] then []
    else SettingFrames(pairs[..|pairs| - 1]) + [Frame(Stopped, pairs[|pairs| - 1].0, pairs[|pairs| - 1].1)]
  }

  lemma SettingFramesStep(pairs: seq<(Verb, int)>, i: nat)
    requires i < |pairs|
    ensures SettingFrames(pairs[..i + 1]) == SettingFrames(pairs[..i]) + [Frame(Stopped, pairs[i].0, pairs[i].1)]
  {
    assert pairs[..i + 1][..i] == pairs[..i];
  }

  lemma {:induction false} SettingFramesContents(pairs: seq<(Verb, int)>)
    ensures forall i :: 0 <= i < |pairs| ==> SettingFrames(pairs)[i] == Frame(Stopped, pairs[i].0, pairs[i].1)
  {
    if pairs != [] {
      var n := |pairs| - 1;
      SettingFramesContents(pairs[..n]);
    }
  }

  /** The settings update: RELOAD_SETTINGS, each pair in the order given, COMMIT_SETTINGS,
      all with stopped motors. */
  function SettingsUpdate(pairs: seq<(Verb, int)>): (fs: seq<Frame>)
    ensures |fs| == |pairs| + 2
  {
    [Frame(Stopped, ReloadSettings, 0)] + SettingFrames(pairs) + [Frame(Stopped, CommitSettings, 0)]
  }

  /** The update opens with RELOAD_SETTINGS, sends each pair in order and closes
      with COMMIT_SETTINGS; every frame has the motors stopped. */
  lemma SettingsUpdateContents(pairs: seq<(Verb, int)>)
    ensures var fs := SettingsUpdate(pairs);
            fs[0] == Frame(Stopped, ReloadSettings, 0)
            && (forall i :: 0 <= i < |pairs| ==> fs[i + 1] == Frame(Stopped, pairs[i].0, pairs[i].1))
            && fs[|pairs| + 1] == Frame(Stopped, CommitSettings, 0)
    ensures forall f :: f in SettingsUpdate(pairs) ==> f.motors == Stopped
  {
    var fs := SettingsUpdate(pairs);
    SettingFramesContents(pairs);
    forall f | f in fs ensures f.motors == Stopped {
      var i :| 0 <= i < |fs| && fs[i] == f;
      if 0 < i <= |pairs| {
        assert f == Frame(Stopped, pairs[i - 1].0, pairs[i - 1].1);
      }
    }
  }

  /** Queue RESTART on a fresh connection and wait until it reaches the transport. */
  method SendRestart<V>(ser: Channel<V>)
    requires ser.Valid()
    modifies ser
    ensures ser.Valid()
    ensures ser.sent == old(ser.sent) + [RestartFrame]
    ensures ser.flushed == |ser.sent| && ser.cursor == old(ser.cursor)
  {
    ser.WriteNowait(0.0, 0.0, 0.0, Restart, 0);
    ser.Flush();
  }

  /** Queue the settings update and wait until it reaches the transport. */
  method UpdateSettings<V>(device: Channel<V>, pairs: seq<(Verb, int)>)
    requires device.Valid()
    modifies device
    ensures device.Valid()
    ensures device.sent == old(device.sent) + SettingsUpdate(pairs)
    ensures device.flushed == |device.sent| && device.cursor == old(device.cursor)
  {
    device.WriteNowait(0.0, 0.0, 0.0, ReloadSettings, 0);
    for i := 0 to |pairs|
      invariant device.Valid() && device.cursor == old(device.cursor)
      invariant device.sent == old(device.sent) + [Frame(Stopped, ReloadSettings, 0)] + SettingFrames(pairs[..i])
    {
      SettingFramesStep(pairs, i);
      device.WriteNowait(0.0, 0.0, 0.0, pairs[i].0, pairs[i].1);
    }
    assert pairs[..|pairs|] == pairs;
    device.WriteNowait(0.0, 0.0, 0.0, CommitSettings, 0);
    device.Flush();
  }

  // ---------------------------------------------------------------------------
  // Decisions
  // ---------------------------------------------------------------------------

  /** An exception amain does not catch; the process then ends with status 1. */
  datatype Crash = ReadTimedOut | BootloaderFailed

  datatype Outcome = Exited(code: int) | Crashed(cause: Crash)

  datatype Verdict = Proceed | Stop(outcome: Outcome)

  /** `any([args.flash, args.minimumversion, args.updatesettings])`: an empty flash
      path or an empty settings list counts as not requested. */
  function ActionRequested<M>(flash: Option<string>, minimumVersion: Option<M>,
                              settings: Option<seq<(Verb, int)>>): (r: bool)
    ensures minimumVersion.Some? ==> r
    ensures flash.Some? && flash.value != [] ==> r
    ensures settings.Some? && settings.value != [] ==> r
    ensures (flash.None? || flash == Some([])) && minimumVersion.None? && (settings.None? || settings == Some([])) ==> !r
  {
    (flash.Some? && flash.value != []) || minimumVersion.Some? || (settings.Some? && settings.value != [])
  }

  /** The device to use: the explicit port, else the first discovered candidate. */
  function ChoosePort(port: Option<string>, candidates: seq<string>): (r: Option<string>)
    ensures port.Some? ==> r == port
    ensures port.None? ==> (r.None? <==> candidates == [])
    ensures port.None? && r.Some? ==> r.value == candidates[0]
  {
    if port.Some? then port
    else if |candidates| == 0 then None
    else Some(candidates[0])
  }

  /** The version check on the first reply to GET_DATA 40: a timeout is not caught,
      another key or a version below the minimum exits with status 1. */
  function VersionVerdict<V, M>(reply: Option<Response<V>>, minimum: M, older: (V, M) -> bool): (v: Verdict)
    ensures v == Proceed <==> reply.Some? && reply.value.key == VersionIndex && !older(reply.value.value, minimum)
    ensures reply.None? ==> v == Stop(Crashed(ReadTimedOut))
    ensures reply.Some? && v.Stop? ==> v.outcome == Exited(1)
  {
    match reply
    case None => Stop(Crashed(ReadTimedOut))
    case Some(Response(k, version)) =>
      if k != VersionIndex then Stop(Exited(1))
      else if older(version, minimum) then Stop(Exited(1))
      else Proceed
  }

  /** Ask a fresh connection for the version and decide. */
  method CheckVersion<V, M>(device: Channel<V>, minimum: M, older: (V, M) -> bool) returns (verdict: Verdict)
    requires device.Valid()
    modifies device
    ensures device.Valid()
    ensures device.sent == old(device.sent) + [VersionRequest]
    ensures verdict == VersionVerdict(Next(old(device.Remaining())), minimum, older)
    ensures device.cursor == old(device.cursor) + (if old(device.Remaining()) == [] then 0 else 1)
    ensures device.flushed == old(device.flushed)
  {
    device.WriteNowait(0.0, 0.0, 0.0, GetData, VersionIndex);
    var reply := device.ReadOne();
    if reply.None? {
      return Stop(Crashed(ReadTimedOut));
    }
    var actual: Option<V> := None;
    if reply.value.key == VersionIndex {
      actual := Some(reply.value.value);
    }
    if actual.None? {
      return Stop(Exited(1));
    }
    if older(actual.value, minimum) {
      return Stop(Exited(1));
    }
    verdict := Proceed;
  }

  // ---------------------------------------------------------------------------
  // amain
  // ---------------------------------------------------------------------------

  /** The command line as given; `updateSettings` holds the raw `k:v` strings. */
  datatype CommandLine<M> = CommandLine(port: Option<string>, flash: Option<string>,
                                        minimumVersion: Option<M>, updateSettings: Option<seq<string>>)

  /** The namespace parse_args returns once every -u argument is converted. */
  datatype Args<M> = Args(port: Option<string>, flash: Option<string>,
                          minimumVersion: Option<M>, updateSettings: Option<seq<(Verb, int)>>)

  /** parse_args: None on a usage error, that is -u given without any argument
      (it takes one or more) or with an argument the validator rejects. */
  function ParseArgs<M>(cl: CommandLine<M>): (r: Option<Args<M>>)
    ensures r.Some? ==> r.value.port == cl.port && r.value.flash == cl.flash && r.value.minimumVersion == cl.minimumVersion
    ensures cl.updateSettings.None? ==> r.Some? && r.value.updateSettings.None?
    ensures r.Some? && cl.updateSettings.Some? ==> r.value.updateSettings.Some? && r.value.updateSettings.value != []
  {
    if cl.updateSettings.None? then Some(Args(cl.port, cl.flash, cl.minimumVersion, None))
    else if cl.updateSettings.value == [] then None
    else
      match ParseSettings(cl.updateSettings.value)
      case None => None
      case Some(pairs) => Some(Args(cl.port, cl.flash, cl.minimumVersion, Some(pairs)))
  }

  /** What the world answers: the discovered ports, whether the firmware file
      exists, whether the bootloader succeeds, and the replies on the version link. */
  datatype Env<V> = Env(candidates: seq<string>, hexIsFile: bool, bootloaderSucceeds: bool,
                        versionReplies: seq<Response<V>>)

  /** How a run ends, the device it used, and the frames queued on the restart,
      version and settings connections. */
  datatype Run = Run(outcome: Outcome, port: Option<string>,
                     restartLink: seq<Frame>, versionLink: seq<Frame>, settingsLink: seq<Frame>)

  /** What amain does after parse_args, stage by stage. */
  function Actions<V, M>(args: Args<M>, env: Env<V>, older: (V, M) -> bool): (r: Run)
    ensures r.outcome == Exited(2) <==> !ActionRequested(args.flash, args.minimumVersion, args.updateSettings)
    ensures r.port.Some? ==> r.port == ChoosePort(args.port, env.candidates)
    ensures r.port.None? ==> r.restartLink == [] && r.versionLink == [] && r.settingsLink == []
    ensures r.settingsLink != [] ==> r.outcome == Exited(0)
  {
    if !ActionRequested(args.flash, args.minimumVersion, args.updateSettings) then Run(Exited(2), None, [], [], [])
    else
      match ChoosePort(args.port, env.candidates)
      case None => Run(Exited(1), None, [], [], [])
      case Some(p) =>
        if args.flash.Some? && !env.hexIsFile then Run(Exited(1), Some(p), [], [], [])
        else
          var restart := if args.flash.Some? then [RestartFrame] else [];
          if args.flash.Some? && !env.bootloaderSucceeds then Run(Crashed(BootloaderFailed), Some(p), restart, [], [])
          else Checks(args, env, older, p, restart)
  }

  /** The stages after any flash: the version check, then the settings update. */
  function Checks<V, M>(args: Args<M>, env: Env<V>, older: (V, M) -> bool, p: string, restart: seq<Frame>): (r: Run)
    ensures r.port == Some(p) && r.restartLink == restart
    ensures r.outcome != Exited(2)
  {
    var versionLink := if args.minimumVersion.Some? then [VersionRequest] else [];
    var verdict := if args.minimumVersion.Some?
                   then VersionVerdict(Next(env.versionReplies), args.minimumVersion.value, older)
                   else Proceed;
    if verdict.Stop? then Run(verdict.outcome, Some(p), restart, versionLink, [])
    else
      var pairs := args.updateSettings;
      var settingsLink := if pairs.Some? && pairs.value != [] then SettingsUpdate(pairs.value) else [];
      Run(Exited(0), Some(p), restart, versionLink, settingsLink)
  }

  /** What amain does with a command line. */
  function Pitstop<V, M>(cl: CommandLine<M>, env: Env<V>, older: (V, M) -> bool): (r: Run)
    ensures r.outcome == Exited(0) ==> ParseArgs(cl).Some?
    ensures r.outcome == Exited(2) ==> r.port.None?
    ensures r.port.None? ==> r.restartLink == [] && r.versionLink == [] && r.settingsLink == []
  {
    match ParseArgs(cl)
    case None => Run(Exited(2), None, [], [], [])
    case Some(args) => Actions(args, env, older)
  }

  /** amain over fresh connections, one per SerialTrio the source opens. */
  method Amain<V, M>(cl: CommandLine<M>, env: Env<V>, older: (V, M) -> bool) returns (run: Run)
    ensures run == Pitstop(cl, env, older)
  {
    var parsed := ParseArgs(cl);
    if parsed.None? {
      return Run(Exited(2), None, [], [], []);
    }
    run := RunActions(parsed.value, env, older);
  }

  /** amain after parse_args. */
  method RunActions<V, M>(args: Args<M>, env: Env<V>, older: (V, M) -> bool) returns (run: Run)
    ensures run == Actions(args, env, older)
  {
    if !ActionRequested(args.flash, args.minimumVersion, args.updateSettings) {
      return Run(Exited(2), None, [], [], []);
    }
    var port := ChoosePort(args.port, env.candidates);
    if port.None? {
      return Run(Exited(1), None, [], [], []);
    }
    var restart: seq<Frame> := [];
    if args.flash.Some? {
      if !env.hexIsFile {
        return Run(Exited(1), port, [], [], []);
      }
      var ser := new Channel<V>([]);
      SendRestart(ser);
      restart := ser.sent;
      if !env.bootloaderSucceeds {
        return Run(Crashed(BootloaderFailed), port, restart, [], []);
      }
    }
    run := RunChecks(args, env, older, port.value, restart);
  }

  /** The version check and the settings update, each on a fresh connection. */
  method RunChecks<V, M>(args: Args<M>, env: Env<V>, older: (V, M) -> bool, p: string, restart: seq<Frame>)
    returns (run: Run)
    ensures run == Checks(args, env, older, p, restart)
  {
    var versionLink: seq<Frame> := [];
    if args.minimumVersion.Some? {
      var device := new Channel<V>(env.versionReplies);
      var verdict := CheckVersion(device, args.minimumVersion.value, older);
      versionLink := device.sent;
      if verdict.Stop? {
        return Run(verdict.outcome, Some(p), restart, versionLink, []);
      }
    }
    var settingsLink: seq<Frame> := [];
    var pairs := args.updateSettings;
    if pairs.Some? && pairs.value != [] {
      var device := new Channel<V>([]);
      UpdateSettings(device, pairs.value);
      settingsLink := device.sent;
    }
    run := Run(Exited(0), Some(p), restart, versionLink, settingsLink);
  }

  // ---------------------------------------------------------------------------
  // Properties of a run
  // ---------------------------------------------------------------------------

  /** A rejected -u argument, or no action requested, stops the tool with a usage
      error before it looks for or opens any device. */
  lemma UsageErrorTouchesNoDevice<V, M>(cl: CommandLine<M>, env: Env<V>, older: (V, M) -> bool)
    ensures var run := Pitstop(cl, env, older);
            var parsed := ParseArgs(cl);
            (run.outcome == Exited(2)
             <==> parsed.None?
                  || !ActionRequested(parsed.value.flash, parsed.value.minimumVersion, parsed.value.updateSettings))
            && (run.outcome == Exited(2) ==>
                  run.port.None? && run.restartLink == [] && run.versionLink == [] && run.settingsLink == [])
  {
  }

  /** parse_args fails exactly when -u is given empty or some -u argument is
      rejected by the validator. */
  lemma ParseArgsFails<M>(cl: CommandLine<M>)
    ensures ParseArgs(cl).None? <==>
            cl.updateSettings.Some?
            && (cl.updateSettings.value == []
                || exists i :: 0 <= i < |cl.updateSettings.value| && RoverCommandArgPair(cl.updateSettings.value[i]).Err?)
  {
  }

  /** With no explicit port and no candidate the tool exits 1 without sending anything. */
  lemma NoCandidateExitsOne<V, M>(args: Args<M>, env: Env<V>, older: (V, M) -> bool)
    requires ActionRequested(args.flash, args.minimumVersion, args.updateSettings)
    requires args.port.None? && env.candidates == []
    ensures Actions(args, env, older) == Run(Exited(1), None, [], [], [])
  {
  }

  /** With no explicit port, the first candidate is used even when there are several. */
  lemma FirstCandidateUsed<V, M>(args: Args<M>, env: Env<V>, older: (V, M) -> bool)
    requires ActionRequested(args.flash, args.minimumVersion, args.updateSettings)
    requires args.port.None? && env.candidates != []
    ensures Actions(args, env, older).port == Some(env.candidates[0])
  {
  }

  /** The restart connection carries at most one frame, RESTART with stopped motors
      and argument 0, and only when a flash is requested and the file exists. */
  lemma RestartIsSingleFrame<V, M>(args: Args<M>, env: Env<V>, older: (V, M) -> bool)
    ensures var run := Actions(args, env, older);
            run.restartLink == [] || run.restartLink == [RestartFrame]
    ensures var run := Actions(args, env, older);
            run.restartLink == [RestartFrame] ==> args.flash.Some? && env.hexIsFile
    ensures var run := Actions(args, env, older);
            run.outcome == Exited(0) ==> (run.restartLink == [RestartFrame] <==> args.flash.Some?)
  {
  }

  /** A run that asked for a minimum version succeeds only when the first reply
      carries key 40 and a version not below the minimum; otherwise no settings are sent. */
  lemma VersionGate<V, M>(args: Args<M>, env: Env<V>, older: (V, M) -> bool)
    requires args.minimumVersion.Some?
    ensures var run := Actions(args, env, older);
            run.outcome == Exited(0) ==>
              env.versionReplies != [] && env.versionReplies[0].key == VersionIndex
              && !older(env.versionReplies[0].value, args.minimumVersion.value)
    ensures var run := Actions(args, env, older);
            run.port.Some? && !(args.flash.Some? && !(env.hexIsFile && env.bootloaderSucceeds)) ==>
              run.versionLink == [VersionRequest]
    ensures var run := Actions(args, env, older);
            run.outcome != Exited(0) ==> run.settingsLink == []
  {
  }

  /** A successful run with -u sends RELOAD_SETTINGS, each pair in the order given,
      then COMMIT_SETTINGS: n + 2 frames. */
  lemma SettingsSequenceOnSuccess<V, M>(args: Args<M>, env: Env<V>, older: (V, M) -> bool)
    requires args.updateSettings.Some? && args.updateSettings.value != []
    requires Actions(args, env, older).outcome == Exited(0)
    ensures var run := Actions(args, env, older);
            var pairs := args.updateSettings.value;
            |run.settingsLink| == |pairs| + 2
            && run.settingsLink[0] == Frame(Stopped, ReloadSettings, 0)
            && (forall i :: 0 <= i < |pairs| ==> run.settingsLink[i + 1] == Frame(Stopped, pairs[i].0, pairs[i].1))
            && run.settingsLink[|pairs| + 1] == Frame(Stopped, CommitSettings, 0)
  {
    SettingsUpdateContents(args.updateSettings.value);
  }

  /** The settings pairs a run sends are the -u arguments as the validator converted them. */
  lemma SettingsFromCommandLine<M>(cl: CommandLine<M>)
    requires cl.updateSettings.Some? && ParseArgs(cl).Some?
    ensures var pairs := ParseArgs(cl).value.updateSettings;
            var raw := cl.updateSettings.value;
            pairs.Some? && |pairs.value| == |raw|
            && forall i :: 0 <= i < |raw| ==> pairs.value[i] == RoverCommandArgPair(raw[i]).value
  {
  }

  /** Exactly when a run succeeds. */
  lemma SuccessConditions<V, M>(args: Args<M>, env: Env<V>, older: (V, M) -> bool)
    ensures Actions(args, env, older).outcome == Exited(0) <==>
            ActionRequested(args.flash, args.minimumVersion, args.updateSettings)
            && (args.port.Some? || env.candidates != [])
            && (args.flash.Some? ==> env.hexIsFile && env.bootloaderSucceeds)
            && (args.minimumVersion.Some? ==>
                  VersionVerdict(Next(env.versionReplies), args.minimumVersion.value, older) == Proceed)
  {
  }

  /** Every frame amain queues has the motors stopped. */
  lemma AllFramesStopped<V, M>(args: Args<M>, env: Env<V>, older: (V, M) -> bool)
    ensures var run := Actions(args, env, older);
            forall f :: f in run.restartLink + run.versionLink + run.settingsLink ==> f.motors == Stopped
  {
    var run := Actions(args, env, older);
    RestartIsSingleFrame(args, env, older);
    assert run.versionLink == [] || run.versionLink == [VersionRequest];
    var pairs := if args.updateSettings.Some? then args.updateSettings.value else [];
    assert run.settingsLink == [] || run.settingsLink == SettingsUpdate(pairs);
    SettingsUpdateContents(pairs);
    var all := run.restartLink + run.versionLink + run.settingsLink;
    forall f | f in all ensures f.motors == Stopped {
      if f !in run.settingsLink {
        assert f in run.restartLink || f in run.versionLink;
      }
    }
  }
}

/** The protocol channel seen from above the codec: an outgoing queue of command
    frames and a stream of decoded (key, value) replies read one at a time.
    The byte layout, checksum and data-element decoders are not modelled; a frame
    is the tuple handed to write_nowait and a reply value is opaque (type V). */
module Protocol {

  datatype Option<T> = None | Some(value: T)

  datatype Result<T, E> = Ok(value: T) | Err(error: E)

  function Min(a: int, b: int): int { if a <= b then a else b }

  /** Codes 3..8: the verbs that take a setting value. */
  type SettingCode = c: int | 3 <= c <= 8 witness 3

  /** The command verbs used by the session layer and the pitstop utility. */
  datatype Verb =
    | Nop
    | ReloadSettings
    | CommitSettings
    | Setting(code: SettingCode)
    | GetData
    | SetFanSpeed
    | Restart
    | FlipperCalibrate

  /** Numeric value of a verb on the wire. */
  function Code(v: Verb): (c: nat)
    ensures c < 256
    ensures 3 <= c <= 8 <==> v.Setting?
    ensures v.Setting? ==> c == v.code
  {
    match v
    case Nop => 0
    case ReloadSettings => 1
    case CommitSettings => 2
    case Setting(k) => k
    case GetData => 10
    case SetFanSpeed => 20
    case Restart => 230
    case FlipperCalibrate => 250
  }

  /** Distinct verbs have distinct codes. */
  lemma CodeInjective(v: Verb, w: Verb)
    requires Code(v) == Code(w)
    ensures v == w
  {
    if v.Setting? || w.Setting? {
      assert v.Setting? && w.Setting?;
    }
  }

  /** Telemetry index of the firmware version element. */
  const VersionIndex := 40

  /** Motor state carried by every command frame: left, right and flipper. */
  datatype Motors = Motors(left: real, right: real, flipper: real)

  const Stopped := Motors(0.0, 0.0, 0.0)

  predicate InRange(x: real) { -1.0 <= x <= 1.0 }

  /** One outgoing command: motor state, verb and argument. */
  datatype Frame = Frame(motors: Motors, verb: Verb, arg: int)

  /** The firmware version request: motors stopped, GET_DATA of the version index. */
  const VersionRequest := Frame(Stopped, GetData, VersionIndex)

  /** One decoded reply from the device: telemetry key and its value. */
  datatype Response<V> = Response(key: int, value: V)

  /** What happened on the channel, in order. */
  datatype Event<V> = Wrote(frame: Frame) | Read(response: Response<V>) | TimedOut

  /** The first reply still to be read, if any. */
  function Next<V>(replies: seq<Response<V>>): (r: Option<Response<V>>)
    ensures r.None? <==> replies == []
    ensures r.Some? ==> r.value == replies[0]
  {
    if replies == [] then None else Some(replies[0])
  }

  /** An OpenRoverProtocol over one connection. `sent` is everything ever queued by
      write_nowait, of which the first `flushed` frames have been handed to the
      transport; `replies` is what the device will answer, of which the first
      `cursor` have been read. Reading past the end stands for a timeout. */
  class Channel<V> {
    var sent: seq<Frame>
    var flushed: nat
    const replies: seq<Response<V>>
    var cursor: nat
    ghost var trace: seq<Event<V>>

    ghost predicate Valid()
      reads this
    {
      flushed <= |sent| && cursor <= |replies|
    }

    /** The replies not yet read. */
    function Remaining(): (rest: seq<Response<V>>)
      reads this
      requires Valid()
      ensures |rest| == |replies| - cursor
    {
      replies[cursor..]
    }

    /** A fresh connection to a device that will answer with `script`. */
    constructor (script: seq<Response<V>>)
      ensures Valid()
      ensures sent == [] && flushed == 0 && replies == script && cursor == 0 && trace == []
    {
      sent := [];
      flushed := 0;
      replies := script;
      cursor := 0;
      trace := [];
    }

    /** Queue one frame without waiting for the transport. */
    method WriteNowait(left: real, right: real, flipper: real, verb: Verb, arg: int)
      requires Valid()
      modifies this
      ensures Valid()
      ensures sent == old(sent) + [Frame(Motors(left, right, flipper), verb, arg)]
      ensures trace == old(trace) + [Wrote(Frame(Motors(left, right, flipper), verb, arg))]
      ensures flushed == old(flushed) && cursor == old(cursor)
    {
      var f := Frame(Motors(left, right, flipper), verb, arg);
      sent := sent + [f];
      trace := trace + [Wrote(f)];
    }

    /** Hand every queued frame to the transport. */
    method Flush()
      requires Valid()
      modifies this
      ensures Valid()
      ensures flushed == |sent|
      ensures sent == old(sent) && cursor == old(cursor) && trace == old(trace)
    {
      flushed := |sent|;
    }

    /** Wait for the next decoded reply; None when none arrives in time. */
    method ReadOne() returns (r: Option<Response<V>>)
      requires Valid()
      modifies this
      ensures Valid()
      ensures r == Next(old(Remaining()))
      ensures cursor == if r.Some? then old(cursor) + 1 else old(cursor)
      ensures trace == old(trace) + [if r.Some? then Read(r.value) else TimedOut]
      ensures sent == old(sent) && flushed == old(flushed)
    {
      if cursor < |replies| {
        r := Some(replies[cursor]);
        cursor := cursor + 1;
        trace := trace + [Read(r.value)];
      } else {
        r := None;
        trace := trace + [TimedOut];
      }
    }
  }
}

/** The session layer of openrover/rover.py: a Rover holds the current motor
    triple, attaches it to every command it queues, and reads telemetry by strict
    positional matching of replies against requests. */
module Session {
  import opened Protocol

  /** How a telemetry read can fail. */
  datatype Failure =
    | Timeout                                         // no reply within the deadline
    | UnexpectedResponse(expected: int, received: int) // a reply for another key
    | NoVersionResponse                               // the version probe got no answer

  predicate StrictlyIncreasing(s: seq<int>)
  {
    forall i, j :: 0 <= i < j < |s| ==> s[i] < s[j]
  }

  // ---------------------------------------------------------------------------
  // sorted(set(indices))
  // ---------------------------------------------------------------------------

  /** Insert x into a strictly increasing sequence, keeping it strictly increasing. */
  function Insert(x: int, s: seq<int>): (r: seq<int>)
    requires StrictlyIncreasing(s)
    ensures StrictlyIncreasing(r)
    ensures forall y :: y in r <==> y == x || y in s
  {
    if s == [] then [x]
    else if x < s[0] then
      assert forall j :: 0 <= j < |s| ==> s[0] <= s[j];
      [x] + s
    else if x == s[0] then s
    else
      var t := Insert(x, s[1..]);
      assert forall j :: 0 <= j < |t| ==> t[j] in t;
      assert forall y :: y in s[1..] ==> s[0] < y;
      [s[0]] + t
  }

  /** The indices of a batch request: duplicates dropped, in ascending order. */
  function SortedDistinct(xs: seq<int>): (r: seq<int>)
    ensures StrictlyIncreasing(r)
    ensures forall y :: y in r <==> y in xs
  {
    if xs == [] then []
    else
      var n := |xs| - 1;
      assert xs == xs[..n] + [xs[n]];
      Insert(xs[n], SortedDistinct(xs[..n]))
  }

  /** The head of a strictly increasing sequence is its least element, and the
      tail holds every other element. */
  lemma HeadIsLeast(a: seq<int>)
    requires StrictlyIncreasing(a) && a != []
    ensures forall y :: y in a ==> a[0] <= y
    ensures forall y :: y in a[1..] <==> y in a && y != a[0]
  {
    forall y | y in a ensures a[0] <= y && (y in a[1..] <==> y != a[0]) {
      var j :| 0 <= j < |a| && a[j] == y;
      if j > 0 { assert a[1..][j - 1] == y; }
    }
  }

  /** A strictly increasing sequence is determined by its elements. */
  lemma {:induction false} StrictlyIncreasingUnique(a: seq<int>, b: seq<int>)
    requires StrictlyIncreasing(a) && StrictlyIncreasing(b)
    requires forall y :: y in a <==> y in b
    ensures a == b
  {
    if a != [] { assert a[0] in a; }
    if b != [] { assert b[0] in b; }
    if a != [] && b != [] {
      HeadIsLeast(a);
      HeadIsLeast(b);
      assert a[0] == b[0];
      StrictlyIncreasingUnique(a[1..], b[1..]);
      assert a == [a[0]] + a[1..] && b == [b[0]] + b[1..];
    }
  }

  /** SortedDistinct(xs) is exactly sorted(set(xs)): the only strictly increasing
      sequence holding the elements of xs. */
  lemma SortedDistinctIsSortedSet(xs: seq<int>, s: seq<int>)
    requires StrictlyIncreasing(s)
    requires forall y :: y in s <==> y in xs
    ensures SortedDistinct(xs) == s
  {
    StrictlyIncreasingUnique(SortedDistinct(xs), s);
  }

  lemma {:induction false} StrictlyIncreasingCard(s: seq<int>)
    requires StrictlyIncreasing(s)
    ensures |set y | y in s| == |s|
  {
    if s != [] {
      var t := s[1..];
      StrictlyIncreasingCard(t);
      assert (set y | y in s) == {s[0]} + (set y | y in t);
      assert s[0] !in (set y | y in t);
    }
  }

  /** A batch sends exactly |set(xs)| requests. */
  lemma SortedDistinctCount(xs: seq<int>)
    ensures |SortedDistinct(xs)| == |set y | y in xs|
  {
    var r := SortedDistinct(xs);
    StrictlyIncreasingCard(r);
    assert (set y | y in r) == (set y | y in xs);
  }

  /** The batch {40, 14, 14, 28} is requested as 14, 28, 40. */
  lemma BatchExample()
    ensures SortedDistinct([40, 14, 14, 28]) == [14, 28, 40]
  {
    SortedDistinctIsSortedSet([40, 14, 14, 28], [14, 28, 40]);
  }

  // ---------------------------------------------------------------------------
  // Positional matching of replies against requests
  // ---------------------------------------------------------------------------

  /** The frames of a batch: one GET_DATA per index, in order, all carrying m. */
  function Requests(m: Motors, idx: seq<int>): (fs: seq<Frame>)
    ensures |fs| == |idx|
  {
    if idx == [] then [] else Requests(m, idx[..|idx| - 1]) + [Frame(m, GetData, idx[|idx| - 1])]
  }

  /** The i-th request asks for the i-th index and carries the motor triple. */
  lemma {:induction false} RequestsContents(m: Motors, idx: seq<int>)
    ensures forall i :: 0 <= i < |idx| ==> Requests(m, idx)[i] == Frame(m, GetData, idx[i])
  {
    if idx != [] {
      var init := idx[..|idx| - 1];
      RequestsContents(m, init);
      forall i | 0 <= i < |idx|
        ensures Requests(m, idx)[i] == Frame(m, GetData, idx[i])
      {
        if i < |init| {
          assert Requests(m, idx)[i] == Requests(m, init)[i];
        }
      }
    }
  }

  /** What one read yields when `index` was requested and `next` arrived. */
  function Expect<V>(index: int, next: Option<Response<V>>): (r: Result<V, Failure>)
    ensures r.Ok? <==> next.Some? && next.value.key == index
    ensures r.Ok? ==> r.value == next.value.value
    ensures next.None? ==> r == Err(Timeout)
    ensures next.Some? && next.value.key != index ==> r == Err(UnexpectedResponse(index, next.value.key))
  {
    match next
    case None => Err(Timeout)
    case Some(Response(k, data)) => if k != index then Err(UnexpectedResponse(index, k)) else Ok(data)
  }

  /** The i-th index is the last occurrence of its value. */
  predicate LastAt(s: seq<int>, i: int)
    requires 0 <= i < |s|
  {
    forall j :: i < j < |s| ==> s[j] != s[i]
  }

  /** The outcome of reading one reply per requested index, in order, from `replies`
      (what the device will send); the first failing position decides the error. */
  function MatchReplies<V>(idx: seq<int>, replies: seq<Response<V>>): (r: Result<map<int, V>, Failure>)
    ensures r.Ok? <==> |idx| <= |replies| && forall i :: 0 <= i < |idx| ==> replies[i].key == idx[i]
  {
    if idx == [] then Ok(map[])
    else
      var n := |idx| - 1;
      assert forall i :: 0 <= i < n ==> idx[..n][i] == idx[i];
      match MatchReplies(idx[..n], replies)
      case Err(e) => Err(e)
      case Ok(m) =>
        match Expect(idx[n], if n < |replies| then Some(replies[n]) else None)
        case Err(e) => Err(e)
        case Ok(v) => Ok(m[idx[n] := v])
  }

  /** A successful batch is the successful batch without its last index, updated
      with the last reply. */
  lemma MatchRepliesLast<V>(idx: seq<int>, replies: seq<Response<V>>)
    requires idx != [] && MatchReplies(idx, replies).Ok?
    ensures |idx| <= |replies| && MatchReplies(idx[..|idx| - 1], replies).Ok?
    ensures MatchReplies(idx, replies).value
            == MatchReplies(idx[..|idx| - 1], replies).value[idx[|idx| - 1] := replies[|idx| - 1].value]
  {
  }

  /** On success the result's keys are exactly the requested indices. */
  lemma {:induction false} MatchRepliesKeys<V>(idx: seq<int>, replies: seq<Response<V>>)
    requires MatchReplies(idx, replies).Ok?
    ensures MatchReplies(idx, replies).value.Keys == set y | y in idx
  {
    if idx != [] {
      var n := |idx| - 1;
      var pre := idx[..n];
      MatchRepliesLast(idx, replies);
      MatchRepliesKeys(pre, replies);
      assert idx == pre + [idx[n]];
      assert (set y | y in idx) == (set y | y in pre) + {idx[n]};
    }
  }

  /** On success each requested key maps to the value of the reply at the position
      of its last request. */
  lemma {:induction false} MatchRepliesMap<V>(idx: seq<int>, replies: seq<Response<V>>)
    requires MatchReplies(idx, replies).Ok?
    ensures MatchReplies(idx, replies).value.Keys == set y | y in idx
    ensures forall i :: 0 <= i < |idx| && LastAt(idx, i) ==>
              MatchReplies(idx, replies).value[idx[i]] == replies[i].value
  {
    MatchRepliesKeys(idx, replies);
    if idx != [] {
      var n := |idx| - 1;
      var pre := idx[..n];
      MatchRepliesLast(idx, replies);
      MatchRepliesMap(pre, replies);
      var full := MatchReplies(idx, replies).value;
      forall i | 0 <= i < |idx| && LastAt(idx, i)
        ensures full[idx[i]] == replies[i].value
      {
        if i < n {
          assert pre[i] == idx[i];
          assert LastAt(pre, i);
          assert idx[i] != idx[n];
        }
      }
    }
  }

  /** How many replies MatchReplies reads: all of them on success, up to and
      including the mismatching one, or up to the end on a timeout. */
  function Consumed<V>(idx: seq<int>, replies: seq<Response<V>>): (n: nat)
    ensures n <= |idx| && n <= |replies|
    ensures MatchReplies(idx, replies).Ok? ==> n == |idx|
  {
    if idx == [] then 0
    else
      var n := |idx| - 1;
      if MatchReplies(idx[..n], replies).Err? then Consumed(idx[..n], replies)
      else if n < |replies| then n + 1
      else n
  }

  /** One more matching reply extends a successful batch by one read. */
  lemma MatchStep<V>(idx: seq<int>, replies: seq<Response<V>>, i: nat, m: map<int, V>)
    requires i < |idx| && i < |replies| && replies[i].key == idx[i]
    requires MatchReplies(idx[..i], replies) == Ok(m)
    ensures MatchReplies(idx[..i + 1], replies) == Ok(m[idx[i] := replies[i].value])
    ensures Consumed(idx[..i + 1], replies) == i + 1
  {
    assert idx[..i + 1][..i] == idx[..i];
  }

  /** The first failing position p decides the whole batch: a reply for another
      key fails it with UnexpectedResponse after p + 1 reads, running out of
      replies fails it with Timeout after p reads. */
  lemma {:induction false} MatchFailsAt<V>(idx: seq<int>, replies: seq<Response<V>>, p: nat)
    requires p < |idx| && p <= |replies|
    requires forall i :: 0 <= i < p ==> replies[i].key == idx[i]
    requires p < |replies| ==> replies[p].key != idx[p]
    ensures MatchReplies(idx, replies)
            == Err(if p < |replies| then UnexpectedResponse(idx[p], replies[p].key) else Timeout)
    ensures Consumed(idx, replies) == if p < |replies| then p + 1 else p
  {
    var n := |idx| - 1;
    var pre := idx[..n];
    assert forall i :: 0 <= i < n ==> pre[i] == idx[i];
    if n == p {
      assert forall i :: 0 <= i < |pre| ==> replies[i].key == pre[i];
      assert MatchReplies(pre, replies).Ok?;
    } else {
      assert pre[p] == idx[p];
      MatchFailsAt(pre, replies, p);
    }
  }

  /** A batch of one index reads like get_data. */
  lemma SingleBatchIsGetData<V>(index: int, replies: seq<Response<V>>)
    ensures MatchReplies([index], replies)
            == match Expect(index, Next(replies))
               case Ok(v) => Ok(map[index := v])
               case Err(e) => Err(e)
    ensures Consumed([index], replies) == if replies == [] then 0 else 1
  {
    assert [index][..0] == [];
  }

  /** Keys 14, 16, 28, 30 answered in request order fill the whole batch. */
  lemma OrderedRepliesExample<V>(a: V, b: V, c: V, d: V)
    ensures MatchReplies([14, 16, 28, 30], [Response(14, a), Response(16, b), Response(28, c), Response(30, d)])
            == Ok(map[14 := a, 16 := b, 28 := c, 30 := d])
  {
    var idx := [14, 16, 28, 30];
    var replies := [Response(14, a), Response(16, b), Response(28, c), Response(30, d)];
    var r := MatchReplies(idx, replies);
    assert r.Ok?;
    MatchRepliesMap(idx, replies);
    assert LastAt(idx, 0) && LastAt(idx, 1) && LastAt(idx, 2) && LastAt(idx, 3);
    assert r.value.Keys == {14, 16, 28, 30};
    assert r.value[14] == a && r.value[16] == b && r.value[28] == c && r.value[30] == d;
    var m := map[14 := a, 16 := b, 28 := c, 30 := d];
    assert m.Keys == r.value.Keys;
    assert forall k | k in m :: r.value[k] == m[k];
    assert r.value == m;
    assert r == Ok(m);
  }

  /** A reply that arrives out of order fails the batch. */
  lemma SwappedRepliesExample<V>(a: V, b: V)
    ensures MatchReplies([14, 16], [Response(16, b), Response(14, a)]) == Err(UnexpectedResponse(14, 16))
  {
    MatchFailsAt([14, 16], [Response(16, b), Response(14, a)], 0);
  }

  // ---------------------------------------------------------------------------
  // Trace helpers
  // ---------------------------------------------------------------------------

  function WriteEvents<V>(fs: seq<Frame>): (es: seq<Event<V>>)
    ensures |es| == |fs|
  {
    if fs == [] then [] else WriteEvents(fs[..|fs| - 1]) + [Wrote(fs[|fs| - 1])]
  }

  /** The i-th write event records the i-th frame. */
  lemma {:induction false} WriteEventsContents<V>(fs: seq<Frame>)
    ensures forall i :: 0 <= i < |fs| ==> WriteEvents<V>(fs)[i] == Wrote(fs[i])
  {
    if fs != [] {
      var init := fs[..|fs| - 1];
      WriteEventsContents<V>(init);
      forall i | 0 <= i < |fs|
        ensures WriteEvents<V>(fs)[i] == Wrote(fs[i])
      {
        if i < |init| {
          assert WriteEvents<V>(fs)[i] == WriteEvents<V>(init)[i];
        }
      }
    }
  }

  /** One more GetData request extends the frames and their write events by one. */
  lemma RequestsStep<V>(m: Motors, idx: seq<int>, i: nat)
    requires i < |idx|
    ensures Requests(m, idx[..i + 1]) == Requests(m, idx[..i]) + [Frame(m, GetData, idx[i])]
    ensures WriteEvents<V>(Requests(m, idx[..i + 1])) == WriteEvents<V>(Requests(m, idx[..i])) + [Wrote(Frame(m, GetData, idx[i]))]
  {
    assert idx[..i + 1][..i] == idx[..i];
    var fs := Requests(m, idx[..i + 1]);
    assert fs[..i] == Requests(m, idx[..i]);
  }

  /** The first n replies read, then a timeout if one happened. */
  function ReadEvents<V>(replies: seq<Response<V>>, n: nat, timedOut: bool): (es: seq<Event<V>>)
    requires n <= |replies|
    ensures |es| == n + (if timedOut then 1 else 0)
  {
    Reads(replies, n) + (if timedOut then [TimedOut] else [])
  }

  /** The first n replies, each as a read event. */
  function Reads<V>(replies: seq<Response<V>>, n: nat): (es: seq<Event<V>>)
    requires n <= |replies|
    ensures |es| == n
  {
    if n == 0 then [] else Reads(replies, n - 1) + [Read(replies[n - 1])]
  }

  /** The events are the first n replies, in order, then the timeout if there was one. */
  lemma {:induction false} ReadEventsContents<V>(replies: seq<Response<V>>, n: nat, timedOut: bool)
    requires n <= |replies|
    ensures forall i :: 0 <= i < n ==> ReadEvents(replies, n, timedOut)[i] == Read(replies[i])
    ensures timedOut ==> ReadEvents(replies, n, timedOut)[n] == TimedOut
  {
    ReadsContents(replies, n);
  }

  lemma {:induction false} ReadsContents<V>(replies: seq<Response<V>>, n: nat)
    requires n <= |replies|
    ensures forall i :: 0 <= i < n ==> Reads(replies, n)[i] == Read(replies[i])
  {
    if n > 0 {
      ReadsContents(replies, n - 1);
    }
  }

  /** Reading one more reply, or timing out, extends the events by one. */
  lemma ReadEventsStep<V>(replies: seq<Response<V>>, n: nat)
    requires n <= |replies|
    ensures n < |replies| ==> ReadEvents(replies, n, false) + [Read(replies[n])] == ReadEvents(replies, n + 1, false)
    ensures ReadEvents(replies, n, false) + [TimedOut] == ReadEvents(replies, n, true)
  {
  }

  /** A batch whose first failure is at p: the error, the reads it costs and the
      events they leave. */
  lemma FailedBatch<V>(idx: seq<int>, replies: seq<Response<V>>, p: nat)
    requires p < |idx| && p <= |replies|
    requires MatchReplies(idx[..p], replies).Ok?
    requires Expect(idx[p], Next(replies[p..])).Err?
    ensures MatchReplies(idx, replies) == Err(Expect(idx[p], Next(replies[p..])).error)
    ensures Consumed(idx, replies) == p + (if p < |replies| then 1 else 0)
    ensures ReadEvents(replies, Consumed(idx, replies), MatchReplies(idx, replies) == Err(Timeout))
            == ReadEvents(replies, p, false) + [if p < |replies| then Read(replies[p]) else TimedOut]
  {
    assert forall i :: 0 <= i < p ==> idx[..p][i] == idx[i];
    MatchFailsAt(idx, replies, p);
    if p < |replies| {
      assert Reads(replies, p + 1) == Reads(replies, p) + [Read(replies[p])];
    }
  }

  /** One matching reply extends a successful prefix of the batch. */
  lemma GoodStep<V>(idx: seq<int>, replies: seq<Response<V>>, i: nat, m: map<int, V>)
    requires i < |idx| && i <= |replies|
    requires MatchReplies(idx[..i], replies) == Ok(m)
    requires Expect(idx[i], Next(replies[i..])).Ok?
    ensures i < |replies|
    ensures MatchReplies(idx[..i + 1], replies) == Ok(m[idx[i] := Expect(idx[i], Next(replies[i..])).value])
    ensures ReadEvents(replies, i, false) + [Read(replies[i])] == ReadEvents(replies, i + 1, false)
  {
    MatchStep(idx, replies, i, m);
    ReadEventsStep(replies, i);
  }

  /** A batch that matched to the end consumed one reply per index. */
  lemma FullBatch<V>(idx: seq<int>, replies: seq<Response<V>>)
    requires MatchReplies(idx[..|idx|], replies).Ok?
    ensures idx[..|idx|] == idx
    ensures Consumed(idx, replies) == |idx|
    ensures MatchReplies(idx, replies) != Err(Timeout)
  {
    assert idx[..|idx|] == idx;
  }

  // ---------------------------------------------------------------------------
  // The Rover
  // ---------------------------------------------------------------------------

  /** Duty argument of SET_FAN_SPEED for a fan fraction: int(f * 240). */
  function FanDuty(f: real): (d: int)
    requires 0.0 <= f <= 1.0
    ensures 0 <= d <= 240
    ensures d as real <= f * 240.0 < d as real + 1.0
  {
    (f * 240.0).Floor
  }

  class Rover<V> {
    var motorLeft: real
    var motorRight: real
    var motorFlipper: real
    const protocol: Channel<V>

    ghost predicate Valid()
      reads this, protocol
    {
      protocol.Valid()
    }

    /** The motor triple every command currently carries. */
    function MotorState(): Motors
      reads this
    {
      Motors(motorLeft, motorRight, motorFlipper)
    }

    /** A new Rover on a connected device: all motors stopped. */
    constructor (device: Channel<V>)
      requires device.Valid()
      ensures Valid()
      ensures protocol == device && MotorState() == Stopped
    {
      motorLeft := 0.0;
      motorRight := 0.0;
      motorFlipper := 0.0;
      protocol := device;
    }

    /** Stores the new motor triple when every value lies in [-1, 1]; otherwise
        fails the assertion and changes nothing. Nothing is sent. */
    method SetMotorSpeeds(left: real, right: real, flipper: real) returns (ok: bool)
      requires Valid()
      modifies this
      ensures Valid()
      ensures ok <==> InRange(left) && InRange(right) && InRange(flipper)
      ensures MotorState() == if ok then Motors(left, right, flipper) else old(MotorState())
    {
      ok := InRange(left) && InRange(right) && InRange(flipper);
      if ok {
        motorLeft := left;
        motorRight := right;
        motorFlipper := flipper;
      }
    }

    /** Queue exactly one frame with the current motor triple. */
    method SendCommand(verb: Verb, arg: int)
      requires Valid()
      modifies protocol
      ensures Valid()
      ensures protocol.sent == old(protocol.sent) + [Frame(MotorState(), verb, arg)]
      ensures protocol.trace == old(protocol.trace) + [Wrote(Frame(MotorState(), verb, arg))]
      ensures protocol.cursor == old(protocol.cursor) && protocol.flushed == old(protocol.flushed)
    {
      protocol.WriteNowait(motorLeft, motorRight, motorFlipper, verb, arg);
    }

    /** The heartbeat: a NOP carrying the motor triple. */
    method SendSpeed()
      requires Valid()
      modifies protocol
      ensures Valid()
      ensures protocol.sent == old(protocol.sent) + [Frame(MotorState(), Nop, 0)]
      ensures protocol.trace == old(protocol.trace) + [Wrote(Frame(MotorState(), Nop, 0))]
      ensures protocol.cursor == old(protocol.cursor) && protocol.flushed == old(protocol.flushed)
    {
      SendCommand(Nop, 0);
    }

    /** Queue SET_FAN_SPEED with duty int(f * 240) when 0 <= f <= 1; otherwise fail
        the assertion and queue nothing. */
    method SetFanSpeed(fanSpeed: real) returns (ok: bool)
      requires Valid()
      modifies protocol
      ensures Valid()
      ensures ok <==> 0.0 <= fanSpeed <= 1.0
      ensures ok ==> protocol.sent == old(protocol.sent) + [Frame(MotorState(), Verb.SetFanSpeed, FanDuty(fanSpeed))]
      ensures !ok ==> protocol.sent == old(protocol.sent) && protocol.trace == old(protocol.trace)
      ensures ok ==> protocol.trace == old(protocol.trace) + [Wrote(Frame(MotorState(), Verb.SetFanSpeed, FanDuty(fanSpeed)))]
      ensures protocol.cursor == old(protocol.cursor) && protocol.flushed == old(protocol.flushed)
    {
      ok := 0.0 <= fanSpeed <= 1.0;
      if ok {
        SendCommand(Verb.SetFanSpeed, FanDuty(fanSpeed));
      }
    }

    /** Queue FLIPPER_CALIBRATE whose argument is the verb's own code. */
    method FlipperCalibrate()
      requires Valid()
      modifies protocol
      ensures Valid()
      ensures protocol.sent == old(protocol.sent) + [Frame(MotorState(), Verb.FlipperCalibrate, Code(Verb.FlipperCalibrate))]
      ensures protocol.trace == old(protocol.trace) + [Wrote(Frame(MotorState(), Verb.FlipperCalibrate, Code(Verb.FlipperCalibrate)))]
      ensures protocol.cursor == old(protocol.cursor) && protocol.flushed == old(protocol.flushed)
    {
      SendCommand(Verb.FlipperCalibrate, Code(Verb.FlipperCalibrate));
    }

    /** Request one telemetry item and read exactly one reply, which must carry
        the requested key. */
    method GetData(index: int) returns (r: Result<V, Failure>)
      requires Valid()
      modifies protocol
      ensures Valid()
      ensures protocol.sent == old(protocol.sent) + [Frame(MotorState(), Verb.GetData, index)]
      ensures r == Expect(index, Next(old(protocol.Remaining())))
      ensures protocol.cursor == old(protocol.cursor) + (if old(protocol.Remaining()) == [] then 0 else 1)
      ensures protocol.trace == old(protocol.trace) + [Wrote(Frame(MotorState(), Verb.GetData, index))]
                                + ReadEvents(old(protocol.Remaining()), if old(protocol.Remaining()) == [] then 0 else 1,
                                             old(protocol.Remaining()) == [])
      ensures protocol.flushed == old(protocol.flushed)
    {
      SendCommand(Verb.GetData, index);
      r := ReadExpected(index);
    }

    /** Read one reply and check that it carries the expected key. */
    method ReadExpected(index: int) returns (r: Result<V, Failure>)
      requires Valid()
      modifies protocol
      ensures Valid()
      ensures r == Expect(index, Next(old(protocol.Remaining())))
      ensures r.Ok? ==> old(protocol.Remaining()) != []
      ensures protocol.cursor == old(protocol.cursor) + (if old(protocol.Remaining()) == [] then 0 else 1)
      ensures protocol.trace == old(protocol.trace) + [if old(protocol.Remaining()) == [] then TimedOut
                                                       else Read(old(protocol.Remaining())[0])]
      ensures protocol.sent == old(protocol.sent) && protocol.flushed == old(protocol.flushed)
    {
      var reply := protocol.ReadOne();
      r := Expect(index, reply);
    }

    /** The first loop of get_data_items: one GET_DATA frame per index, in order. */
    method QueueRequests(idx: seq<int>)
      requires Valid()
      modifies protocol
      ensures Valid()
      ensures protocol.sent == old(protocol.sent) + Requests(MotorState(), idx)
      ensures protocol.trace == old(protocol.trace) + WriteEvents(Requests(MotorState(), idx))
      ensures protocol.cursor == old(protocol.cursor) && protocol.flushed == old(protocol.flushed)
    {
      var m := MotorState();
      for i := 0 to |idx|
        invariant protocol.Valid() && MotorState() == m
        invariant protocol.sent == old(protocol.sent) + Requests(m, idx[..i])
        invariant protocol.trace == old(protocol.trace) + WriteEvents(Requests(m, idx[..i]))
        invariant protocol.cursor == old(protocol.cursor) && protocol.flushed == old(protocol.flushed)
      {
        RequestsStep<V>(m, idx, i);
        SendCommand(Verb.GetData, idx[i]);
      }
      assert idx[..|idx|] == idx;
    }

    /** The second loop of get_data_items: one read per index, each reply checked
        against its index; the first failure ends the batch. */
    method CollectReplies(idx: seq<int>) returns (r: Result<map<int, V>, Failure>)
      requires Valid()
      modifies protocol
      ensures Valid()
      ensures r == MatchReplies(idx, old(protocol.Remaining()))
      ensures protocol.cursor == old(protocol.cursor) + Consumed(idx, old(protocol.Remaining()))
      ensures protocol.trace == old(protocol.trace)
                                + ReadEvents(old(protocol.Remaining()), Consumed(idx, old(protocol.Remaining())),
                                             r == Err(Timeout))
      ensures protocol.sent == old(protocol.sent) && protocol.flushed == old(protocol.flushed)
    {
      ghost var rest := protocol.Remaining();
      ghost var t0 := protocol.trace;
      ghost var c0 := protocol.cursor;
      var result: map<int, V> := map[];
      for i := 0 to |idx|
        invariant protocol.Valid() && i <= |rest|
        invariant protocol.sent == old(protocol.sent) && protocol.flushed == old(protocol.flushed)
        invariant protocol.cursor == c0 + i && protocol.Remaining() == rest[i..]
        invariant MatchReplies(idx[..i], rest) == Ok(result)
        invariant protocol.trace == t0 + ReadEvents(rest, i, false)
      {
        var one := ReadExpected(idx[i]);
        if one.Err? {
          FailedBatch(idx, rest, i);
          return Err(one.error);
        }
        GoodStep(idx, rest, i, result);
        result := result[idx[i] := one.value];
      }
      FullBatch(idx, rest);
      r := Ok(result);
    }

    /** Request every distinct index once, in ascending order, then read one reply
        per index in that order; any timeout or mismatch fails the whole batch. */
    method GetDataItems(indices: seq<int>) returns (r: Result<map<int, V>, Failure>)
      requires Valid()
      modifies protocol
      ensures Valid()
      ensures protocol.sent == old(protocol.sent) + Requests(MotorState(), SortedDistinct(indices))
      ensures r == MatchReplies(SortedDistinct(indices), old(protocol.Remaining()))
      ensures protocol.cursor == old(protocol.cursor) + Consumed(SortedDistinct(indices), old(protocol.Remaining()))
      ensures protocol.trace == old(protocol.trace)
                                + WriteEvents(Requests(MotorState(), SortedDistinct(indices)))
                                + ReadEvents(old(protocol.Remaining()),
                                             Consumed(SortedDistinct(indices), old(protocol.Remaining())),
                                             r == Err(Timeout))
      ensures protocol.flushed == old(protocol.flushed)
    {
      var idx := SortedDistinct(indices);
      QueueRequests(idx);
      r := CollectReplies(idx);
    }
  }

  // ---------------------------------------------------------------------------
  // get_openrover_version
  // ---------------------------------------------------------------------------

  /** The version request is sent at most this many times. */
  const VersionAttempts := 2

  /** The probe loop as written: each attempt reads one reply and returns its value
      when the key is the version index; a read that times out raises; when every
      attempt reads another key the loop ends and nothing (None) is returned. */
  function ProbeAsWritten<V>(replies: seq<Response<V>>, attempts: nat): (r: Result<Option<V>, Failure>)
    ensures r.Err? ==> r.error == NoVersionResponse
  {
    if attempts == 0 then Ok(None)
    else if replies == [] then Err(NoVersionResponse)
    else if replies[0].key == VersionIndex then Ok(Some(replies[0].value))
    else ProbeAsWritten(replies[1..], attempts - 1)
  }

  /** The probe as written returns None exactly when every attempt reads another
      key, raises exactly when the replies run out first, and otherwise returns
      the first version reply within the attempts. */
  lemma {:induction false} ProbeAsWrittenOutcome<V>(replies: seq<Response<V>>, attempts: nat)
    ensures var r := ProbeAsWritten(replies, attempts);
            r == Ok(None) <==>
            attempts <= |replies| && forall j :: 0 <= j < attempts ==> replies[j].key != VersionIndex
    ensures var r := ProbeAsWritten(replies, attempts);
            r.Err? <==>
            |replies| < attempts && forall j :: 0 <= j < |replies| ==> replies[j].key != VersionIndex
    ensures var r := ProbeAsWritten(replies, attempts);
            r.Ok? && r.value.Some? ==>
            exists j :: 0 <= j < attempts && j < |replies| && replies[j].key == VersionIndex
                        && r.value.value == replies[j].value
                        && forall i :: 0 <= i < j ==> replies[i].key != VersionIndex
  {
    if attempts > 0 && replies != [] && replies[0].key != VersionIndex {
      var tail := replies[1..];
      ProbeAsWrittenOutcome(tail, attempts - 1);
      var r := ProbeAsWritten(tail, attempts - 1);
      assert forall j :: 0 <= j < |tail| ==> tail[j] == replies[j + 1];
      if r.Ok? && r.value.Some? {
        var j :| 0 <= j < attempts - 1 && j < |tail| && tail[j].key == VersionIndex
                && r.value.value == tail[j].value
                && forall i :: 0 <= i < j ==> tail[i].key != VersionIndex;
        forall i | 0 <= i < j + 1 ensures replies[i].key != VersionIndex {
          if i > 0 { assert replies[i] == tail[i - 1]; }
        }
        assert replies[j + 1] == tail[j];
      }
    }
  }

  /** Two replies for other keys: the probe as written returns None without raising. */
  lemma ProbeAsWrittenReturnsNone<V>(a: V, b: V)
    ensures ProbeAsWritten([Response(41, a), Response(14, b)], VersionAttempts) == Ok(None)
  {
    var replies := [Response(41, a), Response(14, b)];
    assert replies[1..] == [Response(14, b)];
    assert ProbeAsWritten([Response(14, b)], 1) == ProbeAsWritten([], 0);
  }

  /** The probe as intended: the value of the first version reply among the attempts,
      or the domain error NoVersionResponse when there is none. */
  function ProbeVersion<V>(replies: seq<Response<V>>): (r: Result<V, Failure>)
    ensures r.Err? ==> r.error == NoVersionResponse
  {
    match ProbeAsWritten(replies, VersionAttempts)
    case Ok(Some(v)) => Ok(v)
    case _ => Err(NoVersionResponse)
  }

  /** The corrected probe succeeds exactly when a version reply is among the first
      two replies, and then returns the first one. */
  lemma ProbeVersionOutcome<V>(replies: seq<Response<V>>)
    ensures ProbeVersion(replies).Ok? <==>
            exists j :: 0 <= j < VersionAttempts && j < |replies| && replies[j].key == VersionIndex
    ensures ProbeVersion(replies).Ok? ==>
            exists j :: 0 <= j < VersionAttempts && j < |replies| && replies[j].key == VersionIndex
                        && ProbeVersion(replies).value == replies[j].value
                        && forall i :: 0 <= i < j ==> replies[i].key != VersionIndex
  {
    ProbeAsWrittenOutcome(replies, VersionAttempts);
  }

  /** With the correction, two replies for other keys raise the domain error. */
  lemma ProbeVersionRaises<V>(a: V, b: V)
    ensures ProbeVersion([Response(41, a), Response(14, b)]) == Err(NoVersionResponse)
  {
    ProbeAsWrittenReturnsNone(a, b);
  }

  /** How many version requests the probe sends: one per attempt until a version
      reply arrives or a read times out. */
  function ProbeWrites<V>(replies: seq<Response<V>>, attempts: nat): (n: nat)
    ensures n <= attempts
    ensures attempts > 0 ==> n > 0
  {
    if attempts == 0 then 0
    else if replies == [] || replies[0].key == VersionIndex then 1
    else 1 + ProbeWrites(replies[1..], attempts - 1)
  }

  /** The events of the probe: each attempt writes the version request and then
      reads one reply, or times out and stops; a version reply also stops it. */
  function ProbeEvents<V>(replies: seq<Response<V>>, attempts: nat): (es: seq<Event<V>>)
    ensures |es| == 2 * ProbeWrites(replies, attempts)
  {
    if attempts == 0 then []
    else if replies == [] then [Wrote(VersionRequest), TimedOut]
    else if replies[0].key == VersionIndex then [Wrote(VersionRequest), Read(replies[0])]
    else [Wrote(VersionRequest), Read(replies[0])] + ProbeEvents(replies[1..], attempts - 1)
  }

  /** The probe's events alternate: position 2j holds the j-th request, and
      position 2j + 1 the read of the j-th reply, or the timeout when none is left. */
  lemma {:induction false} ProbeEventAt<V>(replies: seq<Response<V>>, attempts: nat, k: nat)
    requires k < |ProbeEvents(replies, attempts)|
    ensures ProbeEvents(replies, attempts)[k]
            == if k % 2 == 0 then Wrote(VersionRequest)
               else if k / 2 < |replies| then Read(replies[k / 2]) else TimedOut
  {
    if k >= 2 {
      var tail := replies[1..];
      assert ProbeEvents(replies, attempts)[k] == ProbeEvents(tail, attempts - 1)[k - 2];
      ProbeEventAt(tail, attempts - 1, k - 2);
      assert (k - 2) % 2 == k % 2 && (k - 2) / 2 == k / 2 - 1;
      if k / 2 < |replies| {
        assert tail[k / 2 - 1] == replies[k / 2];
      }
    }
  }

  /** n copies of the version request. */
  function VersionRequests(n: nat): (fs: seq<Frame>)
    ensures |fs| == n
  {
    if n == 0 then [] else VersionRequests(n - 1) + [VersionRequest]
  }

  /** Every frame of VersionRequests(n) is the version request. */
  lemma {:induction false} VersionRequestsContents(n: nat)
    ensures forall f :: f in VersionRequests(n) ==> f == VersionRequest
  {
    if n > 0 {
      VersionRequestsContents(n - 1);
    }
  }

  /** The events of the first i attempts when each read another key. */
  function AttemptEvents<V>(replies: seq<Response<V>>, i: nat): (es: seq<Event<V>>)
    requires i <= |replies|
    ensures |es| == 2 * i
  {
    if i == 0 then [] else AttemptEvents(replies, i - 1) + [Wrote(VersionRequest), Read(replies[i - 1])]
  }

  /** After i attempts that each read another key, the rest of the probe's events
      are those of the probe on the remaining replies. */
  lemma {:induction false} ProbeEventsAfter<V>(rest: seq<Response<V>>, i: nat)
    requires i <= VersionAttempts && i <= |rest|
    requires forall j :: 0 <= j < i ==> rest[j].key != VersionIndex
    ensures ProbeEvents(rest, VersionAttempts) == AttemptEvents(rest, i) + ProbeEvents(rest[i..], VersionAttempts - i)
  {
    if i > 0 {
      ProbeEventsAfter(rest, i - 1);
      var step := [Wrote(VersionRequest), Read(rest[i - 1])];
      var todo := rest[i - 1..];
      assert todo[0] == rest[i - 1] && todo[1..] == rest[i..];
      ProbeStep(todo, VersionAttempts - i + 1);
      assert AttemptEvents(rest, i - 1) + (step + ProbeEvents(rest[i..], VersionAttempts - i))
             == (AttemptEvents(rest, i - 1) + step) + ProbeEvents(rest[i..], VersionAttempts - i);
    }
  }

  /** An attempt that reads another key moves the probe on to the next reply. */
  lemma ProbeStep<V>(todo: seq<Response<V>>, n: nat)
    requires n > 0 && todo != [] && todo[0].key != VersionIndex
    ensures ProbeAsWritten(todo, n) == ProbeAsWritten(todo[1..], n - 1)
    ensures ProbeWrites(todo, n) == 1 + ProbeWrites(todo[1..], n - 1)
    ensures ProbeEvents(todo, n) == [Wrote(VersionRequest), Read(todo[0])] + ProbeEvents(todo[1..], n - 1)
  {
  }

  /** An attempt that times out or reads the version reply ends the probe. */
  lemma ProbeLast<V>(todo: seq<Response<V>>, n: nat)
    requires n > 0 && (todo != [] ==> todo[0].key == VersionIndex)
    ensures ProbeAsWritten(todo, n) == if todo != [] then Ok(Some(todo[0].value)) else Err(NoVersionResponse)
    ensures ProbeWrites(todo, n) == 1
    ensures ProbeEvents(todo, n) == [Wrote(VersionRequest), if todo != [] then Read(todo[0]) else TimedOut]
  {
  }

  /** One attempt: queue the version request with stopped motors, then read one reply. */
  method RequestVersion<V>(orp: Channel<V>) returns (reply: Option<Response<V>>)
    requires orp.Valid()
    modifies orp
    ensures orp.Valid()
    ensures reply == Next(old(orp.Remaining()))
    ensures orp.sent == old(orp.sent) + [VersionRequest] && orp.flushed == old(orp.flushed)
    ensures orp.cursor == old(orp.cursor) + (if reply.Some? then 1 else 0)
    ensures orp.trace == old(orp.trace) + [Wrote(VersionRequest), if reply.Some? then Read(reply.value) else TimedOut]
  {
    orp.WriteNowait(0.0, 0.0, 0.0, GetData, VersionIndex);
    reply := orp.ReadOne();
  }

  /** get_openrover_version on a fresh connection `orp`, with the correction: up to
      two GET_DATA 40 requests with stopped motors, each followed by one read. */
  method GetOpenRoverVersion<V>(orp: Channel<V>) returns (r: Result<V, Failure>)
    requires orp.Valid()
    modifies orp
    ensures orp.Valid()
    ensures r == ProbeVersion(old(orp.Remaining()))
    ensures var w := ProbeWrites(old(orp.Remaining()), VersionAttempts);
            1 <= w <= VersionAttempts
            && orp.sent == old(orp.sent) + VersionRequests(w)
            && orp.cursor == old(orp.cursor) + Min(w, |old(orp.Remaining())|)
    ensures orp.trace == old(orp.trace) + ProbeEvents(old(orp.Remaining()), VersionAttempts)
    ensures orp.flushed == old(orp.flushed)
  {
    ghost var rest := orp.Remaining();
    ghost var todo := rest;
    var i := 0;
    while i < VersionAttempts
      invariant 0 <= i <= VersionAttempts && i <= |rest|
      invariant orp.Valid() && orp.flushed == old(orp.flushed)
      invariant orp.Remaining() == todo && todo == rest[i..] && orp.cursor == old(orp.cursor) + i
      invariant orp.sent == old(orp.sent) + VersionRequests(i)
      invariant orp.trace == old(orp.trace) + AttemptEvents(rest, i)
      invariant forall j :: 0 <= j < i ==> rest[j].key != VersionIndex
      invariant ProbeAsWritten(rest, VersionAttempts) == ProbeAsWritten(todo, VersionAttempts - i)
      invariant ProbeWrites(rest, VersionAttempts) == i + ProbeWrites(todo, VersionAttempts - i)
    {
      var reply := RequestVersion(orp);
      if reply.None? || reply.value.key == VersionIndex {
        ProbeLast(todo, VersionAttempts - i);
        ProbeEventsAfter(rest, i);
        if reply.None? {
          return Err(NoVersionResponse);
        }
        return Ok(reply.value.value);
      }
      ProbeStep(todo, VersionAttempts - i);
      assert todo[1..] == rest[i + 1..];
      todo := todo[1..];
      i := i + 1;
    }
    ProbeEventsAfter(rest, i);
    r := Err(NoVersionResponse);
  }
}

/** One job execution, `run` in jobs/jobs.go: a result channel of
    capacity 100 is opened, a forwarder publishes everything that comes out
    of it, the job runs and sends its events into it, and the channel is
    closed when the job returns. The goroutines are reduced to one trace of
    actions; how the two sides interleave is a parameter. */
module Execution {

  /** Capacity of the result channel. */
  const ResultCapacity: nat := 100

  /** The cause every forwarded event is published with. */
  datatype Cause = APISuccess

  /** What happens on the result channel: the job sends, the forwarder
      publishes, or the channel is closed. */
  datatype Action<E> = Send(event: E) | Publish(cause: Cause, event: E) | Close

  /** The events the job sent, in order. */
  function Sent<E>(trace: seq<Action<E>>): seq<E>
  {
    if trace == [] then []
    else
      var a := trace[|trace| - 1];
      Sent(trace[..|trace| - 1]) + (if a.Send? then [a.event] else [])
  }

  /** The events the forwarder published, in order. */
  function Published<E>(trace: seq<Action<E>>): seq<E>
  {
    if trace == [] then []
    else
      var a := trace[|trace| - 1];
      Published(trace[..|trace| - 1]) + (if a.Publish? then [a.event] else [])
  }

  function Closes<E>(trace: seq<Action<E>>): nat
  {
    if trace == [] then 0
    else Closes(trace[..|trace| - 1]) + (if trace[|trace| - 1].Close? then 1 else 0)
  }

  /** At every point of the trace the forwarder has published a prefix of
      what was sent (FIFO, never ahead of the job) and the channel never
      holds more than its capacity. */
  ghost predicate ChannelDiscipline<E>(trace: seq<Action<E>>)
  {
    forall n :: 0 <= n <= |trace| ==>
      var sent, published := Sent(trace[..n]), Published(trace[..n]);
      |published| <= |sent| <= |published| + ResultCapacity && published == sent[..|published|]
  }

  /** The channel is closed once, after the job's last send. */
  ghost predicate ClosedAfterRun<E>(trace: seq<Action<E>>)
  {
    exists k :: 0 <= k < |trace| && trace[k] == Close && Closes(trace) == 1
                && forall j :: k < j < |trace| ==> !trace[j].Send?
  }

  /** Every publication carries the success cause. */
  ghost predicate AllSuccess<E>(trace: seq<Action<E>>)
  {
    forall j :: 0 <= j < |trace| && trace[j].Publish? ==> trace[j].cause == APISuccess
  }

  /** The per-step facts of appending one action. */
  lemma StepCounts<E>(trace: seq<Action<E>>, a: Action<E>)
    ensures Sent(trace + [a]) == Sent(trace) + (if a.Send? then [a.event] else [])
    ensures Published(trace + [a]) == Published(trace) + (if a.Publish? then [a.event] else [])
    ensures Closes(trace + [a]) == Closes(trace) + (if a.Close? then 1 else 0)
  {
    assert (trace + [a])[..|trace|] == trace;
  }

  /** The channel state between actions: `buffer` is what was sent and
      not yet published. */
  ghost predicate InFlight<E>(trace: seq<Action<E>>, buffer: seq<E>)
  {
    Published(trace) + buffer == Sent(trace) && |buffer| <= ResultCapacity
    && AllSuccess(trace) && ChannelDiscipline(trace)
  }

  /** run: `emitted` is what the job sends before it returns. Before the
      job's send number `i`, the forwarder publishes `drains[i]` of the
      waiting events (fewer when fewer are waiting), and one in any case when
      the channel is full, since the send waits for room; after the close it
      publishes the rest. */
  method RunJob<E>(emitted: seq<E>, drains: seq<nat>) returns (trace: seq<Action<E>>)
    ensures Sent(trace) == emitted
    ensures Published(trace) == emitted
    ensures AllSuccess(trace)
    ensures ClosedAfterRun(trace)
    ensures ChannelDiscipline(trace)
  {
    var buffer;
    trace, buffer := JobSends(emitted, drains);
    var closeAt := |trace|;
    StepCounts(trace, Close);
    ExtendDiscipline(trace, Close);
    trace := trace + [Close];
    trace := DrainAll(trace, buffer, closeAt);
  }

  /** The job's sends, each preceded by the forwarder's publications. */
  method JobSends<E>(emitted: seq<E>, drains: seq<nat>) returns (trace: seq<Action<E>>, buffer: seq<E>)
    ensures Sent(trace) == emitted && Closes(trace) == 0
    ensures InFlight(trace, buffer)
  {
    trace, buffer := [], [];
    for i := 0 to |emitted|
      invariant Sent(trace) == emitted[..i] && Closes(trace) == 0
      invariant InFlight(trace, buffer)
    {
      trace, buffer := SendOne(trace, buffer, emitted[i], if i < |drains| then drains[i] else 0);
      assert emitted[..i + 1] == emitted[..i] + [emitted[i]];
    }
    assert emitted[..|emitted|] == emitted;
  }

  /** One send of the job, after the forwarder has published up to `want`
      events, and at least one when the channel was full. */
  method SendOne<E>(trace: seq<Action<E>>, buffer: seq<E>, e: E, want: nat)
    returns (trace': seq<Action<E>>, buffer': seq<E>)
    requires InFlight(trace, buffer)
    ensures InFlight(trace', buffer')
    ensures Sent(trace') == Sent(trace) + [e] && Closes(trace') == Closes(trace)
  {
    var room := if |buffer| == ResultCapacity && want == 0 then 1 else want;
    trace', buffer' := DrainSome(trace, buffer, room);
    StepCounts(trace', Send(e));
    ExtendDiscipline(trace', Send(e));
    trace' := trace' + [Send(e)];
    buffer' := buffer' + [e];
  }

  /** The forwarder publishes up to `want` waiting events; a full channel
      with `want` positive always gets room. */
  method DrainSome<E>(trace: seq<Action<E>>, buffer: seq<E>, want: nat)
    returns (trace': seq<Action<E>>, buffer': seq<E>)
    requires InFlight(trace, buffer)
    requires |buffer| == ResultCapacity ==> want > 0
    ensures InFlight(trace', buffer') && |buffer'| < ResultCapacity
    ensures Sent(trace') == Sent(trace) && Closes(trace') == Closes(trace)
  {
    trace', buffer' := trace, buffer;
    var left := want;
    while left > 0 && buffer' != []
      invariant InFlight(trace', buffer')
      invariant Sent(trace') == Sent(trace) && Closes(trace') == Closes(trace)
      invariant left > 0 || |buffer'| < ResultCapacity
      decreases |buffer'|
    {
      trace' := Forward(trace', buffer');
      buffer' := buffer'[1..];
      left := left - 1;
    }
  }

  /** After the close the forwarder drains the channel and exits. */
  method DrainAll<E>(trace: seq<Action<E>>, buffer: seq<E>, closeAt: nat) returns (trace': seq<Action<E>>)
    requires InFlight(trace, buffer)
    requires Closes(trace) == 1 && closeAt < |trace| && trace[closeAt] == Close
    requires forall j :: closeAt < j < |trace| ==> !trace[j].Send?
    ensures Sent(trace') == Sent(trace) && Published(trace') == Sent(trace)
    ensures AllSuccess(trace') && ChannelDiscipline(trace') && ClosedAfterRun(trace')
  {
    trace' := trace;
    var rest := buffer;
    while rest != []
      invariant InFlight(trace', rest) && Sent(trace') == Sent(trace)
      invariant Closes(trace') == 1 && closeAt < |trace'| && trace'[closeAt] == Close
      invariant forall j :: closeAt < j < |trace'| ==> !trace'[j].Send?
      decreases |rest|
    {
      trace' := Forward(trace', rest);
      rest := rest[1..];
    }
    assert Published(trace') + [] == Sent(trace');
  }

  /** The forwarder publishes the oldest waiting event. */
  method Forward<E>(trace: seq<Action<E>>, buffer: seq<E>) returns (trace': seq<Action<E>>)
    requires buffer != [] && InFlight(trace, buffer)
    ensures trace' == trace + [Publish(APISuccess, buffer[0])]
    ensures Sent(trace') == Sent(trace) && Closes(trace') == Closes(trace)
    ensures InFlight(trace', buffer[1..])
  {
    var a := Publish(APISuccess, buffer[0]);
    StepCounts(trace, a);
    ExtendDiscipline(trace, a);
    trace' := trace + [a];
    assert Published(trace') + buffer[1..] == Published(trace) + buffer;
  }

  /** Appending an action keeps the discipline when the new full trace
      keeps it. */
  lemma ExtendDiscipline<E>(trace: seq<Action<E>>, a: Action<E>)
    requires ChannelDiscipline(trace)
    requires var t := trace + [a];
             |Published(t)| <= |Sent(t)| <= |Published(t)| + ResultCapacity
             && Published(t) == Sent(t)[..|Published(t)|]
    ensures ChannelDiscipline(trace + [a])
  {
    var t := trace + [a];
    forall n | 0 <= n <= |t|
      ensures var sent, published := Sent(t[..n]), Published(t[..n]);
              |published| <= |sent| <= |published| + ResultCapacity && published == sent[..|published|]
    {
      if n <= |trace| {
        assert t[..n] == trace[..n];
      } else {
        assert t[..n] == t;
      }
    }
  }
}

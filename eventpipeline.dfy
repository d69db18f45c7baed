/** The inbound event pipeline of StartJobScheduler and readEvents in
    jobs/jobs.go, reduced to steps taken one at a time: the bus-read loop
    pushes each successfully read event into the bounded channel
    `eventChan` (capacity 300), and a worker takes the oldest event and
    fans it out over the match runners. */
module EventPipeline {
  import opened JobTypes
  import opened Dispatch

  /** Capacity of the inbound channel. (The `queue` value of 100 in
      StartJobScheduler is only logged.) */
  const ChannelCapacity: nat := 300

  /** What one read from the bus gives. */
  datatype ReadResult<E> = Read(event: E) | ReadError

  /** The events among a run of reads, in order; failed reads give none. */
  function Successful<E>(results: seq<ReadResult<E>>): (events: seq<E>)
    ensures |events| <= |results|
  {
    if results == [] then []
    else
      var last := results[|results| - 1];
      Successful(results[..|results| - 1]) + (if last.Read? then [last.event] else [])
  }

  /** One started job execution: the event that triggered it and the
      position of the match runner started for it. */
  datatype Launch<E> = Launch(event: E, runnerIndex: nat)

  /** The launches of one fan-out, in the order they were started. */
  function LaunchesFor<E>(event: E, started: seq<nat>): (ls: seq<Launch<E>>)
    ensures |ls| == |started|
  {
    seq(|started|, j requires 0 <= j < |started| => Launch(event, started[j]))
  }

  class Pipeline<E> {
    /** The match runners, fixed once the scheduler has started. */
    const matchRunners: seq<Runner>
    /** The external event test of the match runners. */
    const matches: (Runner, E) -> bool

    /** Events waiting in the channel, oldest first. */
    var queue: seq<E>
    /** The event the reader holds while its send waits on a full channel. */
    var held: Option<E>
    /** Every job execution started so far, in start order. */
    var launches: seq<Launch<E>>

    /** Everything the reader has read from the bus, failures included. */
    ghost var readLog: seq<ReadResult<E>>
    /** Every event a worker has taken, in the order taken. */
    ghost var taken: seq<E>
    /** For each event taken, the runner positions started for it. */
    ghost var fanOuts: seq<seq<nat>>

    function HeldEvents(): seq<E>
      reads this
    {
      if held.Some? then [held.value] else []
    }

    /** The channel is FIFO and bounded, the reader is only blocked on a full
        channel, every successful read is taken, queued or held, in read
        order, and each taken event was fanned out exactly to its matching
        runners. */
    ghost predicate Valid()
      reads this
    {
      && |queue| <= ChannelCapacity
      && (held.Some? ==> |queue| == ChannelCapacity)
      && taken + queue + HeldEvents() == Successful(readLog)
      && |fanOuts| == |taken|
      && (forall j :: 0 <= j < |taken| ==>
            StartsExactlyMatching(matchRunners, taken[j], matches, fanOuts[j]))
      && launches == AllLaunches(taken, fanOuts)
    }

    /** All launches of a series of fan-outs, event after event. */
    static function AllLaunches(events: seq<E>, started: seq<seq<nat>>): seq<Launch<E>>
      requires |events| == |started|
    {
      if events == [] then []
      else
        var n := |events| - 1;
        AllLaunches(events[..n], started[..n]) + LaunchesFor(events[n], started[n])
    }

    constructor (matchRunners: seq<Runner>, matches: (Runner, E) -> bool)
      ensures Valid()
      ensures this.matchRunners == matchRunners && this.matches == matches
      ensures queue == [] && held.None? && launches == [] && readLog == [] && taken == []
    {
      this.matchRunners := matchRunners;
      this.matches := matches;
      queue := [];
      held := None;
      launches := [];
      readLog := [];
      taken := [];
      fanOuts := [];
    }

    /** One turn of the bus-read loop, possible only while the reader is
        not blocked in a send. A failed read is logged and retried: nothing
        is queued. A read event is sent: it joins the channel when there is
        room, otherwise the reader blocks holding it. */
    method ReadOnce(r: ReadResult<E>)
      requires Valid() && held.None?
      modifies this
      ensures Valid()
      ensures readLog == old(readLog) + [r] && taken == old(taken) && launches == old(launches)
      ensures r.ReadError? ==> queue == old(queue) && held.None?
      ensures r.Read? && |old(queue)| < ChannelCapacity ==> queue == old(queue) + [r.event] && held.None?
      ensures r.Read? && |old(queue)| == ChannelCapacity ==> queue == old(queue) && held == Some(r.event)
    {
      assert (readLog + [r])[..|readLog|] == readLog;
      readLog := readLog + [r];
      if r.Read? {
        if |queue| < ChannelCapacity {
          queue := queue + [r.event];
        } else {
          held := Some(r.event);
        }
      }
    }

    /** One turn of a worker: take the oldest event (when there is one; a
        worker on an empty channel waits, which changes nothing), start every
        match runner whose test holds for it, and let a blocked reader's
        event into the freed place. */
    method WorkerStep() returns (event: Option<E>, started: seq<nat>)
      requires Valid()
      modifies this
      ensures Valid()
      ensures readLog == old(readLog)
      ensures old(queue) == [] ==>
                && event.None? && started == [] && queue == old(queue)
                && held == old(held) && launches == old(launches)
      ensures old(queue) != [] ==>
                && event == Some(old(queue)[0])
                && StartsExactlyMatching(matchRunners, old(queue)[0], matches, started)
                && queue == old(queue)[1..] + old(HeldEvents()) && held.None?
                && taken == old(taken) + [old(queue)[0]]
                && launches == old(launches) + LaunchesFor(old(queue)[0], started)
    {
      if queue == [] {
        return None, [];
      }
      var e := queue[0];
      started := FanOut(matchRunners, e, matches);
      ghost var t := taken + [e];
      ghost var f := fanOuts + [started];
      assert t[..|taken|] == taken && f[..|taken|] == fanOuts;
      taken := t;
      fanOuts := f;
      launches := launches + LaunchesFor(e, started);
      queue := queue[1..] + HeldEvents();
      held := None;
      event := Some(e);
    }
  }

  /** A failed read adds no event; a successful one adds exactly its event. */
  lemma {:induction false} SuccessfulAppend<E>(results: seq<ReadResult<E>>, more: seq<ReadResult<E>>)
    ensures Successful(results + more) == Successful(results) + Successful(more)
    decreases |more|
  {
    if more == [] {
      assert results + more == results;
    } else {
      var n := |more| - 1;
      assert (results + more)[..|results + more| - 1] == results + more[..n];
      SuccessfulAppend(results, more[..n]);
    }
  }

  /** The events that reach the channel are exactly the successful reads
      in read order: each appears once per time it was read, and a run of
      failed reads contributes nothing. */
  lemma {:induction false} SuccessfulMembers<E>(results: seq<ReadResult<E>>, e: E)
    ensures multiset(Successful(results))[e] == multiset(results)[Read(e)]
  {
    if results != [] {
      var n := |results| - 1;
      SuccessfulMembers(results[..n], e);
      assert results == results[..n] + [results[n]];
      assert multiset(results)[Read(e)] == multiset(results[..n])[Read(e)] + multiset([results[n]])[Read(e)];
      var tail := if results[n].Read? then [results[n].event] else [];
      assert multiset(Successful(results))[e] == multiset(Successful(results[..n]))[e] + multiset(tail)[e];
    }
  }
}

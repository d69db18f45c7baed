/** StartJobScheduler in jobs/jobs.go: runners are distributed by their
    exact trigger type, and every dequeued event is tested against every
    match runner. */
module Dispatch {
  import opened JobTypes
  import opened RunnerInit

  /** Where the scheduler sends a runner. */
  datatype Kind = Daily | Interval | Match | Unknown

  /** The switch on the trigger type: an exact, case-sensitive comparison. */
  function Classify(triggerType: string): (k: Kind)
    ensures k == Daily <==> triggerType == "daily"
    ensures k == Interval <==> triggerType == "interval"
    ensures k == Match <==> triggerType == "match"
  {
    if triggerType == "daily" then Daily
    else if triggerType == "interval" then Interval
    else if triggerType == "match" then Match
    else Unknown
  }

  function KindOf(r: Runner): Kind
  {
    Classify(r.trigger.triggerType)
  }

  /** The runners of one kind, in their original order. */
  function Select(runners: seq<Runner>, k: Kind): seq<Runner>
  {
    if runners == [] then []
    else
      var r := runners[|runners| - 1];
      Select(runners[..|runners| - 1], k) + (if KindOf(r) == k then [r] else [])
  }

  /** The scheduler's distribution loop. Daily and interval runners each
      get their own loop (collected here in start order), match runners are
      appended to the match list, and every other runner is dropped with a
      warning (collected in `dropped`). */
  method Partition(runners: seq<Runner>)
    returns (daily: seq<Runner>, interval: seq<Runner>, matchRunners: seq<Runner>, dropped: seq<Runner>)
    ensures daily == Select(runners, Daily)
    ensures interval == Select(runners, Interval)
    ensures matchRunners == Select(runners, Match)
    ensures dropped == Select(runners, Unknown)
  {
    daily, interval, matchRunners, dropped := [], [], [], [];
    for i := 0 to |runners|
      invariant daily == Select(runners[..i], Daily)
      invariant interval == Select(runners[..i], Interval)
      invariant matchRunners == Select(runners[..i], Match)
      invariant dropped == Select(runners[..i], Unknown)
    {
      assert runners[..i + 1][..i] == runners[..i];
      var runner := runners[i];
      var t := runner.trigger.triggerType;
      if t == "daily" {
        daily := daily + [runner];
      } else if t == "interval" {
        interval := interval + [runner];
      } else if t == "match" {
        matchRunners := matchRunners + [runner];
      } else {
        dropped := dropped + [runner];
      }
    }
    assert runners[..|runners|] == runners;
  }

  /** A runner is in the group of kind `k` exactly when it is one of the
      runners and its trigger type classifies as `k`. */
  lemma {:induction false} SelectMembers(runners: seq<Runner>, k: Kind, r: Runner)
    ensures r in Select(runners, k) <==> r in runners && KindOf(r) == k
  {
    if runners != [] {
      var init := runners[..|runners| - 1];
      SelectMembers(init, k, r);
      assert runners == init + [runners[|runners| - 1]];
    }
  }

  /** All four groups together, as a multiset. */
  ghost function Groups(runners: seq<Runner>): multiset<Runner>
  {
    multiset(Select(runners, Daily)) + multiset(Select(runners, Interval))
    + multiset(Select(runners, Match)) + multiset(Select(runners, Unknown))
  }

  /** A runner occurs in its own group as often as in the runner list. */
  lemma {:induction false} OwnGroupCount(runners: seq<Runner>, x: Runner)
    ensures multiset(Select(runners, KindOf(x)))[x] == multiset(runners)[x]
  {
    if runners != [] {
      var init := runners[..|runners| - 1];
      var r := runners[|runners| - 1];
      OwnGroupCount(init, x);
      assert runners == init + [r];
      assert multiset(runners)[x] == multiset(init)[x] + multiset([r])[x];
    }
  }

  /** The four groups split the runner list: every runner lands in exactly
      one group, as many times as it occurs. */
  lemma PartitionIsExact(runners: seq<Runner>)
    ensures Groups(runners) == multiset(runners)
  {
    forall x ensures Groups(runners)[x] == multiset(runners)[x] {
      OwnGroupCount(runners, x);
      SelectMembers(runners, Daily, x);
      SelectMembers(runners, Interval, x);
      SelectMembers(runners, Match, x);
      SelectMembers(runners, Unknown, x);
    }
  }

  /** A trigger typed "Match" (or any other case variant of "match")
      gets its regex built at construction, yet the scheduler's exact
      switch drops its runner instead of listing it for matching. */
  lemma MatchCaseVariantDropped(configs: seq<JobConfig>, registry: Registry, k: nat, i: nat)
    requires Resolvable(configs, registry)
    requires k < |configs| && configs[k].enabled && i < |configs[k].triggers|
    requires EqualFold(configs[k].triggers[i].triggerType, "match")
    requires configs[k].triggers[i].triggerType != "match"
    ensures EnabledTriggerCount(configs[..k]) + i < |AllRunners(configs, registry)|
    ensures var r := AllRunners(configs, registry)[EnabledTriggerCount(configs[..k]) + i];
            r.hasMatchRegex && r !in Select(AllRunners(configs, registry), Match)
            && r in Select(AllRunners(configs, registry), Unknown)
  {
    AllRunnersAt(configs, registry, k, i);
    var rs := AllRunners(configs, registry);
    var r := rs[EnabledTriggerCount(configs[..k]) + i];
    SelectMembers(rs, Match, r);
    SelectMembers(rs, Unknown, r);
  }

  /** `started` lists, in increasing order and each once, exactly the
      positions of the match runners whose test holds for `event`. */
  ghost predicate StartsExactlyMatching<E>(matchRunners: seq<Runner>, event: E,
                                          matches: (Runner, E) -> bool, started: seq<nat>)
  {
    && (forall j :: 0 <= j < |started| ==> started[j] < |matchRunners|)
    && (forall j, j' :: 0 <= j < j' < |started| ==> started[j] < started[j'])
    && (forall i :: 0 <= i < |matchRunners| ==> (i in started <==> matches(matchRunners[i], event)))
  }

  /** One worker's handling of one dequeued event: the match list is
      walked in order and each runner whose test holds is started. The
      test itself (field lookup plus regular expression) is external and
      given as `matches`. */
  method FanOut<E>(matchRunners: seq<Runner>, event: E, matches: (Runner, E) -> bool)
    returns (started: seq<nat>)
    ensures StartsExactlyMatching(matchRunners, event, matches, started)
  {
    started := [];
    for i := 0 to |matchRunners|
      invariant forall j :: 0 <= j < |started| ==> started[j] < i
      invariant forall j, j' :: 0 <= j < j' < |started| ==> started[j] < started[j']
      invariant forall x :: 0 <= x < i ==> (x in started <==> matches(matchRunners[x], event))
    {
      if matches(matchRunners[i], event) {
        started := started + [i];
      }
    }
  }

  ghost predicate StrictlyIncreasing(s: seq<nat>)
  {
    forall j, j' :: 0 <= j < j' < |s| ==> s[j] < s[j']
  }

  /** Two strictly increasing sequences with the same elements are equal. */
  lemma {:induction false} IncreasingDeterminedByElements(a: seq<nat>, b: seq<nat>)
    requires StrictlyIncreasing(a) && StrictlyIncreasing(b)
    requires forall x :: x in a <==> x in b
    ensures a == b
  {
    assert b != [] ==> b[0] in b;
    if a != [] {
      assert a[0] in b;
      assert b != [] && b[0] in a;
      var i :| 0 <= i < |a| && a[i] == b[0];
      var j :| 0 <= j < |b| && b[j] == a[0];
      assert a[0] == b[0];
      forall x ensures x in a[1..] <==> x in b[1..] {
        if x in a[1..] {
          var p :| 1 <= p < |a| && a[p] == x;
          assert x in b && x != b[0];
          var q :| 0 <= q < |b| && b[q] == x;
          assert b[1..][q - 1] == x;
        }
        if x in b[1..] {
          var q :| 1 <= q < |b| && b[q] == x;
          assert x in a && x != a[0];
          var p :| 0 <= p < |a| && a[p] == x;
          assert a[1..][p - 1] == x;
        }
      }
      IncreasingDeterminedByElements(a[1..], b[1..]);
      assert a == [a[0]] + a[1..] && b == [b[0]] + b[1..];
    }
  }

  /** The started positions are determined by the event: two fan-outs of
      the same event over the same list start the same runners in the same
      order. */
  lemma StartsAreDetermined<E>(matchRunners: seq<Runner>, event: E,
                               matches: (Runner, E) -> bool, a: seq<nat>, b: seq<nat>)
    requires StartsExactlyMatching(matchRunners, event, matches, a)
    requires StartsExactlyMatching(matchRunners, event, matches, b)
    ensures a == b
  {
    forall x ensures x in a <==> x in b {
      if x in a { var j :| 0 <= j < |a| && a[j] == x; }
      if x in b { var j :| 0 <= j < |b| && b[j] == x; }
    }
    IncreasingDeterminedByElements(a, b);
  }
}

/** Runner construction: the package initialisation of jobs/jobs.go, from
    an already-decoded configuration list and the job registry. */
module RunnerInit {
  import opened JobTypes

  /** The runner for trigger `i` of `config`; the match regex is built
      when the trigger type equals "match" up to case. */
  function MakeRunner(job: Job, config: JobConfig, i: nat): (r: Runner)
    requires i < |config.triggers|
    ensures r.job == job && r.config == config && r.triggerIndex == i
    ensures r.triggerIndex < |r.config.triggers| && r.trigger == r.config.triggers[r.triggerIndex]
    ensures r.hasMatchRegex <==> EqualFold(r.trigger.triggerType, "match")
  {
    Runner(job, config, config.triggers[i], i, EqualFold(config.triggers[i].triggerType, "match"))
  }

  /** The runners of one config, in trigger order. */
  function ConfigRunners(job: Job, config: JobConfig): (rs: seq<Runner>)
    ensures |rs| == |config.triggers|
  {
    seq(|config.triggers|, i requires 0 <= i < |config.triggers| => MakeRunner(job, config, i))
  }

  /** Every enabled config names a registered job. */
  predicate Resolvable(configs: seq<JobConfig>, registry: Registry)
  {
    forall k :: 0 <= k < |configs| && configs[k].enabled ==> configs[k].name in registry
  }

  /** Some enabled config names a job missing from the registry. */
  predicate HasMissingJob(configs: seq<JobConfig>, registry: Registry)
  {
    exists k :: 0 <= k < |configs| && configs[k].enabled && configs[k].name !in registry
  }

  /** The runner list initialisation builds when it does not fail:
      config by config, the enabled ones only. */
  function AllRunners(configs: seq<JobConfig>, registry: Registry): seq<Runner>
    requires Resolvable(configs, registry)
  {
    if configs == [] then []
    else
      var c := configs[|configs| - 1];
      AllRunners(configs[..|configs| - 1], registry)
      + (if c.enabled then ConfigRunners(registry[c.name], c) else [])
  }

  /** Number of triggers over the enabled configs. */
  function EnabledTriggerCount(configs: seq<JobConfig>): nat
  {
    if configs == [] then 0
    else
      var c := configs[|configs| - 1];
      EnabledTriggerCount(configs[..|configs| - 1]) + (if c.enabled then |c.triggers| else 0)
  }

  /** The configs that are enabled, in order. */
  function EnabledOnly(configs: seq<JobConfig>): (r: seq<JobConfig>)
    ensures forall c :: c in r ==> c in configs && c.enabled
  {
    if configs == [] then []
    else
      var c := configs[|configs| - 1];
      EnabledOnly(configs[..|configs| - 1]) + (if c.enabled then [c] else [])
  }

  /** Initialisation. Fails (the process exits) exactly when an enabled
      config names an unknown job; otherwise yields the runner list. */
  method Init(configs: seq<JobConfig>, registry: Registry) returns (r: Option<seq<Runner>>)
    ensures r.None? <==> HasMissingJob(configs, registry)
    ensures r.Some? ==> Resolvable(configs, registry) && r.value == AllRunners(configs, registry)
  {
    var runners: seq<Runner> := [];
    var k := 0;
    while k < |configs|
      invariant 0 <= k <= |configs|
      invariant Resolvable(configs[..k], registry)
      invariant runners == AllRunners(configs[..k], registry)
    {
      var config := configs[k];
      assert configs[..k + 1][..k] == configs[..k];
      if !config.enabled {
        k := k + 1;
        continue;
      }
      if config.name !in registry {
        return None;
      }
      var job := registry[config.name];
      var i := 0;
      while i < |config.triggers|
        invariant 0 <= i <= |config.triggers|
        invariant runners == AllRunners(configs[..k], registry) + ConfigRunners(job, config)[..i]
      {
        runners := runners + [MakeRunner(job, config, i)];
        assert ConfigRunners(job, config)[..i + 1] == ConfigRunners(job, config)[..i] + [MakeRunner(job, config, i)];
        i := i + 1;
      }
      assert ConfigRunners(job, config)[..i] == ConfigRunners(job, config);
      k := k + 1;
    }
    assert configs[..k] == configs;
    return Some(runners);
  }

  /** The runner count is the number of triggers of the enabled configs. */
  lemma {:induction false} AllRunnersCount(configs: seq<JobConfig>, registry: Registry)
    requires Resolvable(configs, registry)
    ensures |AllRunners(configs, registry)| == EnabledTriggerCount(configs)
  {
    if configs != [] {
      var init := configs[..|configs| - 1];
      assert Resolvable(init, registry);
      AllRunnersCount(init, registry);
    }
  }

  /** Trigger `i` of enabled config `k` is the runner at position
      (triggers of the enabled configs before `k`) + `i`: runners are laid
      out config by config, then trigger by trigger, and each carries its
      config, its trigger, its 0-based trigger index and the registry's job. */
  lemma {:induction false} AllRunnersAt(configs: seq<JobConfig>, registry: Registry, k: nat, i: nat)
    requires Resolvable(configs, registry)
    requires k < |configs| && configs[k].enabled && i < |configs[k].triggers|
    ensures EnabledTriggerCount(configs[..k]) + i < |AllRunners(configs, registry)|
    ensures AllRunners(configs, registry)[EnabledTriggerCount(configs[..k]) + i]
         == Runner(registry[configs[k].name], configs[k], configs[k].triggers[i], i,
                   EqualFold(configs[k].triggers[i].triggerType, "match"))
  {
    var n := |configs|;
    var init := configs[..n - 1];
    assert Resolvable(init, registry);
    AllRunnersCount(init, registry);
    if k == n - 1 {
      assert configs[..k] == init;
    } else {
      assert init[..k] == configs[..k];
      AllRunnersAt(init, registry, k, i);
    }
  }

  /** Every runner built belongs to an enabled config of the list, names a
      real trigger of it by index, and is bound to the registry's job. */
  lemma {:induction false} AllRunnersSound(configs: seq<JobConfig>, registry: Registry, r: Runner)
    requires Resolvable(configs, registry)
    requires r in AllRunners(configs, registry)
    ensures r.config in configs && r.config.enabled && r.config.name in registry
    ensures r.job == registry[r.config.name]
    ensures r.triggerIndex < |r.config.triggers| && r.trigger == r.config.triggers[r.triggerIndex]
    ensures r.hasMatchRegex == EqualFold(r.trigger.triggerType, "match")
  {
    var n := |configs|;
    var init := configs[..n - 1];
    var c := configs[n - 1];
    assert Resolvable(init, registry);
    if r in AllRunners(init, registry) {
      AllRunnersSound(init, registry, r);
    } else {
      assert c.enabled && r in ConfigRunners(registry[c.name], c);
    }
  }

  /** The enabled configs are exactly the configs of the list that are enabled. */
  lemma {:induction false} EnabledOnlyMembers(configs: seq<JobConfig>, c: JobConfig)
    ensures c in EnabledOnly(configs) <==> c in configs && c.enabled
  {
    if configs != [] {
      var init := configs[..|configs| - 1];
      EnabledOnlyMembers(init, c);
      assert configs == init + [configs[|configs| - 1]];
    }
  }

  /** A disabled config contributes nothing: its name is never looked up
      and it adds no runner, so dropping every disabled config changes
      neither whether initialisation fails nor the runner list. */
  lemma {:induction false} DisabledConfigsIgnored(configs: seq<JobConfig>, registry: Registry)
    ensures HasMissingJob(configs, registry) <==> HasMissingJob(EnabledOnly(configs), registry)
    ensures Resolvable(configs, registry) ==>
              Resolvable(EnabledOnly(configs), registry) &&
              AllRunners(configs, registry) == AllRunners(EnabledOnly(configs), registry)
  {
    var e := EnabledOnly(configs);
    if HasMissingJob(configs, registry) {
      var k :| 0 <= k < |configs| && configs[k].enabled && configs[k].name !in registry;
      EnabledOnlyMembers(configs, configs[k]);
      var j :| 0 <= j < |e| && e[j] == configs[k];
    }
    if HasMissingJob(e, registry) {
      var j :| 0 <= j < |e| && e[j].enabled && e[j].name !in registry;
      EnabledOnlyMembers(configs, e[j]);
      var k :| 0 <= k < |configs| && configs[k] == e[j];
    }
    if Resolvable(configs, registry) {
      assert !HasMissingJob(e, registry);
      SameRunners(configs, registry);
    }
  }

  /** The runner-list half of DisabledConfigsIgnored. */
  lemma {:induction false} SameRunners(configs: seq<JobConfig>, registry: Registry)
    requires Resolvable(configs, registry) && Resolvable(EnabledOnly(configs), registry)
    ensures AllRunners(configs, registry) == AllRunners(EnabledOnly(configs), registry)
  {
    if configs != [] {
      var n := |configs|;
      var init := configs[..n - 1];
      var c := configs[n - 1];
      var e := EnabledOnly(init);
      assert Resolvable(init, registry);
      if c.enabled {
        assert EnabledOnly(configs) == e + [c];
        assert (e + [c])[..|e|] == e;
        assert Resolvable(e, registry) by {
          forall j | 0 <= j < |e| && e[j].enabled ensures e[j].name in registry {
            assert (e + [c])[j] == e[j];
          }
        }
      } else {
        assert EnabledOnly(configs) == e;
      }
      SameRunners(init, registry);
    }
  }
}

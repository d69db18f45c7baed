/** The values the scheduler in jobs/jobs.go works on: decoded job
    configuration, the job registry and the runners built from them. */
module JobTypes {

  datatype Option<+T> = None | Some(value: T)

  /** A compiled-in job implementation, known to the scheduler only by the
      registry key it was found under; what it does when run is external. */
  datatype Job = Job(id: string)

  /** The job registry: job name to implementation. */
  type Registry = map<string, Job>

  /** One trigger of a job as decoded from the configuration. `triggerType`
      is the `Type` field ("daily", "interval", "match", or anything else),
      `at` the daily time of day, `every` the interval duration text; the
      match fields are only read by the regex builder and the event test,
      which are external. */
  datatype Trigger = Trigger(triggerType: string, at: string, every: string,
                             matchField: string, matchPattern: string)

  /** One record of the job configuration. */
  datatype JobConfig = JobConfig(name: string, enabled: bool, triggers: seq<Trigger>)

  /** The binding of one job to one of its config's triggers.
      `hasMatchRegex` records whether the match regex was built for it. */
  datatype Runner = Runner(job: Job, config: JobConfig, trigger: Trigger,
                           triggerIndex: nat, hasMatchRegex: bool)

  /** ASCII lower-casing of one character. */
  function LowerAscii(c: char): (r: char)
    ensures 'A' <= c <= 'Z' ==> r as int == c as int + 32
    ensures !('A' <= c <= 'Z') ==> r == c
  {
    if 'A' <= c <= 'Z' then (c as int + 32) as char else c
  }

  /** The text with every ASCII capital letter made lower-case. */
  function Lowered(s: string): (r: string)
    ensures |r| == |s| && forall i :: 0 <= i < |s| ==> r[i] == LowerAscii(s[i])
  {
    seq(|s|, i requires 0 <= i < |s| => LowerAscii(s[i]))
  }

  /** Case-insensitive comparison as `strings.EqualFold` does it. For the
      only use in the scheduler, against "match", Unicode simple case
      folding and ASCII case folding agree: none of m, a, t, c, h has a
      non-ASCII fold partner. */
  predicate EqualFold(s: string, t: string): (b: bool)
    ensures b <==> Lowered(s) == Lowered(t)
    ensures s == t ==> b
  {
    |s| == |t| && forall i :: 0 <= i < |s| ==> LowerAscii(s[i]) == LowerAscii(t[i])
  }
}

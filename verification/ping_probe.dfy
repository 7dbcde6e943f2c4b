/**
 One reachability probe of a target: up to two `ping` command variants, tried
 in order, with early exit. Running a command is outside the model; its
 outcome is given by `run`, the result the command line would have if it were
 executed in the current round.
 */
module PingProbe {
  import opened StatusTypes
  import opened PingStore

  /** What one execution of a ping command can end in. */
  datatype AttemptOutcome =
    | Replied(latency: Latency)       // exit status zero and a latency was obtained
    | NonZeroExit(output: string)     // the command ran and reported failure
    | TimedOut(detail: string)        // the safety timeout expired
    | ToolMissing(detail: string)     // the executable could not be found
    | Failed(detail: string)          // any other error raised while running it

  /** The command variants, in the order they are tried. */
  function Variants(target: string): (v: seq<seq<string>>)
  {
    [["ping", "-c", "1", "-W", "1", target],
     ["ping", "-c", "1", "-t", "1", target]]
  }

  /**
   Reference definition of a successful probe: the first variant replies, or
   it fails in a way other than a missing executable and the second replies.
   */
  predicate ProbeSucceeds(target: string, run: seq<string> -> AttemptOutcome)
  {
    var v := Variants(target);
    run(v[0]).Replied? || (!run(v[0]).ToolMissing? && run(v[1]).Replied?)
  }

  /**
   Reference definition of the latency a probe reports: that of the variant
   that replied, under the same rule as `ProbeSucceeds`; none otherwise.
   */
  function ReplyLatency(target: string, run: seq<string> -> AttemptOutcome): (l: Option<Latency>)
  {
    var v := Variants(target);
    if run(v[0]).Replied? then Some(run(v[0]).latency)
    else if !run(v[0]).ToolMissing? && run(v[1]).Replied? then Some(run(v[1]).latency)
    else None
  }

  /** The position of the last occurrence of `x` in `s`. */
  function LastIndex(s: seq<string>, x: string): (k: nat)
    requires x in s
    ensures k < |s| && s[k] == x
    ensures forall j | k < j < |s| :: s[j] != x
    decreases |s|
  {
    if s[|s| - 1] == x then |s| - 1 else LastIndex(s[..|s| - 1], x)
  }

  /** Appending `x` makes it last; the last positions of other strings stay where they were. */
  lemma LastIndexAppend(s: seq<string>, x: string, t: string)
    requires t in s + [x]
    ensures t == x ==> LastIndex(s + [x], t) == |s|
    ensures t != x ==> t in s && LastIndex(s + [x], t) == LastIndex(s, t)
  {
  }

  /**
   Tries the variants in order. Returns on the first reply with its latency;
   a missing executable ends the probe at once; any other failure moves on to
   the next variant. `attempts` is the number of commands run.
   */
  method TryPingOnce(target: string, run: seq<string> -> AttemptOutcome)
    returns (ok: bool, latency: Option<Latency>, attempts: nat)
    ensures 1 <= attempts <= |Variants(target)|
    ensures forall j | 0 <= j < attempts - 1 ::
      !run(Variants(target)[j]).Replied? && !run(Variants(target)[j]).ToolMissing?
    ensures attempts < |Variants(target)| ==>
      run(Variants(target)[attempts - 1]).Replied? || run(Variants(target)[attempts - 1]).ToolMissing?
    ensures ok <==> run(Variants(target)[attempts - 1]).Replied?
    ensures ok ==> latency == Some(run(Variants(target)[attempts - 1]).latency)
    ensures !ok ==> latency == None
    ensures ok <==> ProbeSucceeds(target, run)
    ensures latency == ReplyLatency(target, run)
  {
    var variants := Variants(target);
    attempts := 0;
    var i := 0;
    while i < |variants|
      invariant 0 <= i <= |variants|
      invariant attempts == i
      invariant forall j | 0 <= j < i :: !run(variants[j]).Replied? && !run(variants[j]).ToolMissing?
    {
      var outcome := run(variants[i]);
      attempts := i + 1;
      match outcome {
        case Replied(l) =>
          return true, Some(l), attempts;
        case ToolMissing(_) =>
          break;
        case _ =>
      }
      i := i + 1;
    }
    ok, latency := false, None;
  }

  /**
   One round of the ping worker: every target is probed in turn and its
   record replaced by the outcome, stamped with the clock reading taken for
   it. Targets not probed keep their records; every probed target's record
   holds the outcome of its probe: up exactly when the probe succeeded, with
   the reply's latency, stamped with the clock reading of its last probe in
   the round.
   */
  method PingRound(st: PingState, targets: seq<string>, run: seq<string> -> AttemptOutcome, clock: nat -> Instant)
    returns (st': PingState)
    ensures st'.latest.Keys == st.latest.Keys + set t | t in targets
    ensures forall t | t in st.latest && t !in targets :: st'.latest[t] == st.latest[t]
    ensures forall t | t in targets ::
      && st'.latest[t].ts.Some?
      && (st'.latest[t].ok <==> ProbeSucceeds(t, run))
      && (st'.latest[t].latency.Some? <==> st'.latest[t].ok)
      && st'.latest[t].latency == ReplyLatency(t, run)
      && st'.latest[t].ts == Some(clock(LastIndex(targets, t)))
    ensures LatencyOnlyWhenOk(st) ==> LatencyOnlyWhenOk(st')
  {
    st' := st;
    var k := 0;
    while k < |targets|
      invariant 0 <= k <= |targets|
      invariant st'.latest.Keys == st.latest.Keys + set t | t in targets[..k]
      invariant forall t | t in st.latest && t !in targets[..k] :: st'.latest[t] == st.latest[t]
      invariant forall t | t in targets[..k] ::
        && st'.latest[t].ts.Some?
        && (st'.latest[t].ok <==> ProbeSucceeds(t, run))
        && (st'.latest[t].latency.Some? <==> st'.latest[t].ok)
        && st'.latest[t].latency == ReplyLatency(t, run)
        && st'.latest[t].ts == Some(clock(LastIndex(targets[..k], t)))
      invariant LatencyOnlyWhenOk(st) ==> LatencyOnlyWhenOk(st')
    {
      var target := targets[k];
      assert targets[..k + 1] == targets[..k] + [target];
      var ok, latency, _ := TryPingOnce(target, run);
      forall t | t in targets[..k + 1]
        ensures t == target ==> LastIndex(targets[..k + 1], t) == k
        ensures t != target ==> t in targets[..k] && LastIndex(targets[..k + 1], t) == LastIndex(targets[..k], t)
      {
        LastIndexAppend(targets[..k], target, t);
      }
      st' := Update(st', target, ok, latency, clock(k));
      k := k + 1;
    }
    assert targets[..k] == targets;
  }
}

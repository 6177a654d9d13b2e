/** Reconnecting with back-off: the context in src/network.cpp and the retry loop of do_connect in
    src/commands/connect.c. */
module Reconnect {
  import opened Wrappers

  /** The four settings, in the limits that config_integer enforces. */
  datatype Settings = Settings(backoff: int, delay: int, delayMax: int, retries: int)

  ghost predicate InLimits(s: Settings) {
    0 <= s.backoff <= 99 && 0 <= s.delay <= 999 && 0 <= s.delayMax <= 999 && 0 <= s.retries <= 999
  }

  /** The least and the greatest settings, and those beyond them. */
  lemma LimitsAre(s: Settings)
    ensures InLimits(Settings(0, 0, 0, 0)) && InLimits(Settings(99, 999, 999, 999))
    ensures s.backoff > 99 || s.delay > 999 || s.delayMax > 999 || s.retries > 999 ==> !InLimits(s)
    ensures s.backoff < 0 || s.delay < 0 || s.delayMax < 0 || s.retries < 0 ==> !InLimits(s)
  {
  }

  datatype ConnRes = Established | Failed | ShouldRetry

  function Min(a: int, b: int): int {
    if a < b then a else b
  }

  /** The delay before the k-th retry, counting from 1. */
  ghost function Delay(s: Settings, k: nat): int {
    Min(s.delayMax, s.delay + (k - 1) * s.backoff)
  }

  /** The delay before the next retry follows from the last one, by addition and clamping. */
  lemma NextDelay(s: Settings, k: nat)
    requires InLimits(s) && k >= 1
    ensures Delay(s, k + 1) == Min(s.delayMax, Delay(s, k) + s.backoff)
  {
    assert (k - 1) * s.backoff + s.backoff == k * s.backoff;
  }

  /** The first retry waits for the configured delay, within the maximum. */
  lemma FirstDelay(s: Settings)
    ensures Delay(s, 1) == if s.delay > s.delayMax then s.delayMax else s.delay
  {
  }

  /** With a delay of 5 seconds, a back-off of 3 and a maximum of 12. */
  lemma DelaysOfExample(s: Settings)
    requires s.delay == 5 && s.backoff == 3 && s.delayMax == 12
    ensures [Delay(s, 1), Delay(s, 2), Delay(s, 3), Delay(s, 4), Delay(s, 5)] == [5, 8, 11, 12, 12]
  {
  }

  /** Delays never get shorter and never exceed the maximum. */
  lemma {:induction false} DelaysAscend(s: Settings, j: nat, k: nat)
    requires InLimits(s) && 1 <= j <= k
    ensures 0 <= Delay(s, j) <= Delay(s, k) <= s.delayMax
    decreases k
  {
    if j < k {
      DelaysAscend(s, j, k - 1);
      NextDelay(s, k - 1);
    } else if 1 < k {
      DelaysAscend(s, k - 1, k - 1);
      NextDelay(s, k - 1);
    }
  }

  /** Seconds of waiting in all. */
  ghost function Total(delays: seq<int>): int {
    if delays == [] then 0 else Total(delays[..|delays| - 1]) + delays[|delays| - 1]
  }

  /** The delays before the first retries, in order. */
  ghost predicate FirstDelays(s: Settings, delays: seq<int>) {
    forall k :: 0 <= k < |delays| ==> delays[k] == Delay(s, k + 1)
  }

  lemma OneMoreDelay(s: Settings, delays: seq<int>)
    requires FirstDelays(s, delays)
    ensures var more := delays + [Delay(s, |delays| + 1)];
            FirstDelays(s, more) && Total(more) == Total(delays) + Delay(s, |delays| + 1)
  {
    hide Delay;
    assert (delays + [Delay(s, |delays| + 1)])[..|delays|] == delays;
  }

  lemma NoDelays(s: Settings)
    ensures FirstDelays(s, []) && Total([]) == 0
  {
  }

  /** No attempt before the `n`-th, counting from 0, succeeds. */
  ghost predicate AllFail(outcome: nat -> bool, n: nat) {
    forall i :: 0 <= i < n ==> !outcome(i)
  }

  /** A connection that never succeeds has waited a bounded time. */
  lemma {:induction false} TotalIsBounded(s: Settings, delays: seq<int>)
    requires InLimits(s) && FirstDelays(s, delays)
    ensures 0 <= Total(delays) <= |delays| * s.delayMax
  {
    if delays != [] {
      DelaysAscend(s, |delays|, |delays|);
      TotalIsBounded(s, delays[..|delays| - 1]);
    }
  }

  class Network {
    /** The configuration as it is now, and the context as it was last initialised. */
    var config: Settings
    var context: Settings
    var retry: int
    var initialized: bool
    var inProgress: bool

    /** The settings that the next connection goes by. */
    ghost function Effective(): Settings
      reads this
    {
      if initialized then context else config
    }

    /** Between connections: nothing in progress, no retry counted. */
    ghost predicate Cleared()
      reads this
    {
      !inProgress && InLimits(config) && InLimits(Effective()) && (initialized ==> retry == 0)
    }

    constructor (config: Settings)
      requires InLimits(config)
      ensures Cleared() && this.config == config && !initialized
    {
      this.config, context, retry := config, Settings(0, 0, 0, 0), 0;
      initialized, inProgress := false, false;
    }

    /** reconnect_context::init */
    method Init()
      modifies `context, `retry
      ensures context == config && retry == 0
    {
      context, retry := config, 0;
    }

    /** net_connect_clean_up */
    method NetConnectCleanUp()
      modifies `context, `retry, `inProgress
      ensures context == config && retry == 0 && !inProgress
    {
      Init();
      inProgress := false;
    }

    /** handle_conn_err: the n-th failure of a connection schedules the n-th retry, or ends it. */
    method HandleConnErr(sleep: int) returns (res: ConnRes, sleep': int)
      requires initialized && inProgress && InLimits(context) && 0 <= retry <= context.retries
      requires retry >= 1 ==> sleep == Delay(context, retry)
      modifies `context, `retry, `inProgress
      ensures !inProgress
      ensures old(retry) < old(context).retries ==>
                res == ShouldRetry && context == old(context) && retry == old(retry) + 1 && sleep' == Delay(context, retry)
      ensures old(retry) == old(context).retries ==>
                res == Failed && context == config && retry == 0 && sleep' == sleep
    {
      sleep' := sleep;
      retry := retry + 1;
      if retry - 1 < context.retries {
        if retry <= 1 {
          sleep' := context.delay;
        } else {
          NextDelay(context, retry - 1);
          sleep' := sleep' + context.backoff;
        }
        if sleep' > context.delayMax {
          sleep' := context.delayMax;
        }
        inProgress := false;
        return ShouldRetry, sleep';
      }
      NetConnectCleanUp();
      res := Failed;
    }

    /** net_connect; `succeeds` is what the attempt comes to. Beside a connection in progress
        nothing is attempted. */
    method NetConnect(succeeds: bool, sleep: int) returns (res: ConnRes, sleep': int)
      requires !inProgress ==> InLimits(Effective())
      requires !inProgress && initialized ==> 0 <= retry <= context.retries
      requires !inProgress && initialized && retry >= 1 ==> sleep == Delay(context, retry)
      modifies `context, `retry, `inProgress, `initialized
      ensures old(inProgress) ==> res == Failed && unchanged(this)
      ensures !old(inProgress) ==> initialized && !inProgress
      ensures !old(inProgress) ==>
              var n := if old(initialized) then old(retry) else 0;
              var s := old(Effective());
              if succeeds then res == Established && context == config && retry == 0
              else if n < s.retries then res == ShouldRetry && context == s && retry == n + 1 && sleep' == Delay(s, n + 1)
              else res == Failed && context == config && retry == 0
    {
      sleep' := sleep;
      if inProgress {
        return Failed, sleep';
      }
      inProgress := true;
      if !initialized {
        Init();
        initialized := true;
      }
      if !succeeds {
        res, sleep' := HandleConnErr(sleep);
        return;
      }
      NetConnectCleanUp();
      res := Established;
    }

    /** The inner loop of do_connect: one second after the other, until the user gives up. */
    method Wait(sleep: int, before: nat, quitAt: Option<nat>) returns (waited: nat, quit: bool)
      requires sleep >= 0 && (quitAt.Some? ==> before < 1 || before < quitAt.value)
      ensures quit <==> quitAt.Some? && before + sleep >= 1 && before + sleep >= quitAt.value
      ensures !quit ==> waited == before + sleep
    {
      waited := before;
      var secs := 0;
      while secs < sleep
        invariant 0 <= secs <= sleep && waited == before + secs
        invariant quitAt.Some? ==> waited < 1 || waited < quitAt.value
      {
        waited := waited + 1;
        if quitAt.Some? && waited >= quitAt.value {
          return waited, true;
        }
        secs := secs + 1;
      }
      quit := false;
    }

    /** do_connect's loops. `outcome(i)` is what the i-th attempt comes to, and `quitAt` the number
        of seconds of waiting after which the user gives up. A connection in progress ends it at
        once. */
    method DoConnect(outcome: nat -> bool, quitAt: Option<nat>)
      returns (res: ConnRes, attempts: nat, delays: seq<int>, aborted: bool)
      requires inProgress || Cleared()
      modifies `context, `retry, `inProgress, `initialized
      ensures old(inProgress) ==> unchanged(this) && res == Failed && attempts == 0 && delays == [] && !aborted
      ensures !old(inProgress) ==> Cleared() && retry == 0 && context == config && initialized
      ensures !old(inProgress) ==>
              var s := old(Effective());
              && 1 <= attempts <= s.retries + 1
              && FirstDelays(s, delays) && |delays| == (if aborted then attempts else attempts - 1)
              && AllFail(outcome, attempts - 1)
              && (!aborted ==> (res == Established <==> outcome(attempts - 1)))
              && (aborted ==> !outcome(attempts - 1))
              && (res == Failed && !aborted ==> attempts == s.retries + 1)
              && res != ShouldRetry && (aborted ==> quitAt.Some? && res == Failed)
              && (quitAt.Some? ==> (aborted <==> Total(delays) >= 1 && Total(delays) >= quitAt.value))
    {
      hide Delay, FirstDelays, Total;
      NoDelays(Effective());
      ghost var s := Effective();
      var sleep := 10;
      var waited := 0;
      attempts, delays, aborted := if inProgress then 0 else 1, [], false;
      res, sleep := NetConnect(outcome(0), sleep);
      if attempts == 0 {
        return;
      }
      while res == ShouldRetry
        invariant !inProgress && initialized && config == old(config) && InLimits(config)
        invariant 1 <= attempts <= s.retries + 1 && |delays| == attempts - 1
        invariant FirstDelays(s, delays) && AllFail(outcome, attempts - 1)
        invariant res == Established <==> outcome(attempts - 1)
        invariant res == ShouldRetry ==> context == s && retry == attempts <= s.retries && sleep == Delay(s, retry)
        invariant res != ShouldRetry ==> context == config && retry == 0
        invariant res == Failed ==> attempts == s.retries + 1
        invariant 0 <= waited == Total(delays) && (quitAt.Some? ==> waited < 1 || waited < quitAt.value)
        decreases s.retries + 1 - attempts, res == ShouldRetry
      {
        OneMoreDelay(s, delays);
        delays := delays + [sleep];
        DelaysAscend(s, retry, retry);
        var quit;
        waited, quit := Wait(sleep, waited, quitAt);
        if quit {
          NetConnectCleanUp();
          return Failed, attempts, delays, true;
        }
        res, sleep := NetConnect(outcome(attempts), sleep);
        attempts := attempts + 1;
      }
    }
  }
}

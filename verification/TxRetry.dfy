/**
 * The transaction shell: run `fn` in a transaction, and once more after a deadlock or a serialization
 * failure, waiting longer each time. What `fn`, the commit, other sessions and the random source do is
 * given by a script, indexed by the attempt.
 */
module TxRetry {
  import opened Wrappers
  import opened PgError

  datatype Policy = Policy(maxAttempts: int, baseDelayMs: int, maxJitterMs: int)

  datatype Done<S, T> = Done(value: T, state: S)

  /**
   * `fn` works on the state its transaction sees; a commit can still be refused. Between two attempts
   * other sessions may change the state.
   */
  datatype Script<!S, T> = Script(
    fn: (nat, S) -> Result<Done<S, T>, Thrown>,
    commit: nat -> Option<Thrown>,
    others: (nat, S) -> S)

  datatype Info = Info(attempt: nat, code: string)

  /** `hookThrows` says which calls of the hook end in an exception; no hook is None. */
  datatype World = World(random: nat -> real, hookThrows: Option<Info -> bool>)

  function Pow2(k: nat): nat {
    if k == 0 then 1 else 2 * Pow2(k - 1)
  }

  function Delay(policy: Policy, random: nat -> real, k: nat): int {
    policy.baseDelayMs * Pow2(k) + (random(k) * policy.maxJitterMs as real).Floor
  }

  // ----- What the shell should do -----

  /** The end of attempt k when it starts in state s: everything `fn` did, or nothing and an error. */
  function Attempt<S, T>(script: Script<S, T>, k: nat, s: S): Result<Done<S, T>, Thrown> {
    var done :- script.fn(k, s);
    var refusal := script.commit(k);
    if refusal.Some? then Err(refusal.value) else Ok(done)
  }

  /** The state attempt k starts in if other sessions alone have written since the beginning. */
  function Untouched<S, T>(script: Script<S, T>, s: S, k: nat): S {
    if k == 0 then s else script.others(k, Untouched(script, s, k - 1))
  }

  function Outcome<S, T>(script: Script<S, T>, s: S, k: nat): Result<Done<S, T>, Thrown> {
    Attempt(script, k, Untouched(script, s, k))
  }

  predicate FailsTransiently<S, T>(script: Script<S, T>, s: S, k: nat) {
    var o := Outcome(script, s, k);
    o.Err? && TransientCode(o.error).Some?
  }

  /** The hook is told, counting from one, which attempt failed and with which code. */
  predicate Tells<S, T>(script: Script<S, T>, s: S, k: nat, info: Info) {
    var o := Outcome(script, s, k);
    info.attempt == k + 1 && o.Err? && TransientCode(o.error) == Some(info.code)
  }

  /** Attempt k is the last: all before it failed transiently, and it did not or was one too many. */
  predicate IsLast<S, T>(script: Script<S, T>, s: S, maxAttempts: int, k: nat) {
    (forall j: nat | j < k :: FailsTransiently(script, s, j) && j + 1 < maxAttempts)
    && (!FailsTransiently(script, s, k) || maxAttempts <= k + 1)
  }

  /** There is exactly one last attempt, whatever the hook does and the random source draws. */
  lemma LastIsUnique<S, T>(script: Script<S, T>, s: S, maxAttempts: int, k: nat, l: nat)
    requires IsLast(script, s, maxAttempts, k) && IsLast(script, s, maxAttempts, l)
    ensures k == l && k + 1 <= if maxAttempts < 1 then 1 else maxAttempts
  {
    if k > 0 {
      assert FailsTransiently(script, s, k - 1);
    }
    assert k < l ==> FailsTransiently(script, s, k) && k + 1 < maxAttempts;
    assert l < k ==> FailsTransiently(script, s, l) && l + 1 < maxAttempts;
  }

  /** Every attempt before the last failed with one of the two codes; the last did not, or none was left. */
  lemma LastMeans<S, T>(script: Script<S, T>, s: S, maxAttempts: int, k: nat)
    ensures IsLast(script, s, maxAttempts, k) <==>
            && (forall j: nat | j < k :: j + 1 < maxAttempts && GivesCode(Outcome(script, s, j)))
            && (maxAttempts <= k + 1 || !GivesCode(Outcome(script, s, k)))
  {
    forall j: nat ensures FailsTransiently(script, s, j) <==> GivesCode(Outcome(script, s, j)) {
      GivesCodeIff(Outcome(script, s, j));
    }
  }

  lemma GivesCodeIff<S, T>(o: Result<Done<S, T>, Thrown>)
    ensures GivesCode(o) <==> o.Err? && TransientCode(o.error).Some?
  {
    if o.Err? {
      FirstStateIff(Objects(o.error), DEADLOCK);
      FirstStateIff(Objects(o.error), SERIALIZATION);
    }
  }

  /** An error with a layer that carries a deadlock or a serialization failure, and no state above it. */
  ghost predicate GivesCode<S, T>(o: Result<Done<S, T>, Thrown>) {
    o.Err? && exists k, code | code in {"40P01", "40001"} :: FirstCarrier(Objects(o.error), k, code)
  }

  // ----- The shell -----

  class Database<S> {
    var state: S
    ghost var commits: nat

    constructor (state: S)
      ensures this.state == state && commits == 0
    {
      this.state, commits := state, 0;
    }

    /** A transaction, or a savepoint inside one: all of `fn` or nothing. */
    method Transaction<T>(script: Script<S, T>, k: nat) returns (r: Result<T, Thrown>)
      modifies this
      ensures match script.fn(k, old(state))
        case Ok(done) =>
          if script.commit(k).None? then r == Ok(done.value) && state == done.state && commits == old(commits) + 1
          else r == Err(script.commit(k).value) && state == old(state) && commits == old(commits)
        case Err(e) => r == Err(e) && state == old(state) && commits == old(commits)
    {
      var o := script.fn(k, state);
      if o.Err? {
        return Err(o.error);
      }
      var refusal := script.commit(k);
      if refusal.Some? {
        return Err(refusal.value);
      }
      state, commits := o.value.state, commits + 1;
      return Ok(o.value.value);
    }

    method Elapse<T>(script: Script<S, T>, k: nat)
      modifies `state
      ensures state == script.others(k, old(state))
    {
      state := script.others(k, state);
    }

    method RunTx<T>(script: Script<S, T>, policy: Policy, world: World)
      returns (r: Result<T, Thrown>, waits: seq<int>, told: seq<Info>)
      modifies this
      // at most one effect: the last attempt's, from a state no failed attempt touched
      ensures IsLast(script, old(state), policy.maxAttempts, |waits|)
      ensures var k, from := |waits|, Untouched(script, old(state), |waits|);
        match script.fn(k, from)
        case Ok(done) =>
          if script.commit(k).None? then r == Ok(done.value) && state == done.state && commits == old(commits) + 1
          else r == Err(script.commit(k).value) && state == from && commits == old(commits)
        case Err(e) => r == Err(e) && state == from && commits == old(commits)
      // one wait and, given a hook, one call of it before each retry
      ensures forall j | 0 <= j < |waits| :: waits[j] == Delay(policy, world.random, j)
      ensures |told| == if world.hookThrows.Some? then |waits| else 0
      ensures forall j: nat | j < |told| :: told[j].attempt == j + 1 && Tells(script, old(state), j, told[j])
    {
      ghost var s := state;
      waits, told := [], [];
      var attempt := 0;
      while true
        invariant attempt == |waits| && state == Untouched(script, s, attempt) && commits == old(commits)
        invariant forall j: nat | j < attempt :: FailsTransiently(script, s, j) && j + 1 < policy.maxAttempts
        invariant forall j | 0 <= j < |waits| :: waits[j] == Delay(policy, world.random, j)
        invariant |told| == if world.hookThrows.Some? then |waits| else 0
        invariant forall j: nat | j < |told| :: Tells(script, s, j, told[j])
        decreases policy.maxAttempts - attempt
      {
        r := Transaction(script, attempt);
        if r.Ok? {
          return;
        }
        var code := TransientTxFailureCode(r.error);
        if attempt + 1 >= policy.maxAttempts || code.None? {
          return;
        }
        if world.hookThrows.Some? {
          var info := Info(attempt + 1, code.value);
          told := told + [info];
          // an exception of the hook ends here
          var swallowed := world.hookThrows.value(info);
        }
        waits := waits + [Delay(policy, world.random, attempt)];
        attempt := attempt + 1;
        Elapse(script, attempt);
      }
    }
  }

  // ----- How long the waits are -----

  function Sum(waits: seq<int>): int {
    if waits == [] then 0 else Sum(waits[..|waits| - 1]) + waits[|waits| - 1]
  }

  lemma JitterBounds(draw: real, maxJitter: int)
    requires 0.0 <= draw < 1.0 && 1 <= maxJitter
    ensures 0 <= (draw * maxJitter as real).Floor <= maxJitter - 1
  {
    var m := maxJitter as real;
    assert 0.0 <= draw * m < m;
  }

  /** Beyond the doubled base delay a wait is the drawn share of the jitter, in whole milliseconds. */
  lemma DelayIs(policy: Policy, random: nat -> real, k: nat)
    ensures var jitter := random(k) * policy.maxJitterMs as real;
            jitter - 1.0 < (Delay(policy, random, k) - policy.baseDelayMs * Pow2(k)) as real <= jitter
  {
    var doubled := policy.baseDelayMs * Pow2(k);
    assert Delay(policy, random, k) - doubled == (random(k) * policy.maxJitterMs as real).Floor;
  }

  /** Wait j is `base` doubled j times, and up to `most` more. */
  predicate Doubling(base: int, most: nat, waits: seq<int>) {
    forall j | 0 <= j < |waits| :: base * Pow2(j) <= waits[j] <= base * Pow2(j) + most
  }

  lemma OneMoreWait(base: int, p: nat, k: nat, most: nat, sum: int, wait: int)
    requires base * (p - 1) <= sum <= base * (p - 1) + k * most
    requires base * p <= wait <= base * p + most
    ensures base * (2 * p - 1) <= sum + wait <= base * (2 * p - 1) + (k + 1) * most
  {
    assert base * (p - 1) + base * p == base * (2 * p - 1);
    assert k * most + most == (k + 1) * most;
  }

  lemma {:induction false} DoublingSums(base: int, most: nat, waits: seq<int>)
    requires Doubling(base, most, waits)
    ensures base * (Pow2(|waits|) - 1) <= Sum(waits) <= base * (Pow2(|waits|) - 1) + |waits| * most
  {
    if waits != [] {
      var k := |waits| - 1;
      DoublingSums(base, most, waits[..k]);
      OneMoreWait(base, Pow2(k), k, most, Sum(waits[..k]), waits[k]);
    }
  }

  /** The total wait grows like a power of two, up to the jitter. */
  lemma BackoffBounds(policy: Policy, random: nat -> real, waits: seq<int>)
    requires 1 <= policy.maxJitterMs && forall k :: 0.0 <= random(k) < 1.0
    requires forall j | 0 <= j < |waits| :: waits[j] == Delay(policy, random, j)
    ensures policy.baseDelayMs * (Pow2(|waits|) - 1) <= Sum(waits)
         <= policy.baseDelayMs * (Pow2(|waits|) - 1) + |waits| * (policy.maxJitterMs - 1)
  {
    forall j: nat | j < |waits|
      ensures 0 <= waits[j] - policy.baseDelayMs * Pow2(j) <= policy.maxJitterMs - 1
    {
      JitterBounds(random(j), policy.maxJitterMs);
    }
    assert Doubling(policy.baseDelayMs, policy.maxJitterMs - 1, waits);
    DoublingSums(policy.baseDelayMs, policy.maxJitterMs - 1, waits);
  }
}

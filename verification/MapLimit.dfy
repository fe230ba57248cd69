/**
 * The bounded-concurrency map: a few workers share one counter of unclaimed indices and one result
 * array. Between its own awaits a worker runs undisturbed, so a schedule is the order in which
 * workers take their steps.
 */
module MapLimit {
  import opened Wrappers
  import opened Basics

  /** `fn` also gets the index, so that two calls on equal items may end differently. */
  datatype Job<!T, R> = Job(items: seq<T>, limit: int, fn: (T, nat) -> Result<R, string>)

  datatype Worker = Looping | Calling(index: nat) | Returned | Threw

  datatype State<R> = State(
    next: nat,
    workers: seq<Worker>,
    out: seq<Option<R>>,
    rejection: Option<string>,
    calls: seq<nat>)

  function Min(a: int, b: int): int { if a <= b then a else b }

  function Size<T, R>(job: Job<T, R>): nat {
    if job.limit < 0 then 0 else Min(job.limit, |job.items|)
  }

  function Answer<T, R>(job: Job<T, R>, i: nat): Result<R, string>
    requires i < |job.items|
  {
    job.fn(job.items[i], i)
  }

  function Initial<T, R>(job: Job<T, R>): State<R> {
    State(0, seq(Size(job), _ => Looping), seq(|job.items|, _ => None), None, [])
  }

  predicate Live(s: State, w: nat) {
    w < |s.workers| && (s.workers[w].Looping? || s.workers[w].Calling?)
  }

  ghost predicate Done(s: State) {
    forall w: nat :: !Live(s, w)
  }

  predicate InCall(workers: seq<Worker>, i: nat) {
    exists w | 0 <= w < |workers| :: workers[w] == Calling(i)
  }

  /** Indices handed to `fn` so far. */
  function Claimed<T, R>(job: Job<T, R>, s: State<R>): nat {
    Min(s.next, |job.items|)
  }

  predicate Answered<T, R>(job: Job<T, R>, s: State<R>, i: nat) {
    i < Claimed(job, s) && !InCall(s.workers, i)
  }

  predicate Shape<T, R>(job: Job<T, R>, s: State<R>) {
    |s.workers| == Size(job) && |s.out| == |job.items|
    && (forall w | 0 <= w < |s.workers| && s.workers[w].Calling? :: s.workers[w].index < Claimed(job, s))
  }

  /** One worker's next step: claim an index or return, or take the answer of its call. */
  function Step<T, R>(job: Job<T, R>, s: State<R>, w: nat): State<R>
    requires Shape(job, s) && Live(s, w)
  {
    match s.workers[w]
    case Looping =>
      if s.next >= |job.items| then
        s.(next := s.next + 1, workers := s.workers[w := Returned])
      else
        s.(next := s.next + 1, workers := s.workers[w := Calling(s.next)], calls := s.calls + [s.next])
    case Calling(i) =>
      match Answer(job, i)
      case Ok(v) => s.(out := s.out[i := Some(v)], workers := s.workers[w := Looping])
      case Err(e) =>
        s.(workers := s.workers[w := Threw], rejection := if s.rejection.None? then Some(e) else s.rejection)
  }

  // ----- What every step keeps -----

  /** Every claimed index went to exactly one call, in order. */
  predicate CalledOnce<T, R>(job: Job<T, R>, s: State<R>) {
    |s.calls| == Claimed(job, s)
    && (forall j | 0 <= j < |s.calls| :: s.calls[j] == j)
    && (forall v, w | 0 <= v < w < |s.workers| && s.workers[v].Calling? :: s.workers[w] != s.workers[v])
  }

  /** A slot holds the answer for its own index as soon as there is one, and nothing before. */
  ghost predicate OutIsRight<T, R>(job: Job<T, R>, s: State<R>)
    requires Shape(job, s)
  {
    forall i: nat | i < |job.items| ::
      s.out[i] == if Answered(job, s, i) && Answer(job, i).Ok? then Some(Answer(job, i).value) else None
  }

  predicate ErrorSeen<T, R>(job: Job<T, R>, s: State<R>, i: nat, e: string) {
    i < |job.items| && Answered(job, s, i) && Answer(job, i) == Err(e)
  }

  ghost predicate RejectionIsRight<T, R>(job: Job<T, R>, s: State<R>) {
    (s.rejection.None? ==> forall i, e :: !ErrorSeen(job, s, i, e))
    && (s.rejection.Some? ==> exists i :: ErrorSeen(job, s, i, s.rejection.value))
    && (forall w | 0 <= w < |s.workers| && s.workers[w].Threw? :: s.rejection.Some?)
  }

  predicate ReturnsLate<T, R>(job: Job<T, R>, s: State<R>) {
    (s.workers == [] ==> s.next == 0)
    && forall w | 0 <= w < |s.workers| && s.workers[w].Returned? :: |job.items| <= s.next
  }

  ghost predicate Inv<T, R>(job: Job<T, R>, s: State<R>) {
    Shape(job, s) && CalledOnce(job, s) && OutIsRight(job, s) && RejectionIsRight(job, s) && ReturnsLate(job, s)
  }

  lemma InitialInv<T, R>(job: Job<T, R>)
    ensures Inv(job, Initial(job))
  {
  }

  /** A step changes who is in a call for the worker's own index alone. */
  lemma StepAnswers<T, R>(job: Job<T, R>, s: State<R>, w: nat, i: nat)
    requires Shape(job, s) && CalledOnce(job, s) && Live(s, w)
    ensures Shape(job, Step(job, s, w))
    ensures Answered(job, Step(job, s, w), i) <==> Answered(job, s, i) || s.workers[w] == Calling(i)
  {
    var t := Step(job, s, w);
    assert forall v | 0 <= v < |s.workers| && v != w :: t.workers[v] == s.workers[v];
    if s.workers[w] == Calling(i) {
      assert InCall(s.workers, i);
      assert forall v | 0 <= v < |s.workers| :: t.workers[v] != Calling(i);
    } else if InCall(s.workers, i) {
      var v :| 0 <= v < |s.workers| && s.workers[v] == Calling(i);
      assert t.workers[v] == Calling(i);
    } else if s.workers[w].Looping? && i == s.next {
      assert i < |job.items| ==> t.workers[w] == Calling(i);
    }
  }

  lemma StepKeepsRejection<T, R>(job: Job<T, R>, s: State<R>, w: nat)
    requires Inv(job, s) && Live(s, w) && Shape(job, Step(job, s, w))
    ensures RejectionIsRight(job, Step(job, s, w))
  {
    var t := Step(job, s, w);
    forall i: nat, e ensures ErrorSeen(job, t, i, e) <==>
      ErrorSeen(job, s, i, e) || (i < |job.items| && s.workers[w] == Calling(i) && Answer(job, i) == Err(e))
    {
      StepAnswers(job, s, w, i);
    }
    if s.rejection.Some? {
      var i :| ErrorSeen(job, s, i, s.rejection.value);
      assert ErrorSeen(job, t, i, s.rejection.value);
    } else if t.rejection.Some? {
      assert ErrorSeen(job, t, s.workers[w].index, t.rejection.value);
    }
  }

  lemma StepKeepsInv<T, R>(job: Job<T, R>, s: State<R>, w: nat)
    requires Inv(job, s) && Live(s, w)
    ensures Inv(job, Step(job, s, w))
  {
    forall i: nat ensures Shape(job, Step(job, s, w))
      && (Answered(job, Step(job, s, w), i) <==> Answered(job, s, i) || s.workers[w] == Calling(i))
    {
      StepAnswers(job, s, w, i);
    }
    StepKeepsRejection(job, s, w);
  }

  // ----- Progress -----

  function Weight(workers: seq<Worker>): nat {
    if workers == [] then 0
    else (match workers[0] case Looping => 1 case Calling(_) => 2 case _ => 0) + Weight(workers[1..])
  }

  /** Steps that can still be taken. */
  function Measure<T, R>(job: Job<T, R>, s: State<R>): nat {
    2 * (|job.items| - Claimed(job, s)) + Weight(s.workers)
  }

  lemma {:induction false} WeightUpdate(workers: seq<Worker>, w: nat, x: Worker)
    requires w < |workers|
    ensures Weight(workers[w := x]) == Weight(workers) - Weight([workers[w]]) + Weight([x])
  {
    assert [x][1..] == [] && [workers[w]][1..] == [];
    if w == 0 {
      assert workers[0 := x][1..] == workers[1..];
    } else {
      assert workers[w := x][1..] == workers[1..][w - 1 := x];
      WeightUpdate(workers[1..], w - 1, x);
    }
  }

  lemma StepProgress<T, R>(job: Job<T, R>, s: State<R>, w: nat)
    requires Shape(job, s) && Live(s, w)
    ensures Measure(job, Step(job, s, w)) < Measure(job, s)
    ensures Step(job, s, w).rejection.None? ==> Measure(job, Step(job, s, w)) == Measure(job, s) - 1
  {
    var t := Step(job, s, w);
    WeightUpdate(s.workers, w, t.workers[w]);
    assert [t.workers[w]][1..] == [] && [s.workers[w]][1..] == [];
    assert t.workers == s.workers[w := t.workers[w]];
  }

  // ----- Every interleaving -----

  /** The state after the workers in `schedule` took one step each; None if one had no step to take. */
  function After<T, R>(job: Job<T, R>, schedule: seq<nat>): Option<State<R>>
    decreases |schedule|
  {
    if schedule == [] then Some(Initial(job))
    else
      var k := |schedule| - 1;
      var r :- After(job, schedule[..k]);
      if Shape(job, r) && Live(r, schedule[k]) then Some(Step(job, r, schedule[k])) else None
  }

  ghost predicate Reaches<T, R>(job: Job<T, R>, schedule: seq<nat>, s: State<R>) {
    After(job, schedule) == Some(s)
  }

  lemma {:induction false} InitialWeight(workers: seq<Worker>)
    requires forall w | 0 <= w < |workers| :: workers[w] == Looping
    ensures Weight(workers) == |workers|
  {
    if workers != [] {
      InitialWeight(workers[1..]);
    }
  }

  /** Every interleaving keeps the invariant and is short; none can go on for ever. */
  lemma {:induction false} EveryRun<T, R>(job: Job<T, R>, schedule: seq<nat>, s: State<R>)
    requires Reaches(job, schedule, s)
    ensures Inv(job, s)
    ensures |schedule| + Measure(job, s) <= 2 * |job.items| + Size(job)
    ensures s.rejection.None? ==> |schedule| + Measure(job, s) == 2 * |job.items| + Size(job)
    decreases |schedule|
  {
    if schedule == [] {
      InitialInv(job);
      InitialWeight(s.workers);
    } else {
      var k := |schedule| - 1;
      var r := After(job, schedule[..k]).value;
      EveryRun(job, schedule[..k], r);
      StepKeepsInv(job, r, schedule[k]);
      StepProgress(job, r, schedule[k]);
    }
  }

  function InFlight(workers: seq<Worker>): set<nat> {
    set w | 0 <= w < |workers| && workers[w].Calling? :: workers[w].index
  }

  lemma {:induction false} FlightsFit(workers: seq<Worker>)
    ensures |InFlight(workers)| <= |workers|
  {
    if workers != [] {
      var k := |workers| - 1;
      FlightsFit(workers[..k]);
      var rest := InFlight(workers[..k]);
      if workers[k].Calling? {
        assert InFlight(workers) == rest + {workers[k].index};
      } else {
        assert InFlight(workers) == rest;
      }
    }
  }

  /** Never more calls at once than the limit, or than there are items, and none twice. */
  lemma AtMostLimitInFlight<T, R>(job: Job<T, R>, schedule: seq<nat>, s: State<R>)
    requires Reaches(job, schedule, s)
    ensures 0 <= job.limit ==> |InFlight(s.workers)| <= job.limit
    ensures job.limit < 1 ==> InFlight(s.workers) == {}
    ensures |InFlight(s.workers)| <= |job.items|
    ensures forall i :: multiset(s.calls)[i] <= 1
    ensures forall i | i in InFlight(s.workers) :: i in s.calls
  {
    EveryRun(job, schedule, s);
    FlightsFit(s.workers);
    forall i ensures multiset(s.calls)[i] <= 1 {
      CountsOnce(s.calls, i);
    }
    forall i | i in InFlight(s.workers) ensures i in s.calls {
      assert s.calls[i] == i;
    }
  }

  /** The first workers' claims, in turn. */
  lemma {:induction false} FirstClaims<T, R>(job: Job<T, R>, k: nat) returns (schedule: seq<nat>, s: State<R>)
    requires k <= job.limit && k <= |job.items|
    ensures Reaches(job, schedule, s) && s.next == k && |s.workers| == Size(job)
    ensures forall w: nat | w < |s.workers| :: s.workers[w] == if w < k then Calling(w) else Looping
  {
    if k == 0 {
      schedule, s := [], Initial(job);
    } else {
      var before, r := FirstClaims(job, k - 1);
      EveryRun(job, before, r);
      schedule, s := before + [k - 1], Step(job, r, k - 1);
      assert schedule[..|schedule| - 1] == before;
    }
  }

  lemma FirstFlights(workers: seq<Worker>, k: nat)
    requires k <= |workers| && forall w: nat | w < |workers| :: workers[w] == if w < k then Calling(w) else Looping
    ensures |InFlight(workers)| == k
  {
    forall i | i in Below(k) ensures i in InFlight(workers) {
      assert workers[i] == Calling(i);
    }
    assert InFlight(workers) == Below(k);
  }

  /** And the bound is reached: as many calls at once as limit and items allow. */
  lemma LimitIsReached<T, R>(job: Job<T, R>) returns (schedule: seq<nat>, s: State<R>)
    requires 0 <= job.limit
    ensures Reaches(job, schedule, s)
    ensures |InFlight(s.workers)| == if job.limit <= |job.items| then job.limit else |job.items|
  {
    var k := if job.limit <= |job.items| then job.limit else |job.items|;
    schedule, s := FirstClaims(job, k);
    FirstFlights(s.workers, k);
  }

  lemma {:induction false} PrefixReaches<T, R>(job: Job<T, R>, schedule: seq<nat>, s: State<R>, k: nat)
    requires Reaches(job, schedule, s) && k <= |schedule|
    ensures After(job, schedule[..k]).Some?
    decreases |schedule|
  {
    if k < |schedule| {
      var n := |schedule| - 1;
      PrefixReaches(job, schedule[..n], After(job, schedule[..n]).value, k);
      assert schedule[..n][..k] == schedule[..k];
    } else {
      assert schedule[..k] == schedule;
    }
  }

  /** The failure that comes first, in the order of the schedule, is the one the caller sees. */
  lemma {:induction false} FirstFailureStands<T, R>(
    job: Job<T, R>, schedule: seq<nat>, end: State<R>, k: nat, s: State<R>, i: nat, e: string)
    requires Reaches(job, schedule, end) && k < |schedule| && Reaches(job, schedule[..k], s)
    requires s.rejection == None && schedule[k] < |s.workers| && s.workers[schedule[k]] == Calling(i)
    requires i < |job.items| && job.fn(job.items[i], i) == Err(e)
    ensures end.rejection == Some(e)
    decreases |schedule|
  {
    var n := |schedule| - 1;
    if k < n {
      assert schedule[..n][..k] == schedule[..k];
      FirstFailureStands(job, schedule[..n], After(job, schedule[..n]).value, k, s, i, e);
    }
  }

  lemma {:induction false} CountsOnce(calls: seq<nat>, i: nat)
    requires forall j | 0 <= j < |calls| :: calls[j] == j
    ensures multiset(calls)[i] == if i < |calls| then 1 else 0
  {
    if calls != [] {
      var k := |calls| - 1;
      CountsOnce(calls[..k], i);
      assert calls == calls[..k] + [calls[k]];
    }
  }

  /** While no call failed, a worker waits only in a call, and stays away only when nothing is left to claim. */
  lemma NoIdleWorker<T, R>(job: Job<T, R>, schedule: seq<nat>, s: State<R>)
    requires Reaches(job, schedule, s) && s.rejection.None?
    requires forall w | 0 <= w < |s.workers| :: !s.workers[w].Looping?
    ensures (forall w | 0 <= w < |s.workers| :: s.workers[w].Calling?)
         || (forall i: nat | i < |job.items| :: Answered(job, s, i) || InCall(s.workers, i))
  {
    EveryRun(job, schedule, s);
  }

  ghost predicate Filled<T, R>(job: Job<T, R>, s: State<R>) {
    s.rejection.None? && |s.out| == |job.items|
    && forall i: nat | i < |job.items| :: Answer(job, i).Ok? && s.out[i] == Some(Answer(job, i).value)
  }

  predicate AllOk<T, R>(job: Job<T, R>) {
    forall i: nat | i < |job.items| :: Answer(job, i).Ok?
  }

  /**
   * Whatever the interleaving, at the end the array is the plain map of the items exactly when no call
   * fails and there was anyone to do the work; with a limit below one the slots stay empty.
   */
  lemma RefinesMap<T, R>(job: Job<T, R>, schedule: seq<nat>, s: State<R>)
    requires Reaches(job, schedule, s) && Done(s)
    ensures Filled(job, s) <==> AllOk(job) && (1 <= job.limit || job.items == [])
    ensures job.limit < 1 ==> s.rejection.None? && forall i | 0 <= i < |s.out| :: s.out[i] == None
    ensures s.rejection.None? && 1 <= job.limit ==> AllOk(job)
    ensures s.rejection.Some? ==> exists i :: ErrorSeen(job, s, i, s.rejection.value)
    ensures s.rejection.None? ==> |schedule| == if job.limit < 1 then Size(job) else 2 * |job.items| + Size(job)
  {
    EveryRun(job, schedule, s);
    DoneWeighsNothing(s.workers, s);
    if s.rejection.Some? {
      RejectedIsNotOk(job, s);
    } else if job.limit < 1 || job.items == [] {
      NobodyToWork(job, s);
    } else {
      NoneLeft(job, s);
    }
  }

  lemma RejectedIsNotOk<T, R>(job: Job<T, R>, s: State<R>)
    requires Inv(job, s) && s.rejection.Some?
    ensures !AllOk(job) && 1 <= job.limit
  {
    var i :| ErrorSeen(job, s, i, s.rejection.value);
    if job.limit < 1 {
      NobodyToWork(job, s);
    }
  }

  lemma NobodyToWork<T, R>(job: Job<T, R>, s: State<R>)
    requires Inv(job, s) && (job.limit < 1 || job.items == [])
    ensures Filled(job, s) <==> job.items == []
    ensures s.rejection.None? && forall i | 0 <= i < |s.out| :: s.out[i] == None
  {
    assert job.items != [] ==> s.out[0] == None;
  }

  lemma NoneLeft<T, R>(job: Job<T, R>, s: State<R>)
    requires Inv(job, s) && Done(s) && s.rejection.None? && 1 <= job.limit && job.items != []
    ensures Filled(job, s)
  {
    assert !Live(s, 0) && s.workers[0].Returned?;
    forall i: nat | i < |job.items| ensures Answered(job, s, i) && Answer(job, i).Ok? {
      forall w | 0 <= w < |s.workers| ensures s.workers[w] != Calling(i) {
        assert !Live(s, w);
      }
      assert Answered(job, s, i);
      assert Answer(job, i).Err? ==> ErrorSeen(job, s, i, Answer(job, i).error);
    }
  }

  lemma {:induction false} DoneWeighsNothing<R>(workers: seq<Worker>, s: State<R>)
    requires Done(s) && |workers| <= |s.workers| && workers == s.workers[|s.workers| - |workers|..]
    ensures Weight(workers) == 0
  {
    if workers != [] {
      assert !Live(s, |s.workers| - |workers|);
      DoneWeighsNothing(workers[1..], s);
    }
  }

  // ----- The code -----

  /**
   * The map itself, under any scheduling of its workers. `rejection` is what the caller sees: the error of
   * the call that failed first. The other workers go on, and `out` is what they leave behind.
   */
  method Run<T, R>(job: Job<T, R>)
    returns (out: array<Option<R>>, rejection: Option<string>, ghost schedule: seq<nat>, ghost end: State<R>)
    ensures Reaches(job, schedule, end) && Done(end)
    ensures out[..] == end.out && rejection == end.rejection
    // each slot has the answer for its own item, or the first failure is passed on
    ensures 1 <= job.limit && (forall i: nat | i < |job.items| :: job.fn(job.items[i], i).Ok?) ==>
      rejection == None && out.Length == |job.items|
      && forall i: nat | i < |job.items| :: out[i] == Some(job.fn(job.items[i], i).value)
    ensures rejection.Some? ==> exists i: nat | i < |job.items| :: job.fn(job.items[i], i) == Err(rejection.value)
    ensures rejection == None && 1 <= job.limit ==> forall i: nat | i < |job.items| :: job.fn(job.items[i], i).Ok?
    // at no moment are there more calls than the limit
    ensures forall k: nat | k <= |schedule| :: After(job, schedule[..k]).Some?
    ensures 0 <= job.limit ==>
      forall k: nat | k <= |schedule| :: |InFlight(After(job, schedule[..k]).value.workers)| <= job.limit
  {
    out := new Option<R>[|job.items|](_ => None);
    rejection := None;
    var next := 0;
    var workers := seq(Size(job), _ => Looping);
    schedule, end := [], Initial(job);
    InitialInv(job);
    assert out[..] == end.out;
    while exists w :: 0 <= w < |workers| && (workers[w].Looping? || workers[w].Calling?)
      invariant Reaches(job, schedule, end) && Inv(job, end)
      invariant out[..] == end.out && rejection == end.rejection && next == end.next && workers == end.workers
      decreases Measure(job, end)
    {
      var w :| 0 <= w < |workers| && (workers[w].Looping? || workers[w].Calling?);
      StepKeepsInv(job, end, w);
      StepProgress(job, end, w);
      ghost var before := end;
      end := Step(job, end, w);
      schedule := schedule + [w];
      assert schedule[..|schedule| - 1] + [w] == schedule;
      assert Reaches(job, schedule[..|schedule| - 1], before);
      if workers[w].Looping? {
        var i := next;
        next := next + 1;
        workers := workers[w := if i >= |job.items| then Returned else Calling(i)];
      } else {
        var i := workers[w].index;
        match job.fn(job.items[i], i)
        case Ok(v) =>
          out[i] := Some(v);
          workers := workers[w := Looping];
        case Err(e) =>
          if rejection.None? {
            rejection := Some(e);
          }
          workers := workers[w := Threw];
      }
    }
    RunEnds(job, schedule, end);
  }

  /** What the end of a run means for its caller. */
  lemma RunEnds<T, R>(job: Job<T, R>, schedule: seq<nat>, end: State<R>)
    requires Reaches(job, schedule, end) && Done(end)
    ensures |end.out| == |job.items|
    ensures 1 <= job.limit && (forall i: nat | i < |job.items| :: job.fn(job.items[i], i).Ok?) ==>
      end.rejection.None? && forall i: nat | i < |job.items| :: end.out[i] == Some(job.fn(job.items[i], i).value)
    ensures end.rejection.Some? ==>
      exists i: nat | i < |job.items| :: job.fn(job.items[i], i) == Err(end.rejection.value)
    ensures end.rejection.None? && 1 <= job.limit ==> forall i: nat | i < |job.items| :: job.fn(job.items[i], i).Ok?
    ensures forall k: nat | k <= |schedule| :: After(job, schedule[..k]).Some?
    ensures 0 <= job.limit ==>
      forall k: nat | k <= |schedule| :: |InFlight(After(job, schedule[..k]).value.workers)| <= job.limit
  {
    EveryRun(job, schedule, end);
    RefinesMap(job, schedule, end);
    assert forall i: nat | i < |job.items| :: Answer(job, i) == job.fn(job.items[i], i);
    forall k: nat | k <= |schedule|
      ensures After(job, schedule[..k]).Some?
      ensures 0 <= job.limit ==> |InFlight(After(job, schedule[..k]).value.workers)| <= job.limit
    {
      PrefixReaches(job, schedule, end, k);
      AtMostLimitInFlight(job, schedule[..k], After(job, schedule[..k]).value);
    }
  }
}

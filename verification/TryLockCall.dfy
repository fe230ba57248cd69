/**
 * One call of the session try-lock, statement by statement: reserve a connection, try the lock, run
 * the callback, unlock in the inner finally, release or close in the outer one. The world says what
 * each awaited operation does; the call leaves the trail of its steps in the protocol's terms.
 */
module TryLockCall {
  import opened Wrappers
  import opened SessionLock

  type Error = string

  /** The try-lock's answer is that of its first row; without one the lock is refused. */
  datatype Lock = Granted | Refused | TryFailed(error: Error)

  /** How the statements of one call turn out. */
  datatype World<T> = World(
    locked: Lock,
    fn: Result<T, Error>,
    unlock: Unlock,
    hook: Option<Error>,
    closeFails: bool,
    release: Option<Error>)

  /** An unlock that throws may or may not have reached the server. */
  datatype Unlock = Unlocked | UnlockFailed(error: Error, undone: bool)

  datatype Outcome<T> = Skipped | Returned(value: T) | Thrown(error: Error)

  class Client {
    const session: Session
    var reserved: bool
    var closed: bool
    var held: multiset<Key>
    var releases: nat
    var closes: nat

    constructor (session: Session)
      ensures this.session == session && !reserved && !closed && held == NONE && releases == 0 && closes == 0
    {
      this.session := session;
      reserved, closed, held, releases, closes := false, false, NONE, 0, 0;
    }

    /** Gives the connection back to the pool, with whatever it holds. */
    method Release(fails: Option<Error>) returns (error: Option<Error>)
      modifies this
      ensures error == fails && releases == old(releases) + 1
      ensures reserved == (old(reserved) && fails.Some?)
      ensures closed == old(closed) && held == old(held) && closes == old(closes)
    {
      releases := releases + 1;
      if fails.None? {
        reserved := false;
      }
      error := fails;
    }

    /** Destroys the connection and its session's locks; a failure is swallowed by the caller. */
    method Close(fails: bool)
      modifies this
      ensures closes == old(closes) + 1 && closed == (old(closed) || !fails)
      ensures held == if fails then old(held) else NONE
      ensures reserved == old(reserved) && releases == old(releases)
    {
      closes := closes + 1;
      if !fails {
        closed, held := true, NONE;
      }
    }
  }

  function FnOutcome<T>(fn: Result<T, Error>): Outcome<T> {
    match fn
    case Ok(v) => Returned(v)
    case Err(e) => Thrown(e)
  }

  // ----- The protocol of one call -----

  datatype Next = To(stage: Stage) | End | Illegal

  function NextStage(stage: Stage, step: Step): Next {
    match (stage, step)
    case (Reserved, TryGranted(_)) => To(Running)
    case (Reserved, TryDenied(_)) => To(Releasing)
    case (Reserved, TryThrew(_, _)) => To(Releasing)
    case (Running, FnSettled(_)) => To(Unlocking)
    case (Unlocking, UnlockDone(_)) => To(Releasing)
    case (Unlocking, UnlockThrew(_, _)) => To(Defective)
    case (Defective, HookSettled(_)) => To(Closing)
    case (Closing, CloseDone(_)) => End
    case (Closing, CloseThrew(_, _)) => End
    case (Releasing, ReleaseDone(_)) => End
    case (Releasing, ReleaseThrew(_)) => End
    case _ => Illegal
  }

  /** Where a call stands after a trail of steps. */
  function Follow(trail: seq<Step>): Next
    decreases |trail|
  {
    if trail == [] then To(Reserved)
    else
      var before := Follow(trail[..|trail| - 1]);
      if before.To? then NextStage(before.stage, trail[|trail| - 1]) else Illegal
  }

  /** The machine moves a call exactly as the protocol says. */
  lemma MachineFollowsProtocol(s: State, step: Step, p: Call)
    requires Enabled(s, step) && IsStepOf(step, p) && p in s.calls
    ensures match NextStage(s.calls[p].stage, step)
            case To(stage) => p in After(s, step).calls && After(s, step).calls[p].stage == stage
            case End => p !in After(s, step).calls
            case Illegal => false
  {
  }

  predicate Ends(step: Step) {
    step.ReleaseDone? || step.ReleaseThrew? || step.CloseDone? || step.CloseThrew?
  }

  /** A completed call ends its connection once, with its last step, and closes it exactly when unlock threw. */
  lemma {:induction false} EndsOnce(trail: seq<Step>)
    requires Follow(trail) != Illegal
    ensures forall i | 0 <= i < |trail| :: Ends(trail[i]) <==> i == |trail| - 1 && Follow(trail) == End
    ensures Follow(trail) == End ==>
              (trail[|trail| - 1].CloseDone? || trail[|trail| - 1].CloseThrew? <==> UnlockFailedIn(trail))
    ensures Follow(trail).To? ==>
              (Follow(trail).stage == Defective || Follow(trail).stage == Closing <==> UnlockFailedIn(trail))
    decreases |trail|
  {
    if trail != [] {
      var before, last := trail[..|trail| - 1], trail[|trail| - 1];
      EndsOnce(before);
      assert forall i | 0 <= i < |before| :: before[i] == trail[i];
      assert UnlockFailedIn(trail) <==> UnlockFailedIn(before) || last.UnlockThrew?;
    }
  }

  predicate UnlockFailedIn(trail: seq<Step>) {
    exists i | 0 <= i < |trail| :: trail[i].UnlockThrew?
  }

  lemma Append(trail: seq<Step>, step: Step)
    requires Follow(trail).To?
    ensures Follow(trail + [step]) == NextStage(Follow(trail).stage, step)
  {
    assert (trail + [step])[..|trail|] == trail;
  }

  method WithSessionTryLock<T>(client: Client, p: Call, key: Key, w: World<T>)
    returns (r: Outcome<T>, ghost trail: seq<Step>)
    requires !client.reserved && !client.closed && client.held == NONE
    modifies client
    // the connection is ended once, by close exactly on a failed unlock
    ensures Follow(trail) == End
    ensures client.releases == old(client.releases) + if w.locked.Granted? && w.unlock.UnlockFailed? then 0 else 1
    ensures client.closes == old(client.closes) + if w.locked.Granted? && w.unlock.UnlockFailed? then 1 else 0
    // it goes back to the pool empty, or not at all
    ensures !client.reserved ==> client.held == NONE && !client.closed
    ensures !client.reserved <==> !(w.locked.Granted? && w.unlock.UnlockFailed?) && w.release.None?
    ensures client.closed <==> w.locked.Granted? && w.unlock.UnlockFailed? && !w.closeFails
    ensures client.closed ==> client.held == NONE
    // a failed unlock by itself masks neither the value nor the exception of the callback
    ensures w.locked.Granted? && w.unlock.UnlockFailed? && w.hook.Some? ==> r == Thrown(w.hook.value)
    ensures !(w.locked.Granted? && w.unlock.UnlockFailed?) && w.release.Some? ==> r == Thrown(w.release.value)
    ensures w.locked.TryFailed? && w.release.None? ==> r == Thrown(w.locked.error)
    ensures r == Skipped <==> w.locked.Refused? && w.release.None?
    ensures w.locked.Granted? && (if w.unlock.Unlocked? then w.release else w.hook).None? ==>
              (w.fn.Ok? ==> r == Returned(w.fn.value)) && (w.fn.Err? ==> r == Thrown(w.fn.error))
    // the callback runs exactly under the lock, and only then something is unlocked
    ensures FnSettled(p) in trail <==> w.locked.Granted?
    ensures (UnlockDone(p) in trail || exists undone :: UnlockThrew(p, undone) in trail) <==> w.locked.Granted?
  {
    client.reserved := true;
    var unlockFailed;
    r, unlockFailed, trail := TryLocked(client, p, key, w);
    if unlockFailed {
      client.Close(w.closeFails);
      trail := Recorded(trail, if w.closeFails then CloseThrew(p, false) else CloseDone(p));
    } else {
      var failure := client.Release(w.release);
      if failure.Some? {
        r := Thrown(failure.value);
      }
      trail := Recorded(trail, if failure.Some? then ReleaseThrew(p) else ReleaseDone(p));
    }
  }

  /** The outer try block: everything between reserving the connection and ending it. */
  method TryLocked<T>(client: Client, p: Call, key: Key, w: World<T>)
    returns (r: Outcome<T>, unlockFailed: bool, ghost trail: seq<Step>)
    requires client.held == NONE
    modifies client`held
    ensures unlockFailed == (w.locked.Granted? && w.unlock.UnlockFailed?) && (unlockFailed || client.held == NONE)
    ensures Follow(trail) == To(if unlockFailed then Closing else Releasing)
    ensures w.locked.TryFailed? ==> r == Thrown(w.locked.error)
    ensures r == Skipped <==> w.locked.Refused?
    ensures w.locked.Granted? && unlockFailed && w.hook.Some? ==> r == Thrown(w.hook.value)
    ensures w.locked.Granted? && !(unlockFailed && w.hook.Some?) ==>
              (w.fn.Ok? ==> r == Returned(w.fn.value)) && (w.fn.Err? ==> r == Thrown(w.fn.error))
    ensures FnSettled(p) in trail <==> w.locked.Granted?
    ensures (UnlockDone(p) in trail || exists undone :: UnlockThrew(p, undone) in trail) <==> w.locked.Granted?
  {
    if w.locked.TryFailed? {
      trail := Recorded([], TryThrew(p, false));
      return Thrown(w.locked.error), false, trail;
    }
    if w.locked.Refused? {
      trail := Recorded([], TryDenied(p));
      return Skipped, false, trail;
    }
    client.held := client.held + multiset{key};
    assert client.held == multiset{key};
    trail := [];
    trail := Recorded(trail, TryGranted(p));
    r := FnOutcome(w.fn);
    trail := Recorded(trail, FnSettled(p));
    var hookError;
    unlockFailed, hookError, trail := UnlockFinally(client, p, key, w, trail);
    if hookError.Some? {
      r := Thrown(hookError.value);
    }
  }

  /** The inner finally block: unlock, and on failure report the defect; the hook's own error gets out. */
  method UnlockFinally<T>(client: Client, p: Call, key: Key, w: World<T>, ghost before: seq<Step>)
    returns (unlockFailed: bool, hookError: Option<Error>, ghost trail: seq<Step>)
    requires client.held == multiset{key} && Follow(before) == To(Unlocking)
    modifies client`held
    ensures unlockFailed == w.unlock.UnlockFailed? && (unlockFailed || client.held == NONE)
    ensures hookError == if unlockFailed then w.hook else None
    ensures Follow(trail) == To(if unlockFailed then Closing else Releasing)
    ensures before <= trail && (UnlockDone(p) in trail || exists undone :: UnlockThrew(p, undone) in trail)
  {
    match w.unlock {
      case Unlocked =>
        client.held := client.held - multiset{key};
        trail := Recorded(before, UnlockDone(p));
        return false, None, trail;
      case UnlockFailed(_, undone) =>
        if undone {
          client.held := client.held - multiset{key};
        }
        trail := Recorded(before, UnlockThrew(p, undone));
        trail := Recorded(trail, HookSettled(p));
        return true, w.hook, trail;
    }
  }

  ghost method Recorded(trail: seq<Step>, step: Step) returns (longer: seq<Step>)
    requires Follow(trail).To?
    ensures longer == trail + [step] && Follow(longer) == NextStage(Follow(trail).stage, step)
  {
    Append(trail, step);
    longer := trail + [step];
  }
}

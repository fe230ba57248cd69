/**
 * The session-level advisory try-lock over a connection pool, as interleaved steps of any number of
 * calls. Session locks are re-entrant and live as long as the session (PostgreSQL documentation,
 * section 13.3.5). Every statement, the callback, the hook and `close` may fail, and a session may
 * be dropped by the server at any time.
 */
module SessionLock {
  type Session = nat
  type Call = nat

  /** The hash of a lock key; the server only ever sees the hash. */
  type Key = int

  /** A pooled connection: in the pool, reserved by a call, lost by a failed close or release, or closed. */
  datatype Conn = Idle | Taken(call: Call) | Lost | Closed

  /** Where a call stands: try-lock next, inside fn, unlock next, hook next, close next, release next. */
  datatype Stage = Reserved | Running | Unlocking | Defective | Closing | Releasing

  /** A call in progress, with the connection it reserved and its key. */
  datatype Progress = Progress(stage: Stage, conn: Session, key: Key)

  datatype State = State(
    conns: map<Session, Conn>,
    held: map<Session, multiset<Key>>,
    dropped: set<Session>,
    calls: map<Call, Progress>)

  datatype Step =
    | Reserve(p: Call, c: Session, key: Key)
    | TryGranted(p: Call)
    | TryDenied(p: Call)
    | TryThrew(p: Call, acquired: bool)
    | FnSettled(p: Call)
    | UnlockDone(p: Call)
    | UnlockThrew(p: Call, undone: bool)
    | HookSettled(p: Call)
    | CloseDone(p: Call)
    | CloseThrew(p: Call, undone: bool)
    | ReleaseDone(p: Call)
    | ReleaseThrew(p: Call)
    | Reap(c: Session)
    | Drop(c: Session)

  const NONE: multiset<Key> := multiset{}

  /** The server grants a key unless another session has it; the holder itself is granted again. */
  ghost predicate Grantable(s: State, c: Session, key: Key) {
    c !in s.dropped && forall d | d in s.held && d != c :: key !in s.held[d]
  }

  ghost predicate At(s: State, p: Call, stage: Stage) {
    && p in s.calls && s.calls[p].stage == stage
    && s.calls[p].conn in s.conns && s.calls[p].conn in s.held
  }

  function Go(s: State, p: Call, stage: Stage): State
    requires p in s.calls
  {
    s.(calls := s.calls[p := s.calls[p].(stage := stage)])
  }

  function Leave(s: State, p: Call, c: Session, conn: Conn, held: multiset<Key>): State {
    s.(calls := s.calls - {p}, conns := s.conns[c := conn], held := s.held[c := held])
  }

  function WithHeld(s: State, c: Session, held: multiset<Key>): State {
    s.(held := s.held[c := held])
  }

  ghost predicate Enabled(s: State, step: Step) {
    match step
    case Reserve(p, c, _) => p !in s.calls && (c in s.conns ==> s.conns[c] == Idle && c in s.held)
    case TryGranted(p) => At(s, p, Reserved) && Grantable(s, s.calls[p].conn, s.calls[p].key)
    case TryDenied(p) =>
      At(s, p, Reserved) && s.calls[p].conn !in s.dropped && !Grantable(s, s.calls[p].conn, s.calls[p].key)
    case TryThrew(p, acquired) =>
      At(s, p, Reserved) && (acquired ==> Grantable(s, s.calls[p].conn, s.calls[p].key))
    case FnSettled(p) => At(s, p, Running)
    case UnlockDone(p) => At(s, p, Unlocking) && s.calls[p].conn !in s.dropped
    case UnlockThrew(p, _) => At(s, p, Unlocking)
    case HookSettled(p) => At(s, p, Defective)
    case CloseDone(p) => At(s, p, Closing)
    case CloseThrew(p, _) => At(s, p, Closing)
    case ReleaseDone(p) => At(s, p, Releasing)
    case ReleaseThrew(p) => At(s, p, Releasing)
    case Reap(c) => c in s.conns && s.conns[c] == Lost
    case Drop(c) => c in s.conns
  }

  /** The state after an enabled step. */
  ghost function After(s: State, step: Step): State
    requires Enabled(s, step)
  {
    match step
    case Reserve(p, c, key) =>
      s.(conns := s.conns[c := Taken(p)],
         held := if c in s.conns then s.held else s.held[c := NONE],
         calls := s.calls[p := Progress(Reserved, c, key)])
    case TryGranted(p) =>
      var f := s.calls[p];
      Go(WithHeld(s, f.conn, s.held[f.conn] + multiset{f.key}), p, Running)
    case TryDenied(p) => Go(s, p, Releasing)
    case TryThrew(p, acquired) =>
      var f := s.calls[p];
      Go(if acquired then WithHeld(s, f.conn, s.held[f.conn] + multiset{f.key}) else s, p, Releasing)
    case FnSettled(p) => Go(s, p, Unlocking)
    case UnlockDone(p) =>
      var f := s.calls[p];
      Go(WithHeld(s, f.conn, s.held[f.conn] - multiset{f.key}), p, Releasing)
    case UnlockThrew(p, undone) =>
      var f := s.calls[p];
      Go(if undone then WithHeld(s, f.conn, s.held[f.conn] - multiset{f.key}) else s, p, Defective)
    case HookSettled(p) => Go(s, p, Closing)
    case CloseDone(p) => Leave(s, p, s.calls[p].conn, Closed, NONE)
    case CloseThrew(p, undone) =>
      var c := s.calls[p].conn;
      Leave(s, p, c, Lost, if undone then NONE else s.held[c])
    case ReleaseDone(p) => Leave(s, p, s.calls[p].conn, Idle, s.held[s.calls[p].conn])
    case ReleaseThrew(p) => Leave(s, p, s.calls[p].conn, Lost, s.held[s.calls[p].conn])
    case Reap(c) => s.(conns := s.conns[c := Closed], held := s.held[c := NONE])
    case Drop(c) => s.(dropped := s.dropped + {c}, held := s.held[c := NONE])
  }

  /** The hypothesis on the driver: a try-lock that throws has acquired nothing. */
  predicate Honest(step: Step) {
    step.TryThrew? ==> !step.acquired
  }

  const INITIAL := State(map[], map[], {}, map[])

  /** The steps, each enabled where it is taken, lead from s to t. */
  ghost predicate Reaches(s: State, steps: seq<Step>, t: State)
    decreases |steps|
  {
    if steps == [] then s == t else Enabled(s, steps[0]) && Reaches(After(s, steps[0]), steps[1..], t)
  }

  // ----- What every step keeps -----

  /** What the session of a call may hold in each phase, unless the server dropped it. */
  ghost predicate HoldsFor(f: Progress, held: multiset<Key>, dropped: bool) {
    match f.stage
    case Reserved => held == NONE
    case Running => held == if dropped then NONE else multiset{f.key}
    case Unlocking => held == if dropped then NONE else multiset{f.key}
    case Defective => held <= multiset{f.key}
    case Closing => held <= multiset{f.key}
    case Releasing => held == NONE
  }

  ghost predicate ConnOk(s: State, c: Session)
    requires c in s.conns && c in s.held
  {
    && (c in s.dropped ==> s.held[c] == NONE)
    && match s.conns[c]
       case Taken(p) => p in s.calls && s.calls[p].conn == c && HoldsFor(s.calls[p], s.held[c], c in s.dropped)
       case Lost => true
       case _ => s.held[c] == NONE
  }

  /** Keys that a session may hold next to what the others hold. */
  ghost predicate Exclusive(s: State, c: Session, held: multiset<Key>) {
    forall d, key | d in s.held && d != c && key in held :: key !in s.held[d]
  }

  /** Each call has its own reserved connection. */
  ghost predicate Shape(s: State) {
    && s.held.Keys == s.conns.Keys && s.dropped <= s.conns.Keys
    && forall p | p in s.calls :: s.calls[p].conn in s.conns && s.conns[s.calls[p].conn] == Taken(p)
  }

  ghost predicate ConnsOk(s: State)
    requires Shape(s)
  {
    forall c | c in s.conns :: ConnOk(s, c)
  }

  ghost predicate Apart(s: State) {
    forall c | c in s.held :: Exclusive(s, c, s.held[c])
  }

  ghost predicate Inv(s: State) {
    Shape(s) && ConnsOk(s) && Apart(s)
  }

  /** Changing what one session holds keeps the sessions apart. */
  lemma HeldChanges(s: State, t: State, c: Session, held: multiset<Key>)
    requires Apart(s) && Exclusive(s, c, held) && t.held == s.held[c := held]
    ensures Apart(t)
  {
    forall d, e, key | d in t.held && e in t.held && e != d && key in t.held[d] ensures key !in t.held[e] {
      if d != c {
        assert Exclusive(s, d, s.held[d]);
      }
    }
  }

  /** From s to t only connection c and its call differ. */
  ghost predicate OnlyAt(s: State, t: State, c: Session) {
    && (forall d | d in t.conns && d != c ::
          d in s.conns && d in s.held && d in t.held
          && t.conns[d] == s.conns[d] && t.held[d] == s.held[d] && (d in t.dropped <==> d in s.dropped))
    && (forall q | q in s.calls && s.calls[q].conn != c :: q in t.calls && t.calls[q] == s.calls[q])
  }

  lemma OthersOk(s: State, t: State, c: Session)
    requires Shape(s) && ConnsOk(s) && Shape(t) && OnlyAt(s, t, c)
    requires c in t.conns ==> ConnOk(t, c)
    ensures ConnsOk(t)
  {
    forall d | d in t.conns && d != c ensures ConnOk(t, d) {
      assert ConnOk(s, d);
    }
  }

  lemma CallMoves(s: State, p: Call, stage: Stage, held: multiset<Key>)
    requires Inv(s) && p in s.calls
    requires var c := s.calls[p].conn;
             && Exclusive(s, c, held) && (c in s.dropped ==> held == NONE)
             && HoldsFor(s.calls[p].(stage := stage), held, c in s.dropped)
    ensures Inv(Go(WithHeld(s, s.calls[p].conn, held), p, stage))
  {
    var c := s.calls[p].conn;
    var t := Go(WithHeld(s, c, held), p, stage);
    HeldChanges(s, t, c, held);
    MoveShape(s, p, stage, held);
    OthersOk(s, t, c);
  }

  lemma MoveShape(s: State, p: Call, stage: Stage, held: multiset<Key>)
    requires Shape(s) && p in s.calls
    ensures var t := Go(WithHeld(s, s.calls[p].conn, held), p, stage); Shape(t) && OnlyAt(s, t, s.calls[p].conn)
  {
  }

  lemma HoldsNow(s: State, c: Session)
    requires Inv(s) && c in s.conns
    ensures Exclusive(s, c, s.held[c]) && (c in s.dropped ==> s.held[c] == NONE)
  {
    assert ConnOk(s, c);
  }

  lemma CallStays(s: State, p: Call, stage: Stage)
    requires Inv(s) && p in s.calls
    requires var c := s.calls[p].conn; HoldsFor(s.calls[p].(stage := stage), s.held[c], c in s.dropped)
    ensures Inv(Go(s, p, stage))
  {
    var c := s.calls[p].conn;
    assert WithHeld(s, c, s.held[c]) == s by {
      assert s.held[c := s.held[c]] == s.held;
    }
    HoldsNow(s, c);
    CallMoves(s, p, stage, s.held[c]);
  }

  lemma CallLeaves(s: State, p: Call, conn: Conn, held: multiset<Key>)
    requires Inv(s) && p in s.calls
    requires !conn.Taken? && (conn.Lost? || held == NONE) && held <= s.held[s.calls[p].conn]
    ensures Inv(Leave(s, p, s.calls[p].conn, conn, held))
  {
    var c := s.calls[p].conn;
    var t := Leave(s, p, c, conn, held);
    assert ConnOk(s, c) && Exclusive(s, c, s.held[c]);
    HeldChanges(s, t, c, held);
    LeaveShape(s, p, conn, held);
    OthersOk(s, t, c);
  }

  lemma LeaveShape(s: State, p: Call, conn: Conn, held: multiset<Key>)
    requires Shape(s) && p in s.calls
    ensures var t := Leave(s, p, s.calls[p].conn, conn, held); Shape(t) && OnlyAt(s, t, s.calls[p].conn)
  {
  }

  lemma ReserveKeepsInv(s: State, p: Call, c: Session, key: Key)
    requires Inv(s) && Enabled(s, Reserve(p, c, key))
    ensures Inv(After(s, Reserve(p, c, key)))
  {
    var t := After(s, Reserve(p, c, key));
    assert t.held == s.held[c := NONE] by {
      assert c in s.conns ==> ConnOk(s, c);
    }
    HeldChanges(s, t, c, NONE);
    ReserveShape(s, p, c, key);
    OthersOk(s, t, c);
  }

  lemma ReserveShape(s: State, p: Call, c: Session, key: Key)
    requires Shape(s) && Enabled(s, Reserve(p, c, key))
    ensures var t := After(s, Reserve(p, c, key)); Shape(t) && OnlyAt(s, t, c)
  {
    var t := After(s, Reserve(p, c, key));
    forall q | q in t.calls ensures t.calls[q].conn in t.conns && t.conns[t.calls[q].conn] == Taken(q) {
      if q != p {
        assert q in s.calls && s.calls[q].conn != c;
      }
    }
  }

  lemma ServerKeepsInv(s: State, step: Step)
    requires Inv(s) && Enabled(s, step) && (step.Reap? || step.Drop?)
    ensures Inv(After(s, step))
  {
    var t := After(s, step);
    HeldChanges(s, t, step.c, NONE);
    assert Shape(t) && OnlyAt(s, t, step.c);
    assert ConnOk(s, step.c);
    OthersOk(s, t, step.c);
  }

  lemma CallHolds(s: State, p: Call)
    requires Inv(s) && p in s.calls
    ensures var c := s.calls[p].conn;
            && c in s.held && HoldsFor(s.calls[p], s.held[c], c in s.dropped)
            && Exclusive(s, c, s.held[c]) && (c in s.dropped ==> s.held[c] == NONE)
  {
    assert ConnOk(s, s.calls[p].conn);
  }

  lemma TryKeepsInv(s: State, step: Step)
    requires Inv(s) && Enabled(s, step) && Honest(step)
    requires step.TryGranted? || step.TryDenied? || step.TryThrew? || step.FnSettled?
    ensures Inv(After(s, step))
  {
    var p := step.p;
    CallHolds(s, p);
    if step.TryGranted? {
      CallMoves(s, p, Running, s.held[s.calls[p].conn] + multiset{s.calls[p].key});
    } else {
      CallStays(s, p, if step.FnSettled? then Unlocking else Releasing);
    }
  }

  lemma UnlockKeepsInv(s: State, step: Step)
    requires Inv(s) && Enabled(s, step)
    requires step.UnlockDone? || step.UnlockThrew? || step.HookSettled?
    ensures Inv(After(s, step))
  {
    var p := step.p;
    var left := s.held[s.calls[p].conn] - multiset{s.calls[p].key};
    CallHolds(s, p);
    if step.UnlockDone? {
      CallMoves(s, p, Releasing, left);
    } else if step.UnlockThrew? && step.undone {
      CallMoves(s, p, Defective, left);
    } else {
      CallStays(s, p, if step.UnlockThrew? then Defective else Closing);
    }
  }

  lemma EndKeepsInv(s: State, step: Step)
    requires Inv(s) && Enabled(s, step)
    requires step.CloseDone? || step.CloseThrew? || step.ReleaseDone? || step.ReleaseThrew?
    ensures Inv(After(s, step))
  {
    var p := step.p;
    var held := s.held[s.calls[p].conn];
    CallHolds(s, p);
    match step {
      case CloseDone(_) => CallLeaves(s, p, Closed, NONE);
      case CloseThrew(_, undone) => CallLeaves(s, p, Lost, if undone then NONE else held);
      case ReleaseDone(_) => CallLeaves(s, p, Idle, held);
      case ReleaseThrew(_) => CallLeaves(s, p, Lost, held);
    }
  }

  lemma StepKeepsInv(s: State, step: Step)
    requires Inv(s) && Enabled(s, step) && Honest(step)
    ensures Inv(After(s, step))
  {
    if step.Reserve? {
      ReserveKeepsInv(s, step.p, step.c, step.key);
    } else if step.Reap? || step.Drop? {
      ServerKeepsInv(s, step);
    } else if step.TryGranted? || step.TryDenied? || step.TryThrew? || step.FnSettled? {
      TryKeepsInv(s, step);
    } else if step.UnlockDone? || step.UnlockThrew? || step.HookSettled? {
      UnlockKeepsInv(s, step);
    } else {
      EndKeepsInv(s, step);
    }
  }

  lemma {:induction false} RunKeepsInv(s: State, steps: seq<Step>, t: State)
    requires Inv(s) && Reaches(s, steps, t)
    requires forall i | 0 <= i < |steps| :: Honest(steps[i])
    ensures Inv(t)
    decreases |steps|
  {
    if steps != [] {
      StepKeepsInv(s, steps[0]);
      RunKeepsInv(After(s, steps[0]), steps[1..], t);
    }
  }

  // ----- What every step keeps, even when a try-lock acquires its key and then throws -----

  ghost predicate RunnersHold(s: State) {
    forall p | p in s.calls && s.calls[p].stage == Running ::
      var c := s.calls[p].conn; c in s.held && (c in s.dropped || s.calls[p].key in s.held[c])
  }

  ghost predicate Safe(s: State) {
    Shape(s) && Apart(s) && RunnersHold(s)
  }

  lemma SafeMoves(s: State, p: Call, stage: Stage, held: multiset<Key>)
    requires Safe(s) && p in s.calls && Exclusive(s, s.calls[p].conn, held)
    requires stage == Running ==> s.calls[p].conn in s.dropped || s.calls[p].key in held
    ensures Safe(Go(WithHeld(s, s.calls[p].conn, held), p, stage))
  {
    var c := s.calls[p].conn;
    HeldChanges(s, Go(WithHeld(s, c, held), p, stage), c, held);
    MoveShape(s, p, stage, held);
  }

  lemma SafeStays(s: State, p: Call, stage: Stage)
    requires Safe(s) && p in s.calls && stage != Running
    ensures Safe(Go(s, p, stage))
  {
    var c := s.calls[p].conn;
    assert WithHeld(s, c, s.held[c]) == s by {
      assert s.held[c := s.held[c]] == s.held;
    }
    SafeMoves(s, p, stage, s.held[c]);
  }

  lemma SafeLeaves(s: State, p: Call, conn: Conn, held: multiset<Key>)
    requires Safe(s) && p in s.calls && held <= s.held[s.calls[p].conn]
    ensures Safe(Leave(s, p, s.calls[p].conn, conn, held))
  {
    var c := s.calls[p].conn;
    assert Exclusive(s, c, s.held[c]);
    HeldChanges(s, Leave(s, p, c, conn, held), c, held);
    LeaveShape(s, p, conn, held);
  }

  lemma SafeReserve(s: State, p: Call, c: Session, key: Key)
    requires Safe(s) && Enabled(s, Reserve(p, c, key))
    ensures Safe(After(s, Reserve(p, c, key)))
  {
    var t := After(s, Reserve(p, c, key));
    var held := if c in s.conns then s.held[c] else NONE;
    assert t.held == s.held[c := held];
    HeldChanges(s, t, c, held);
    ReserveShape(s, p, c, key);
    assert forall q | q in s.calls :: s.calls[q].conn != c && t.calls[q] == s.calls[q];
  }

  lemma SafeServer(s: State, step: Step)
    requires Safe(s) && Enabled(s, step) && (step.Reap? || step.Drop?)
    ensures Safe(After(s, step))
  {
    HeldChanges(s, After(s, step), step.c, NONE);
  }

  /** What the session of a call in progress holds, or would hold with its key, no other session holds. */
  lemma MayHold(s: State, p: Call)
    requires Safe(s) && p in s.calls
    ensures var f := s.calls[p];
            && f.conn in s.held && Exclusive(s, f.conn, s.held[f.conn])
            && Exclusive(s, f.conn, s.held[f.conn] - multiset{f.key})
            && (Grantable(s, f.conn, f.key) ==> Exclusive(s, f.conn, s.held[f.conn] + multiset{f.key}))
  {
    assert Exclusive(s, s.calls[p].conn, s.held[s.calls[p].conn]);
  }

  lemma StepKeepsSafe(s: State, step: Step)
    requires Safe(s) && Enabled(s, step)
    ensures Safe(After(s, step))
  {
    if step.Reserve? {
      SafeReserve(s, step.p, step.c, step.key);
    } else if step.Reap? || step.Drop? {
      SafeServer(s, step);
    } else {
      var f := s.calls[step.p];
      var held := s.held[f.conn];
      MayHold(s, step.p);
      match step {
        case TryGranted(p) => SafeMoves(s, p, Running, held + multiset{f.key});
        case TryDenied(p) => SafeStays(s, p, Releasing);
        case TryThrew(p, true) => SafeMoves(s, p, Releasing, held + multiset{f.key});
        case TryThrew(p, false) => SafeStays(s, p, Releasing);
        case FnSettled(p) => SafeStays(s, p, Unlocking);
        case UnlockDone(p) => SafeMoves(s, p, Releasing, held - multiset{f.key});
        case UnlockThrew(p, true) => SafeMoves(s, p, Defective, held - multiset{f.key});
        case UnlockThrew(p, false) => SafeStays(s, p, Defective);
        case HookSettled(p) => SafeStays(s, p, Closing);
        case CloseDone(p) => SafeLeaves(s, p, Closed, NONE);
        case CloseThrew(p, undone) => SafeLeaves(s, p, Lost, if undone then NONE else held);
        case ReleaseDone(p) => SafeLeaves(s, p, Idle, held);
        case ReleaseThrew(p) => SafeLeaves(s, p, Lost, held);
      }
    }
  }

  lemma {:induction false} RunKeepsSafe(s: State, steps: seq<Step>, t: State)
    requires Safe(s) && Reaches(s, steps, t)
    ensures Safe(t)
    decreases |steps|
  {
    if steps != [] {
      StepKeepsSafe(s, steps[0]);
      RunKeepsSafe(After(s, steps[0]), steps[1..], t);
    }
  }

  // ----- Safety and availability in every reachable state -----

  ghost predicate InFn(s: State, p: Call, key: Key) {
    p in s.calls && s.calls[p].stage == Running && s.calls[p].key == key
  }

  /**
   * In every interleaving, whatever fails: two calls inside `fn` with one key hash only if the server has
   * dropped the session of one of them.
   */
  lemma MutualExclusion(steps: seq<Step>, s: State, p: Call, q: Call, key: Key)
    requires Reaches(INITIAL, steps, s)
    requires p != q && InFn(s, p, key) && InFn(s, q, key)
    ensures s.calls[p].conn in s.dropped || s.calls[q].conn in s.dropped
  {
    RunKeepsSafe(INITIAL, steps, s);
    var c := s.calls[p].conn;
    assert Exclusive(s, c, s.held[c]);
  }

  /** No idle connection ever holds a lock, so a stale lock is never handed to the next call. */
  lemma IdleHoldsNothing(steps: seq<Step>, s: State, c: Session)
    requires Reaches(INITIAL, steps, s) && forall i | 0 <= i < |steps| :: Honest(steps[i])
    requires c in s.conns && s.conns[c] == Idle
    ensures c in s.held && s.held[c] == NONE
  {
    RunKeepsInv(INITIAL, steps, s);
    assert ConnOk(s, c);
  }

  /** A call between its grant and its last step, with the key, on connection c. */
  ghost predicate InProgress(s: State, c: Session, key: Key) {
    exists p :: p in s.calls && s.calls[p].conn == c && s.calls[p].key == key
                && s.calls[p].stage in {Running, Unlocking, Defective, Closing}
  }

  /** A try-lock is refused only on account of a call in progress or a connection whose close failed. */
  lemma RefusalHasReason(steps: seq<Step>, s: State, p: Call)
    requires Reaches(INITIAL, steps, s) && forall i | 0 <= i < |steps| :: Honest(steps[i])
    requires Enabled(s, TryDenied(p))
    ensures exists c :: c in s.conns && c in s.held && s.calls[p].key in s.held[c]
                        && (s.conns[c] == Lost || InProgress(s, c, s.calls[p].key))
  {
    RunKeepsInv(INITIAL, steps, s);
    var key := s.calls[p].key;
    var c :| c in s.held && c != s.calls[p].conn && key in s.held[c];
    HolderIsKnown(s, c, key);
  }

  lemma HolderIsKnown(s: State, c: Session, key: Key)
    requires Inv(s) && c in s.held && key in s.held[c]
    ensures s.conns[c] == Lost || InProgress(s, c, key)
  {
    assert ConnOk(s, c);
    if s.conns[c] != Lost {
      assert s.calls[s.conns[c].call].key == key;
    }
  }

  /** No call is ever stuck, and each of its steps brings it closer to its end; no other step does. */
  function StepsLeft(stage: Stage): nat {
    match stage
    case Reserved => 6
    case Running => 5
    case Unlocking => 4
    case Defective => 3
    case Closing => 2
    case Releasing => 1
  }

  predicate IsStepOf(step: Step, p: Call) {
    !step.Reap? && !step.Drop? && step.p == p
  }

  lemma CallAdvances(s: State, step: Step, p: Call)
    requires Inv(s) && Enabled(s, step) && p in s.calls
    ensures var t := After(s, step);
            if IsStepOf(step, p)
            then p !in t.calls || StepsLeft(t.calls[p].stage) < StepsLeft(s.calls[p].stage)
            else p in t.calls && t.calls[p] == s.calls[p]
    ensures exists own :: IsStepOf(own, p) && Honest(own) && Enabled(s, own)
  {
    CallStepsOn(s, step, p);
    var own := match s.calls[p].stage
      case Reserved => TryThrew(p, false)
      case Running => FnSettled(p)
      case Unlocking => UnlockThrew(p, false)
      case Defective => HookSettled(p)
      case Closing => CloseDone(p)
      case Releasing => ReleaseDone(p);
    assert IsStepOf(own, p) && Honest(own) && Enabled(s, own);
  }

  lemma CallStepsOn(s: State, step: Step, p: Call)
    requires Enabled(s, step) && p in s.calls
    ensures var t := After(s, step);
            if IsStepOf(step, p)
            then p !in t.calls || StepsLeft(t.calls[p].stage) < StepsLeft(s.calls[p].stage)
            else p in t.calls && t.calls[p] == s.calls[p]
  {
  }

  // ----- A connection whose unlock failed -----

  /** It is on its way to be closed, or closed, or lost in the attempt. */
  ghost predicate Spent(s: State, c: Session) {
    c in s.conns && (
      s.conns[c] == Lost || s.conns[c] == Closed
      || exists p :: s.conns[c] == Taken(p) && p in s.calls && s.calls[p].conn == c
                     && s.calls[p].stage in {Defective, Closing})
  }

  lemma StepKeepsSpent(s: State, step: Step, c: Session)
    requires Safe(s) && Enabled(s, step) && Spent(s, c)
    ensures Spent(After(s, step), c)
  {
    if s.conns[c].Taken? {
      var p := s.conns[c].call;
      var t := After(s, step);
      if t.conns[c] == s.conns[c] {
        assert t.conns[c] == Taken(p) && t.calls[p].conn == c;
      }
    }
  }

  lemma {:induction false} RunKeepsSpent(s: State, steps: seq<Step>, t: State, c: Session)
    requires Safe(s) && Reaches(s, steps, t) && Spent(s, c)
    ensures Spent(t, c)
    decreases |steps|
  {
    if steps != [] {
      StepKeepsSpent(s, steps[0], c);
      StepKeepsSafe(s, steps[0]);
      RunKeepsSpent(After(s, steps[0]), steps[1..], t, c);
    }
  }

  /** Once an unlock has failed, its connection is never in the pool again, so no later call gets it. */
  lemma DefectiveStaysOut(steps: seq<Step>, s: State, p: Call, undone: bool, more: seq<Step>, t: State)
    requires Reaches(INITIAL, steps, s) && Enabled(s, UnlockThrew(p, undone))
    requires Reaches(After(s, UnlockThrew(p, undone)), more, t)
    ensures var c := s.calls[p].conn; c in t.conns && t.conns[c] != Idle
    ensures forall q, key :: !Enabled(t, Reserve(q, s.calls[p].conn, key))
  {
    var r, c := After(s, UnlockThrew(p, undone)), s.calls[p].conn;
    RunKeepsSafe(INITIAL, steps, s);
    StepKeepsSafe(s, UnlockThrew(p, undone));
    assert r.conns[c] == Taken(p) && r.calls[p].conn == c;
    RunKeepsSpent(r, more, t, c);
  }

  // ----- What an undisturbed call does, and what a lost connection keeps -----

  /** Any new connection and any idle one can be reserved, no other. */
  lemma ReserveIff(steps: seq<Step>, s: State, p: Call, c: Session, key: Key)
    requires Reaches(INITIAL, steps, s)
    ensures Enabled(s, Reserve(p, c, key)) <==> p !in s.calls && (c !in s.conns || s.conns[c] == Idle)
  {
    RunKeepsSafe(INITIAL, steps, s);
  }

  /**
   * Wherever a call is about to try the lock, on a living session and with no other session holding the key,
   * it can get through to its end and leave no trace but an idle connection.
   */
  lemma CallCanReturn(steps: seq<Step>, s: State, p: Call)
    requires Reaches(INITIAL, steps, s) && forall i | 0 <= i < |steps| :: Honest(steps[i])
    requires p in s.calls && s.calls[p].stage == Reserved && s.calls[p].conn !in s.dropped
    requires forall d | d in s.held && d != s.calls[p].conn :: s.calls[p].key !in s.held[d]
    ensures Reaches(INITIAL, steps + [TryGranted(p)] + [FnSettled(p)] + [UnlockDone(p)] + [ReleaseDone(p)],
                    s.(calls := s.calls - {p}, conns := s.conns[s.calls[p].conn := Idle]))
  {
    RunKeepsInv(INITIAL, steps, s);
    var granted, done, out := GoesThrough(s, p);
    ReachesTwoMore(INITIAL, steps, s, TryGranted(p), granted, FnSettled(p), done);
    ReachesTwoMore(INITIAL, steps + [TryGranted(p)] + [FnSettled(p)], done, UnlockDone(p), out, ReleaseDone(p),
                   s.(calls := s.calls - {p}, conns := s.conns[s.calls[p].conn := Idle]));
  }

  lemma ReachesTwoMore(from: State, steps: seq<Step>, s: State, a: Step, t: State, b: Step, u: State)
    requires Reaches(from, steps, s) && Enabled(s, a) && t == After(s, a) && Enabled(t, b) && u == After(t, b)
    ensures Reaches(from, steps + [a] + [b], u)
  {
    ReachesMore(from, steps, s, a);
    ReachesMore(from, steps + [a], t, b);
  }

  lemma GoesThrough(s: State, p: Call) returns (granted: State, done: State, out: State)
    requires Inv(s) && p in s.calls && s.calls[p].stage == Reserved && s.calls[p].conn !in s.dropped
    requires forall d | d in s.held && d != s.calls[p].conn :: s.calls[p].key !in s.held[d]
    ensures Enabled(s, TryGranted(p)) && granted == After(s, TryGranted(p))
    ensures Enabled(granted, FnSettled(p)) && done == After(granted, FnSettled(p))
    ensures Enabled(done, UnlockDone(p)) && out == After(done, UnlockDone(p))
    ensures Enabled(out, ReleaseDone(p))
    ensures After(out, ReleaseDone(p)) == s.(calls := s.calls - {p}, conns := s.conns[s.calls[p].conn := Idle])
  {
    granted := GoesIn(s, p);
    done, out := ComesOut(s, granted, p);
    LeavesNoTrace(s, out, p);
  }

  lemma GoesIn(s: State, p: Call) returns (t: State)
    requires Inv(s) && p in s.calls && s.calls[p].stage == Reserved && s.calls[p].conn !in s.dropped
    requires forall d | d in s.held && d != s.calls[p].conn :: s.calls[p].key !in s.held[d]
    ensures Enabled(s, TryGranted(p)) && t == After(s, TryGranted(p))
    ensures s.held[s.calls[p].conn] == NONE
    ensures t == Go(WithHeld(s, s.calls[p].conn, multiset{s.calls[p].key}), p, Running)
  {
    assert ConnOk(s, s.calls[p].conn);
    t := After(s, TryGranted(p));
    assert NONE + multiset{s.calls[p].key} == multiset{s.calls[p].key};
  }

  lemma ComesOut(s: State, t: State, p: Call) returns (done: State, out: State)
    requires Shape(s) && p in s.calls && s.calls[p].conn !in s.dropped
    requires t == Go(WithHeld(s, s.calls[p].conn, multiset{s.calls[p].key}), p, Running)
    ensures Enabled(t, FnSettled(p)) && done == After(t, FnSettled(p))
    ensures Enabled(done, UnlockDone(p)) && out == After(done, UnlockDone(p))
    ensures out == s.(held := t.held[s.calls[p].conn := NONE], calls := s.calls[p := s.calls[p].(stage := Releasing)])
  {
    done := Go(t, p, Unlocking);
    out := After(done, UnlockDone(p));
    assert multiset{s.calls[p].key} - multiset{s.calls[p].key} == NONE;
    assert out.calls == s.calls[p := s.calls[p].(stage := Releasing)];
  }

  lemma LeavesNoTrace(s: State, out: State, p: Call)
    requires Shape(s) && p in s.calls && s.held[s.calls[p].conn] == NONE
    requires out.conns == s.conns && out.dropped == s.dropped && out.held.Keys == s.held.Keys
    requires out.held[s.calls[p].conn := NONE] == s.held
    requires out.held[s.calls[p].conn] == NONE
    requires out.calls == s.calls[p := s.calls[p].(stage := Releasing)]
    ensures Enabled(out, ReleaseDone(p))
    ensures After(out, ReleaseDone(p)) == s.(calls := s.calls - {p}, conns := s.conns[s.calls[p].conn := Idle])
  {
    assert out.calls - {p} == s.calls - {p};
  }

  /** A connection whose close failed without effect keeps its locks until the pool reaps it. */
  lemma LostKeepsLocks(steps: seq<Step>, s: State, p: Call)
    requires Reaches(INITIAL, steps, s) && p in s.calls && s.calls[p].stage == Closing
    ensures Enabled(s, CloseThrew(p, false))
    ensures var c, t := s.calls[p].conn, After(s, CloseThrew(p, false));
            && p !in t.calls && t.held == s.held && t.conns == s.conns[c := Lost]
            && Enabled(t, Reap(c)) && After(t, Reap(c)) == t.(conns := t.conns[c := Closed], held := t.held[c := NONE])
  {
    RunKeepsSafe(INITIAL, steps, s);
    CloseFails(s, p);
  }

  lemma CloseFails(s: State, p: Call)
    requires Shape(s) && p in s.calls && s.calls[p].stage == Closing
    ensures Enabled(s, CloseThrew(p, false))
    ensures var c, t := s.calls[p].conn, After(s, CloseThrew(p, false));
            && p !in t.calls && t.held == s.held && t.conns == s.conns[c := Lost]
            && Enabled(t, Reap(c)) && After(t, Reap(c)) == t.(conns := t.conns[c := Closed], held := t.held[c := NONE])
  {
  }

  // ----- Why the hypotheses are there -----

  lemma {:induction false} ReachesMore(s: State, steps: seq<Step>, t: State, step: Step)
    requires Reaches(s, steps, t) && Enabled(t, step)
    ensures Reaches(s, steps + [step], After(t, step))
    decreases |steps|
  {
    if steps == [] {
      assert (steps + [step])[1..] == [];
    } else {
      assert (steps + [step])[1..] == steps[1..] + [step];
      ReachesMore(After(s, steps[0]), steps[1..], t, step);
    }
  }

  /**
   * Wherever a call is inside `fn` on a dropped session, a second one gets in by its first two steps, unless
   * another session has the key already.
   */
  lemma DroppedAdmitsSecond(steps: seq<Step>, s: State, p: Call, q: Call, c: Session, key: Key)
    requires Reaches(INITIAL, steps, s) && InFn(s, p, key) && s.calls[p].conn in s.dropped
    requires q !in s.calls && c !in s.conns
    requires forall d | d in s.held && d != s.calls[p].conn :: key !in s.held[d]
    ensures exists t ::
      Reaches(INITIAL, steps + [Reserve(q, c, key)] + [TryGranted(q)], t) && InFn(t, p, key) && InFn(t, q, key)
  {
    RunKeepsSafe(INITIAL, steps, s);
    DroppedHoldsNothing(INITIAL, steps, s);
    SecondGetsIn(s, p, q, c, key);
    var r := After(s, Reserve(q, c, key));
    ReachesMore(INITIAL, steps, s, Reserve(q, c, key));
    ReachesMore(INITIAL, steps + [Reserve(q, c, key)], r, TryGranted(q));
  }

  lemma SecondGetsIn(s: State, p: Call, q: Call, c: Session, key: Key)
    requires Safe(s) && InFn(s, p, key) && q !in s.calls && c !in s.conns
    requires forall d | d in s.held :: key !in s.held[d]
    ensures Enabled(s, Reserve(q, c, key))
    ensures var r := After(s, Reserve(q, c, key));
            Enabled(r, TryGranted(q)) && InFn(After(r, TryGranted(q)), p, key) && InFn(After(r, TryGranted(q)), q, key)
  {
  }

  /** A dropped session has no locks and gets none. */
  lemma {:induction false} DroppedHoldsNothing(s: State, steps: seq<Step>, t: State)
    requires Reaches(s, steps, t) && forall c | c in s.dropped && c in s.held :: s.held[c] == NONE
    ensures forall c | c in t.dropped && c in t.held :: t.held[c] == NONE
    decreases |steps|
  {
    if steps != [] {
      var r := After(s, steps[0]);
      assert forall c | c in r.dropped && c in r.held :: r.held[c] == NONE;
      DroppedHoldsNothing(r, steps[1..], t);
    }
  }

  /** Such a state comes about: a session dropped while its call is inside `fn` lets a second call in. */
  lemma DropBreaksExclusion(key: Key) returns (steps: seq<Step>, s: State)
    ensures Reaches(INITIAL, steps, s) && forall i | 0 <= i < |steps| :: Honest(steps[i])
    ensures InFn(s, 0, key) && InFn(s, 1, key)
  {
    steps, s := DroppedInFn(key);
    var r := After(s, Reserve(1, 1, key));
    var t := After(r, TryGranted(1));
    ReachesTwoMore(INITIAL, steps, s, Reserve(1, 1, key), r, TryGranted(1), t);
    steps, s := steps + [Reserve(1, 1, key)] + [TryGranted(1)], t;
  }

  lemma DroppedInFn(key: Key) returns (steps: seq<Step>, s: State)
    ensures Reaches(INITIAL, steps, s) && forall i | 0 <= i < |steps| :: Honest(steps[i])
    ensures s == State(map[0 := Taken(0)], map[0 := NONE], {0}, map[0 := Progress(Running, 0, key)])
  {
    steps, s := Granted(key);
    ReachesMore(INITIAL, steps, s, Drop(0));
    steps, s := steps + [Drop(0)], After(s, Drop(0));
  }

  lemma Granted(key: Key) returns (steps: seq<Step>, s: State)
    ensures Reaches(INITIAL, steps, s) && forall i | 0 <= i < |steps| :: Honest(steps[i])
    ensures s == State(map[0 := Taken(0)], map[0 := multiset{key}], {}, map[0 := Progress(Running, 0, key)])
  {
    steps, s := [], INITIAL;
    ReachesMore(INITIAL, steps, s, Reserve(0, 0, key));
    steps, s := steps + [Reserve(0, 0, key)], After(s, Reserve(0, 0, key));
    ReachesMore(INITIAL, steps, s, TryGranted(0));
    steps, s := steps + [TryGranted(0)], After(s, TryGranted(0));
    assert NONE + multiset{key} == multiset{key};
    assert s.held == map[0 := multiset{key}] && s.conns == map[0 := Taken(0)];
  }

  /** A try-lock that throws after acquiring leaves the key with an idle connection: nobody runs, nobody else may. */
  lemma DishonestTryLeavesKeyStuck(key: Key) returns (steps: seq<Step>, s: State)
    ensures Reaches(INITIAL, steps, s)
    ensures s.conns == map[0 := Idle, 1 := Taken(1)] && s.dropped == {}
    ensures s.calls == map[1 := Progress(Reserved, 1, key)]
    ensures Enabled(s, TryDenied(1)) && !Enabled(s, TryGranted(1))
  {
    steps, s := StaleIdle(key);
    ReachesMore(INITIAL, steps, s, Reserve(1, 1, key));
    steps, s := steps + [Reserve(1, 1, key)], After(s, Reserve(1, 1, key));
    assert key in s.held[0];
  }

  lemma StaleIdle(key: Key) returns (steps: seq<Step>, s: State)
    ensures Reaches(INITIAL, steps, s)
    ensures s == State(map[0 := Idle], map[0 := multiset{key}], {}, map[])
  {
    steps, s := [], INITIAL;
    ReachesMore(INITIAL, steps, s, Reserve(0, 0, key));
    steps, s := steps + [Reserve(0, 0, key)], After(s, Reserve(0, 0, key));
    ReachesMore(INITIAL, steps, s, TryThrew(0, true));
    steps, s := steps + [TryThrew(0, true)], After(s, TryThrew(0, true));
    ReachesMore(INITIAL, steps, s, ReleaseDone(0));
    steps, s := steps + [ReleaseDone(0)], After(s, ReleaseDone(0));
    assert NONE + multiset{key} == multiset{key};
    assert s.held == map[0 := multiset{key}] && s.conns == map[0 := Idle] && s.calls == map[];
  }
}

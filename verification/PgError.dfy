/**
 * Which SQLSTATE a thrown value carries. A driver's error is wrapped by the query layer, so the code is
 * searched along the chain of causes: `pgSqlState` to its end, the end-to-end kit's `pgErrorCode` to
 * depth five. PostgreSQL drivers put the code in `code`, Bun's in `errno`.
 */
module PgError {
  import opened Wrappers
  import opened Basics

  /** A property of an object: text, or anything else including absent. */
  datatype Field = Text(text: string) | NotText

  /**
   * A thrown value. `Primitive` is a value without properties of its own; a callable holder is a function,
   * which can have properties but is no object to `typeof`.
   */
  datatype Thrown =
    | Nothing
    | Primitive
    | Holder(callable: bool, code: Field, errno: Field, constraint: Field, message: Field, cause: Thrown)

  const UNIQUE_VIOLATION := "23505"
  const DEADLOCK := "40P01"
  const SERIALIZATION := "40001"
  const DEPTH: nat := 5

  predicate FiveWide(s: string) {
    |s| == 5 && forall i | 0 <= i < |s| :: IsDigit(s[i]) || 'A' <= s[i] <= 'Z'
  }

  predicate HasDigit(s: string) {
    exists i | 0 <= i < |s| :: IsDigit(s[i])
  }

  predicate IsSqlState(s: string) {
    FiveWide(s) && HasDigit(s)
  }

  function SqlStateOf(h: Thrown): Option<string>
    requires h.Holder?
  {
    if h.code.Text? && IsSqlState(h.code.text) then Some(h.code.text)
    else if h.errno.Text? && IsSqlState(h.errno.text) then Some(h.errno.text)
    else None
  }

  /** Five characters, each a digit or a capital letter of ASCII, and at least one of them a digit. */
  lemma StateWord(s: string)
    ensures IsSqlState(s) <==>
            && |s| == 5
            && (forall i | 0 <= i < 5 :: 48 <= s[i] as int <= 57 || 65 <= s[i] as int <= 90)
            && exists i | 0 <= i < 5 :: 48 <= s[i] as int <= 57
  {
    assert '0' as int == 48 && '9' as int == 57 && 'A' as int == 65 && 'Z' as int == 90;
    if IsSqlState(s) {
      var i :| 0 <= i < |s| && IsDigit(s[i]);
      assert 48 <= s[i] as int <= 57;
    }
    if i :| 0 <= i < |s| && 48 <= s[i] as int <= 57 {
      assert IsDigit(s[i]);
    }
  }

  /** A layer's state stands in its `code`, or in its `errno` when `code` holds no state. */
  lemma StateOfLayer(h: Thrown, s: string)
    requires h.Holder?
    ensures SqlStateOf(h) == Some(s) <==>
            IsSqlState(s)
            && (h.code == Text(s) || (h.errno == Text(s) && forall t | IsSqlState(t) :: h.code != Text(t)))
  {
  }

  /** The word that the kit takes of a layer, with or without a digit. */
  lemma WordOfLayer(h: Thrown, s: string)
    requires h.Holder?
    ensures FiveWideOf(h) == Some(s) <==>
            FiveWide(s)
            && (h.code == Text(s) || (h.errno == Text(s) && forall t | FiveWide(t) :: h.code != Text(t)))
  {
  }

  // ----- The whole chain -----

  /** The layers a walk along `cause` meets, callables and all. */
  function Layers(err: Thrown): (r: seq<Thrown>)
    ensures forall h <- r :: h.Holder?
  {
    if err.Holder? then [err] + Layers(err.cause) else []
  }

  /** The layers before the first value that is no object. */
  function Objects(err: Thrown): (r: seq<Thrown>)
    ensures forall h <- r :: h.Holder? && !h.callable
  {
    if err.Holder? && !err.callable then [err] + Objects(err.cause) else []
  }

  /** The state of the first layer that has one. */
  function FirstState(layers: seq<Thrown>): (r: Option<string>)
    requires forall h <- layers :: h.Holder?
    ensures r.None? <==> forall h <- layers :: SqlStateOf(h).None?
    ensures r.Some? ==> IsSqlState(r.value) && exists h <- layers :: SqlStateOf(h) == r
  {
    if layers == [] then None
    else if SqlStateOf(layers[0]).Some? then SqlStateOf(layers[0])
    else FirstState(layers[1..])
  }

  method PgSqlState(err: Thrown) returns (r: Option<string>)
    ensures r == FirstState(Objects(err))
  {
    var cur := err;
    while cur.Holder? && !cur.callable
      invariant FirstState(Objects(cur)) == FirstState(Objects(err))
      decreases cur
    {
      var state := SqlStateOf(cur);
      if state.Some? {
        return state;
      }
      cur := cur.cause;
    }
    return None;
  }

  method IsUniqueViolation(err: Thrown) returns (r: bool)
    ensures r <==> FirstState(Objects(err)) == Some("23505")
  {
    var state := PgSqlState(err);
    return state == Some(UNIQUE_VIOLATION);
  }

  /** The layer whose constraint is reported: the first unique violation, whatever states lie above it. */
  function FirstUnique(layers: seq<Thrown>): (r: Option<Thrown>)
    requires forall h <- layers :: h.Holder?
    ensures r.Some? ==> r.value in layers && SqlStateOf(r.value) == Some(UNIQUE_VIOLATION)
    ensures r.None? <==> forall h <- layers :: SqlStateOf(h) != Some(UNIQUE_VIOLATION)
  {
    if layers == [] then None
    else if SqlStateOf(layers[0]) == Some(UNIQUE_VIOLATION) then Some(layers[0])
    else FirstUnique(layers[1..])
  }

  method UniqueViolationConstraint(err: Thrown) returns (r: Option<string>)
    ensures r.Some? <==> var h := FirstUnique(Objects(err)); h.Some? && h.value.constraint.Text?
    ensures r.Some? ==> FirstUnique(Objects(err)).value.constraint == Text(r.value)
  {
    var cur := err;
    while cur.Holder? && !cur.callable
      invariant FirstUnique(Objects(cur)) == FirstUnique(Objects(err))
      decreases cur
    {
      if SqlStateOf(cur) == Some(UNIQUE_VIOLATION) {
        return if cur.constraint.Text? then Some(cur.constraint.text) else None;
      }
      cur := cur.cause;
    }
    return None;
  }

  /** Layer k carries the code, and no layer above it has a state. */
  predicate FirstCarrier(layers: seq<Thrown>, k: nat, code: string)
    requires forall h <- layers :: h.Holder?
  {
    k < |layers| && SqlStateOf(layers[k]) == Some(code) && forall j | 0 <= j < k :: SqlStateOf(layers[j]).None?
  }

  /** The state of a chain is the code that some layer carries first. */
  lemma {:induction false} FirstStateIff(layers: seq<Thrown>, code: string)
    requires forall h <- layers :: h.Holder?
    ensures FirstState(layers) == Some(code) <==> exists k :: FirstCarrier(layers, k, code)
  {
    if layers != [] {
      FirstStateIff(layers[1..], code);
      if SqlStateOf(layers[0]).Some? {
        assert SqlStateOf(layers[0]) == Some(code) ==> FirstCarrier(layers, 0, code);
      } else {
        assert forall k: nat :: FirstCarrier(layers[1..], k, code) <==> FirstCarrier(layers, k + 1, code);
        assert !FirstCarrier(layers, 0, code);
        forall k: nat | FirstCarrier(layers, k, code) ensures k > 0 && FirstCarrier(layers[1..], k - 1, code) {
        }
      }
    }
  }

  function TransientCode(err: Thrown): Option<string> {
    var state := FirstState(Objects(err));
    if state == Some(DEADLOCK) || state == Some(SERIALIZATION) then state else None
  }

  /** A deadlock or a serialization failure, if that is the first state of the chain. */
  method TransientTxFailureCode(err: Thrown) returns (r: Option<string>)
    ensures r == TransientCode(err)
    ensures r.Some? ==> r.value in {"40P01", "40001"} && exists k :: FirstCarrier(Objects(err), k, r.value)
    ensures r.None? ==> forall k, code | code in {"40P01", "40001"} :: !FirstCarrier(Objects(err), k, code)
  {
    FirstStateIff(Objects(err), DEADLOCK);
    FirstStateIff(Objects(err), SERIALIZATION);
    var state := PgSqlState(err);
    return if state == Some(DEADLOCK) || state == Some(SERIALIZATION) then state else None;
  }

  /** The constraint found belongs to what the error is classified as exactly if no state lies above its layer. */
  lemma {:induction false} ConstraintMatchesState(layers: seq<Thrown>, k: nat)
    requires forall h <- layers :: h.Holder?
    requires k < |layers| && SqlStateOf(layers[k]) == Some(UNIQUE_VIOLATION)
    requires forall j | 0 <= j < k :: SqlStateOf(layers[j]) != Some(UNIQUE_VIOLATION)
    ensures FirstUnique(layers) == Some(layers[k])
    ensures FirstState(layers) == Some(UNIQUE_VIOLATION) <==> forall j | 0 <= j < k :: SqlStateOf(layers[j]).None?
  {
    if k > 0 {
      ConstraintMatchesState(layers[1..], k - 1);
      assert forall j | 0 <= j < k - 1 :: layers[1..][j] == layers[j + 1];
      assert forall j | 0 < j < k :: layers[j] == layers[1..][j - 1];
    }
  }

  /** The constraint is looked for past states that are no unique violation, so the two answers can disagree. */
  lemma ConstraintWithoutViolation()
    ensures exists err, name ::
      FirstState(Objects(err)) != Some(UNIQUE_VIOLATION)
      && FirstUnique(Objects(err)).Some? && FirstUnique(Objects(err)).value.constraint == Text(name)
  {
    var inner := Holder(false, Text(UNIQUE_VIOLATION), NotText, Text("k"), NotText, Nothing);
    var err := Holder(false, Text(DEADLOCK), NotText, NotText, NotText, inner);
    assert Objects(inner) == [inner] && Objects(err) == [err, inner] by {
      assert Objects(Nothing) == [];
    }
    assert IsDigit(DEADLOCK[0]) && IsDigit(UNIQUE_VIOLATION[0]);
    assert SqlStateOf(err) == Some(DEADLOCK) && SqlStateOf(inner) == Some(UNIQUE_VIOLATION);
    assert [err, inner][1..] == [inner];
    assert FirstState([err, inner]) == Some(DEADLOCK) && FirstUnique([err, inner]) == Some(inner);
    assert DEADLOCK[1] != UNIQUE_VIOLATION[1];
    assert inner.constraint == Text("k");
  }

  // ----- Chains that can return to themselves -----

  /** An error among others on the heap; without a cause, or with one that is no object. */
  datatype Cell = Cell(
    callable: bool, code: Field, errno: Field, constraint: Field, message: Field, cause: Option<nat>)

  type Errors = nat -> Cell

  function Layer(c: Cell, cause: Thrown): (h: Thrown)
    ensures h.Holder?
  {
    Holder(c.callable, c.code, c.errno, c.constraint, c.message, cause)
  }

  /** The two searches along the causes: for any state, and for the constraint of a unique violation. */
  datatype Search = ForState | ForConstraint

  /** What a search answers at a layer; None if it goes on to the next. */
  function Verdict(search: Search, h: Thrown): Option<Option<string>>
    requires h.Holder?
  {
    match search
    case ForState => if SqlStateOf(h).Some? then Some(SqlStateOf(h)) else None
    case ForConstraint =>
      if SqlStateOf(h) != Some(UNIQUE_VIOLATION) then None
      else Some(if h.constraint.Text? then Some(h.constraint.text) else None)
  }

  /** Where a search stands: at a layer, or done. */
  datatype Walk = At(cell: nat) | Done(answer: Option<string>)

  function Advance(search: Search, heap: Errors, w: Walk): Walk {
    if w.Done? then w
    else
      var c := heap(w.cell);
      if c.callable then Done(None)
      else
        var verdict := Verdict(search, Layer(c, Nothing));
        if verdict.Some? then Done(verdict.value)
        else if c.cause.None? then Done(None)
        else At(c.cause.value)
  }

  function WalkFor(search: Search, heap: Errors, w: Walk, n: nat): Walk
    decreases n
  {
    if n == 0 then w else WalkFor(search, heap, Advance(search, heap, w), n - 1)
  }

  function NthCell(heap: Errors, e: nat, k: nat): Option<nat>
    decreases k
  {
    if k == 0 then Some(e)
    else if heap(e).cause.None? then None
    else NthCell(heap, heap(e).cause.value, k - 1)
  }

  /** Layer k has an answer for the search, or is the last, or no object. */
  predicate Halts(search: Search, heap: Errors, e: nat, k: nat) {
    var n := NthCell(heap, e, k);
    n.Some? && (
      var c := heap(n.value);
      c.callable || c.cause.None? || Verdict(search, Layer(c, Nothing)).Some?)
  }

  lemma {:induction false} DoneStays(search: Search, heap: Errors, w: Walk, n: nat)
    requires w.Done?
    ensures WalkFor(search, heap, w, n) == w
  {
    if n > 0 {
      DoneStays(search, heap, w, n - 1);
    }
  }

  lemma {:induction false} DoneWithin(search: Search, heap: Errors, e: nat, n: nat)
    ensures WalkFor(search, heap, At(e), n).Done? <==> exists k: nat :: k < n && Halts(search, heap, e, k)
    decreases n
  {
    if n > 0 {
      var next := Advance(search, heap, At(e));
      assert Halts(search, heap, e, 0) <==> next.Done?;
      if next.Done? {
        DoneStays(search, heap, next, n - 1);
      } else {
        DoneWithin(search, heap, next.cell, n - 1);
        assert forall k: nat :: Halts(search, heap, e, k + 1) <==> Halts(search, heap, next.cell, k);
        forall k: nat | k < n && Halts(search, heap, e, k) ensures k > 0 && Halts(search, heap, next.cell, k - 1) {
        }
      }
    }
  }

  /**
   * A search comes to an end exactly if the chain does or a layer of it has what is searched for: any state,
   * or the state of a unique violation. On a cycle without one it goes on for ever.
   */
  lemma SearchEndsIff(search: Search, heap: Errors, e: nat)
    ensures (exists n: nat :: WalkFor(search, heap, At(e), n).Done?) <==> exists k: nat :: Halts(search, heap, e, k)
  {
    if n: nat :| WalkFor(search, heap, At(e), n).Done? {
      DoneWithin(search, heap, e, n);
    }
    if k: nat :| Halts(search, heap, e, k) {
      DoneWithin(search, heap, e, k + 1);
    }
  }

  lemma {:induction false} SelfCauseIsCycle(heap: Errors, e: nat, k: nat)
    requires heap(e).cause == Some(e)
    ensures NthCell(heap, e, k) == Some(e)
  {
    if k > 0 {
      SelfCauseIsCycle(heap, e, k - 1);
    }
  }

  /** On an error that is its own cause and has another state, one search ends at once and the other never. */
  lemma SearchesPart(heap: Errors, e: nat, n: nat)
    requires heap(e).cause == Some(e) && !heap(e).callable
    requires SqlStateOf(Layer(heap(e), Nothing)).Some?
    requires SqlStateOf(Layer(heap(e), Nothing)) != Some(UNIQUE_VIOLATION)
    ensures WalkFor(ForState, heap, At(e), 1).Done? && !WalkFor(ForConstraint, heap, At(e), n).Done?
  {
    assert WalkFor(ForState, heap, At(e), 1) == Advance(ForState, heap, At(e));
    forall k: nat ensures !Halts(ForConstraint, heap, e, k) {
      SelfCauseIsCycle(heap, e, k);
    }
    DoneWithin(ForConstraint, heap, e, n);
  }

  /** The chain cut off after n layers. */
  function Unfold(heap: Errors, e: nat, n: nat): Thrown
    decreases n
  {
    if n == 0 then Nothing
    else
      var c := heap(e);
      Layer(c, if c.cause.Some? then Unfold(heap, c.cause.value, n - 1) else Nothing)
  }

  /** What a search answers on the layers of a finite chain. */
  function FirstVerdict(search: Search, layers: seq<Thrown>): Option<string>
    requires forall h <- layers :: h.Holder?
  {
    if layers == [] then None
    else if Verdict(search, layers[0]).Some? then Verdict(search, layers[0]).value
    else FirstVerdict(search, layers[1..])
  }

  /** It is the first state, and the constraint of the first unique violation. */
  lemma {:induction false} FirstVerdictIs(layers: seq<Thrown>)
    requires forall h <- layers :: h.Holder?
    ensures FirstVerdict(ForState, layers) == FirstState(layers)
    ensures FirstVerdict(ForConstraint, layers)
         == var h := FirstUnique(layers);
            if h.Some? && h.value.constraint.Text? then Some(h.value.constraint.text) else None
  {
    if layers != [] {
      FirstVerdictIs(layers[1..]);
    }
  }

  function VerdictWithin(search: Search, heap: Errors, e: nat, m: nat): Option<string> {
    FirstVerdict(search, Objects(Unfold(heap, e, m)))
  }

  /** What a search will answer, if no more than m layers matter. */
  function Answer(search: Search, heap: Errors, w: Walk, m: nat): Option<string> {
    match w
    case Done(answer) => answer
    case At(e) => VerdictWithin(search, heap, e, m)
  }

  lemma AdvanceKeepsAnswer(search: Search, heap: Errors, w: Walk, m: nat)
    requires m > 0
    ensures Answer(search, heap, w, m) == Answer(search, heap, Advance(search, heap, w), m - 1)
  {
    if w.At? {
      var h := Unfold(heap, w.cell, m);
      assert Verdict(search, h) == Verdict(search, Layer(heap(w.cell), Nothing));
      VerdictOfHolder(search, h);
    }
  }

  lemma VerdictOfHolder(search: Search, h: Thrown)
    requires h.Holder?
    ensures FirstVerdict(search, Objects(h))
         == if h.callable then None
            else if Verdict(search, h).Some? then Verdict(search, h).value
            else FirstVerdict(search, Objects(h.cause))
    ensures h.cause.Nothing? ==> FirstVerdict(search, Objects(h.cause)) == None
  {
    assert !h.callable ==> Objects(h) == [h] + Objects(h.cause) && Objects(h)[1..] == Objects(h.cause);
  }

  /** When a search ends, its answer is that on the finite chain, cut off anywhere behind its end. */
  lemma {:induction false} SearchIsFirstVerdict(search: Search, heap: Errors, w: Walk, n: nat, m: nat)
    requires n <= m && WalkFor(search, heap, w, n).Done?
    ensures WalkFor(search, heap, w, n).answer == Answer(search, heap, w, m)
    decreases n
  {
    if w.Done? {
      DoneStays(search, heap, w, n);
    } else {
      var next := Advance(search, heap, w);
      AdvanceKeepsAnswer(search, heap, w, m);
      SearchIsFirstVerdict(search, heap, next, n - 1, m - 1);
    }
  }

  // ----- Wrapping -----

  /** `err` under further layers, the first one outermost. */
  function Wrap(layers: seq<Thrown>, err: Thrown): (r: Thrown)
    requires forall h <- layers :: h.Holder?
  {
    if layers == [] then err else layers[0].(cause := Wrap(layers[1..], err))
  }

  predicate Mute(layers: seq<Thrown>) {
    forall h <- layers :: h.Holder? && !h.callable && SqlStateOf(h).None?
  }

  /** Layers without a state change no verdict, however many. */
  lemma {:induction false} WrappingIsInvisible(layers: seq<Thrown>, err: Thrown)
    requires Mute(layers)
    ensures FirstState(Objects(Wrap(layers, err))) == FirstState(Objects(err))
    ensures TransientCode(Wrap(layers, err)) == TransientCode(err)
    ensures FirstUnique(Objects(Wrap(layers, err))) == FirstUnique(Objects(err))
  {
    if layers != [] {
      var inner := Wrap(layers[1..], err);
      var w := layers[0].(cause := inner);
      WrappingIsInvisible(layers[1..], err);
      assert Objects(w)[1..] == Objects(inner);
      assert SqlStateOf(w) == SqlStateOf(layers[0]);
    }
  }

  // ----- The kit's depth-bounded variant -----

  function FiveWideOf(h: Thrown): Option<string>
    requires h.Holder?
  {
    if h.code.Text? && FiveWide(h.code.text) then Some(h.code.text)
    else if h.errno.Text? && FiveWide(h.errno.text) then Some(h.errno.text)
    else None
  }

  function FirstFiveWide(layers: seq<Thrown>): (r: Option<string>)
    requires forall h <- layers :: h.Holder?
  {
    if layers == [] then None
    else if FiveWideOf(layers[0]).Some? then FiveWideOf(layers[0])
    else FirstFiveWide(layers[1..])
  }

  function Upto<T>(s: seq<T>, n: nat): (r: seq<T>)
    ensures forall x <- r :: x in s
  {
    if |s| <= n then s else s[..n]
  }

  function KitCode(err: Thrown): Option<string> {
    FirstFiveWide(Upto(Layers(err), DEPTH))
  }

  method PgErrorCode(err: Thrown) returns (r: Option<string>)
    ensures r == KitCode(err)
    ensures forall k: nat | FirstHit(err, k) :: r == FiveWideOf(Layers(err)[k])
    ensures r.Some? ==> exists k :: FirstHit(err, k)
  {
    KitCodeIsFirstHit(err);
    var cur, depth := err, 0;
    while !cur.Nothing? && depth < DEPTH
      invariant depth <= DEPTH
      invariant FirstFiveWide(Upto(Layers(cur), DEPTH - depth)) == KitCode(err)
    {
      if cur.Holder? {
        if cur.code.Text? && FiveWide(cur.code.text) {
          return Some(cur.code.text);
        }
        if cur.errno.Text? && FiveWide(cur.errno.text) {
          return Some(cur.errno.text);
        }
        assert Upto(Layers(cur), DEPTH - depth)[1..] == Upto(Layers(cur.cause), DEPTH - depth - 1);
      }
      cur := if cur.Holder? then cur.cause else Nothing;
      depth := depth + 1;
    }
    return None;
  }

  /** Layer k is the first of the chain to carry a five-wide word, and near enough for the kit to see it. */
  predicate FirstHit(err: Thrown, k: nat) {
    var layers := Layers(err);
    k < |layers| && k < 5 && FiveWideOf(layers[k]).Some?
    && forall j | 0 <= j < k :: FiveWideOf(layers[j]).None?
  }

  lemma {:induction false} FirstFiveWideAt(layers: seq<Thrown>, k: nat)
    requires forall h <- layers :: h.Holder?
    requires k < |layers| && FiveWideOf(layers[k]).Some? && forall j | 0 <= j < k :: FiveWideOf(layers[j]).None?
    ensures FirstFiveWide(layers) == FiveWideOf(layers[k])
  {
    if k > 0 {
      FirstFiveWideAt(layers[1..], k - 1);
    }
  }

  lemma {:induction false} FirstFiveWideNone(layers: seq<Thrown>)
    requires forall h <- layers :: h.Holder? && FiveWideOf(h).None?
    ensures FirstFiveWide(layers) == None
  {
    if layers != [] {
      FirstFiveWideNone(layers[1..]);
    }
  }

  lemma {:induction false} FirstStateSplit(a: seq<Thrown>, b: seq<Thrown>)
    requires forall h <- a + b :: h.Holder?
    requires forall h <- a :: SqlStateOf(h).None?
    ensures FirstState(a + b) == FirstState(b)
  {
    if a == [] {
      assert a + b == b;
    } else {
      assert (a + b)[1..] == a[1..] + b;
      FirstStateSplit(a[1..], b);
    }
  }

  lemma {:induction false} ObjectsAreLayers(err: Thrown)
    ensures |Objects(err)| <= |Layers(err)|
    ensures Layers(err)[..|Objects(err)|] == Objects(err)
    ensures |Objects(err)| < |Layers(err)| ==> Layers(err)[|Objects(err)|].callable
    decreases err
  {
    if err.Holder? && !err.callable {
      ObjectsAreLayers(err.cause);
    }
  }

  /** A state is a five-wide word, and the word the kit takes first is the state unless it has no digit. */
  lemma StateIsFiveWide(h: Thrown)
    requires h.Holder?
    ensures FiveWideOf(h).None? ==> SqlStateOf(h).None?
    ensures FiveWideOf(h).Some? ==> (SqlStateOf(h) == FiveWideOf(h) <==> HasDigit(FiveWideOf(h).value))
  {
  }

  /** The kit's answer is the word of the first hit. */
  lemma KitCodeIsFirstHit(err: Thrown)
    ensures forall k: nat | FirstHit(err, k) :: KitCode(err) == FiveWideOf(Layers(err)[k])
    ensures KitCode(err).Some? ==> exists k :: FirstHit(err, k)
  {
    var seen := Upto(Layers(err), DEPTH);
    forall k: nat | FirstHit(err, k) ensures KitCode(err) == FiveWideOf(Layers(err)[k]) {
      FirstFiveWideAt(seen, k);
    }
    if forall k :: !FirstHit(err, k) {
      NoFirstHit(err, |seen|);
      FirstFiveWideNone(seen);
    }
  }

  /** When the kit sees a word, the two agree exactly if the word has a digit and no callable lies above it. */
  lemma AgreementOnHit(err: Thrown, k: nat)
    requires FirstHit(err, k)
    ensures KitCode(err) == FirstState(Objects(err)) <==>
      k < |Objects(err)| && HasDigit(FiveWideOf(Layers(err)[k]).value)
  {
    var layers, objects := Layers(err), Objects(err);
    ObjectsAreLayers(err);
    assert Upto(layers, DEPTH)[k] == layers[k];
    FirstFiveWideAt(Upto(layers, DEPTH), k);
    forall j | 0 <= j < |objects| ensures objects[j] == layers[j] {
      assert layers[..|objects|][j] == layers[j];
    }
    var n := if k < |objects| then k else |objects|;
    forall h <- objects[..n] ensures SqlStateOf(h).None? {
      StateIsFiveWide(h);
    }
    assert objects == objects[..n] + objects[n..];
    FirstStateSplit(objects[..n], objects[n..]);
    StateIsFiveWide(layers[k]);
    if k < |objects| {
      assert objects[n..][0] == layers[k];
    }
  }

  /** When it sees none, they agree exactly if no object behind the fifth layer carries a state. */
  lemma AgreementWithoutHit(err: Thrown)
    requires forall k: nat :: !FirstHit(err, k)
    ensures KitCode(err) == FirstState(Objects(err)) <==>
      forall k | 5 <= k < |Objects(err)| :: SqlStateOf(Objects(err)[k]).None?
  {
    var layers, objects := Layers(err), Objects(err);
    NoFirstHit(err, |Upto(layers, DEPTH)|);
    FirstFiveWideNone(Upto(layers, DEPTH));
    ObjectsAreLayers(err);
    forall k | 0 <= k < |objects| && k < DEPTH ensures SqlStateOf(objects[k]).None? {
      assert objects[k] == layers[..|objects|][k] == layers[k];
      StateIsFiveWide(layers[k]);
    }
  }

  lemma {:induction false} NoFirstHit(err: Thrown, n: nat)
    requires n <= |Layers(err)| && n <= DEPTH
    requires forall k: nat :: !FirstHit(err, k)
    ensures forall k | 0 <= k < n :: FiveWideOf(Layers(err)[k]).None?
  {
    if n > 0 {
      NoFirstHit(err, n - 1);
      assert !FirstHit(err, n - 1);
    }
  }

  /** In particular on chains of at most five objects whose five-wide words all have a digit. */
  lemma ShortChainsAgree(err: Thrown)
    requires Layers(err) == Objects(err) && |Layers(err)| <= 5
    requires forall h <- Layers(err) :: FiveWideOf(h).Some? ==> HasDigit(FiveWideOf(h).value)
    ensures KitCode(err) == FirstState(Objects(err))
  {
    if k: nat :| FirstHit(err, k) {
      AgreementOnHit(err, k);
    } else {
      AgreementWithoutHit(err);
    }
  }

  lemma {:induction false} WrapLayers(layers: seq<Thrown>, err: Thrown)
    requires forall h <- layers :: h.Holder?
    ensures |Layers(Wrap(layers, err))| >= |layers|
    ensures forall k | 0 <= k < |layers| :: FiveWideOf(Layers(Wrap(layers, err))[k]) == FiveWideOf(layers[k])
  {
    if layers != [] {
      WrapLayers(layers[1..], err);
    }
  }

  /** To the kit wrapping is not invisible: five layers without a code hide any error. */
  lemma FiveWrapsHideFromTheKit(layers: seq<Thrown>, err: Thrown)
    requires |layers| == 5 && forall h <- layers :: h.Holder? && FiveWideOf(h).None?
    ensures KitCode(Wrap(layers, err)) == None
  {
    WrapLayers(layers, err);
    FirstFiveWideNone(Upto(Layers(Wrap(layers, err)), DEPTH));
  }

  // ----- Tolerated migration failures -----

  const ALLOWLIST: set<string> := {
    "0055_session_anchors_backfill.sql",
    "0056_ledger_operations_backfill.sql",
    "0057_payment_orders_fk_ledger_operations.sql"}

  const UNDEFINED_TABLE := "42P01"

  function Messages(layers: seq<Thrown>): (r: seq<string>)
    requires forall h <- layers :: h.Holder?
    ensures forall m :: m in r <==> exists h <- layers :: h.message == Text(m)
  {
    if layers == [] then []
    else (if layers[0].message.Text? then [layers[0].message.text] else []) + Messages(layers[1..])
  }

  lemma UptoOfHolder(h: Thrown, depth: nat)
    requires h.Holder? && depth > 0
    ensures var all := Upto(Layers(h), depth); |all| > 0 && all[0] == h && all[1..] == Upto(Layers(h.cause), depth - 1)
  {
  }

  lemma MessagesOfHolder(before: seq<string>, h: Thrown, depth: nat)
    requires h.Holder? && depth > 0
    ensures before + Messages(Upto(Layers(h), depth))
         == (if h.message.Text? then before + [h.message.text] else before) + Messages(Upto(Layers(h.cause), depth - 1))
  {
    UptoOfHolder(h, depth);
    var rest := Messages(Upto(Layers(h.cause), depth - 1));
    if h.message.Text? {
      Assoc(before, [h.message.text], rest);
    } else {
      assert [] + rest == rest;
    }
  }

  method ChainMessages(err: Thrown) returns (messages: seq<string>)
    ensures messages == Messages(Upto(Layers(err), DEPTH))
  {
    messages := [];
    var cur, depth := err, 0;
    while !cur.Nothing? && depth < DEPTH
      invariant depth <= DEPTH
      invariant messages + Messages(Upto(Layers(cur), DEPTH - depth)) == Messages(Upto(Layers(err), DEPTH))
    {
      if cur.Holder? {
        MessagesOfHolder(messages, cur, DEPTH - depth);
        if cur.message.Text? {
          messages := messages + [cur.message.text];
        }
      }
      cur := if cur.Holder? then cur.cause else Nothing;
      depth := depth + 1;
    }
  }

  /** At least one character and no quote between the two texts, somewhere. */
  predicate Encloses(m: string, open: string, close: string) {
    exists i, j | 0 <= i < j <= |m| ::
      open <= m[i..] && i + |open| < j && close <= m[j..] && forall k | i + |open| <= k < j :: m[k] != '"'
  }

  /** The text names a relation, in quotes, that does not exist. */
  predicate NamesMissingRelation(m: string) {
    Encloses(m, "relation \"", "\" does not exist")
  }

  /** A text, then the word and a name of at least one character in quotes, then the complaint, then any text. */
  lemma MissingRelationIs(m: string)
    ensures NamesMissingRelation(m) <==>
            exists before: string, name: string, behind: string | name != "" && '"' !in name ::
              m == before + "relation \"" + name + "\" does not exist" + behind
  {
    if NamesMissingRelation(m) {
      var before, name, behind := Cut(m, "relation \"", "\" does not exist");
    }
    if before: string, name: string, behind: string :|
      name != "" && '"' !in name && m == before + "relation \"" + name + "\" does not exist" + behind
    {
      Enclosed(before, "relation \"", name, "\" does not exist", behind);
    }
  }

  lemma Cut(m: string, open: string, close: string) returns (before: string, name: string, behind: string)
    requires Encloses(m, open, close)
    ensures name != "" && '"' !in name && m == before + open + name + close + behind
  {
    var i, j :| 0 <= i < j <= |m| && open <= m[i..] && i + |open| < j && close <= m[j..]
                && forall k | i + |open| <= k < j :: m[k] != '"';
    before, name, behind := m[..i], m[i + |open|..j], m[j..][|close|..];
    assert m[i..][..|open|] == open && m[j..][..|close|] == close;
    CutIn(m, i, i + |open|, j, j + |close|);
    assert '"' !in name;
  }

  lemma CutIn(m: string, a: nat, b: nat, c: nat, d: nat)
    requires a <= b <= c <= d <= |m|
    ensures m == m[..a] + m[a..][..b - a] + m[b..c] + m[c..][..d - c] + m[c..][d - c..]
  {
    assert m == m[..a] + m[a..b] + m[b..c] + m[c..d] + m[d..];
    assert m[a..][..b - a] == m[a..b] && m[c..][..d - c] == m[c..d] && m[c..][d - c..] == m[d..];
  }

  lemma Enclosed(before: string, open: string, name: string, close: string, behind: string)
    requires name != "" && '"' !in name
    ensures Encloses(before + open + name + close + behind, open, close)
  {
    var m, i, j := before + open + name + close + behind, |before|, |before| + |open| + |name|;
    assert m[i..] == open + (name + close + behind) && m[j..] == close + behind;
    assert forall k | i + |open| <= k < j :: m[k] == name[k - i - |open|];
  }

  method ReplayTolerates(err: Thrown, file: string) returns (r: bool)
    ensures r <==> (
      file in {
        "0055_session_anchors_backfill.sql", "0056_ledger_operations_backfill.sql",
        "0057_payment_orders_fk_ledger_operations.sql"}
      && KitCode(err) == Some("42P01")
      && exists h <- Upto(Layers(err), DEPTH) :: h.message.Text? && NamesMissingRelation(h.message.text))
  {
    if file !in ALLOWLIST {
      return false;
    }
    var code := PgErrorCode(err);
    if code != Some(UNDEFINED_TABLE) {
      return false;
    }
    var messages := ChainMessages(err);
    r := exists m <- messages :: NamesMissingRelation(m);
  }
}

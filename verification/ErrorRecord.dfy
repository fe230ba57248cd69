/**
 * Errors as data: a thrown value with its chain of causes becomes a record, cut off below a fixed depth.
 * Causes can form a cycle, so the values are a heap of errors that refer to each other.
 */
module ErrorRecord {
  import opened Wrappers

  /** Key to JSON value, the value as its text. */
  type Context = map<string, string>

  datatype Nature = Business(category: string) | Infrastructure | Defect

  /** Other values: strings, numbers, plain objects; None if turning one into text throws. */
  datatype Value = Undefined | Ref(error: nat) | Other(text: Option<string>)

  /** An error of the contract's own classes, or any other Error. */
  datatype Node =
    | Contract(
        nature: Nature, code: string, message: string, context: Option<Context>,
        annotations: seq<Context>, retryAfterMs: Option<int>, cause: Value)
    | Foreign(name: string, message: string, cause: Value)

  type Heap = nat -> Node

  const MAX_CAUSE_DEPTH: nat := 10
  const UNHANDLED := "errors.unhandled"
  const NON_ERROR := "errors.non_error"

  datatype Facts = Facts(
    nature: Nature, code: string, message: string, context: Option<Context>, retryAfterMs: Option<int>)

  datatype Record = Record(facts: Facts, cause: Cause)
  datatype Cause = NoCause | Because(record: Record)

  // ----- Normalisation -----

  function RecordOf(heap: Heap, value: Value): Record {
    FromUnknown(heap, value, 0)
  }

  function FromUnknown(heap: Heap, value: Value, depth: nat): Record
    requires depth <= MAX_CAUSE_DEPTH
    decreases MAX_CAUSE_DEPTH - depth, 2
  {
    match value
    case Ref(e) =>
      if heap(e).Contract? then FromContract(heap, e, depth)
      else
        var Foreign(name, message, cause) := heap(e);
        var text := if message != "" then message else if name == "" then "unknown error" else name;
        Record(Facts(Defect, UNHANDLED, text, Some(map["name" := name]), None), CauseOf(heap, cause, depth))
    case _ => Record(Facts(Defect, NON_ERROR, SafeText(value), None, None), NoCause)
  }

  function FromContract(heap: Heap, e: nat, depth: nat): Record
    requires depth <= MAX_CAUSE_DEPTH && heap(e).Contract?
    decreases MAX_CAUSE_DEPTH - depth, 1
  {
    var n := heap(e);
    var context := MergedContext(n.context, n.annotations);
    var cause := CauseOf(heap, n.cause, depth);
    match n.nature
    case Business(category) => Record(Facts(Business(category), n.code, n.message, context, n.retryAfterMs), cause)
    case Infrastructure => Record(Facts(Infrastructure, n.code, n.message, context, n.retryAfterMs), cause)
    case Defect => Record(Facts(Defect, n.code, n.message, context, n.retryAfterMs), cause)
  }

  function CauseOf(heap: Heap, cause: Value, depth: nat): Cause
    requires depth <= MAX_CAUSE_DEPTH
    decreases MAX_CAUSE_DEPTH - depth, 0
  {
    if cause.Undefined? || depth >= MAX_CAUSE_DEPTH then NoCause
    else Because(FromUnknown(heap, cause, depth + 1))
  }

  function SafeText(value: Value): string {
    match value
    case Undefined => "undefined"
    case Other(Some(text)) => text
    case _ => "[unstringifiable]"
  }

  function Merged(contexts: seq<Context>): Context {
    if contexts == [] then map[] else Merged(contexts[..|contexts| - 1]) + contexts[|contexts| - 1]
  }

  function MergedContext(context: Option<Context>, annotations: seq<Context>): Option<Context> {
    if context.None? && annotations == [] then None
    else Some(Merged([if context.Some? then context.value else map[]] + annotations))
  }

  // ----- The unfolded chain -----

  function CauseAt(heap: Heap, value: Value): Value {
    if value.Ref? then heap(value.error).cause else Undefined
  }

  /** The value k causes below `value`; a cycle makes the chain endless. */
  function Nth(heap: Heap, value: Value, k: nat): Option<Value>
    decreases k
  {
    if k == 0 then Some(value)
    else
      var above := Nth(heap, value, k - 1);
      if above.Some? && !CauseAt(heap, above.value).Undefined? then Some(CauseAt(heap, above.value)) else None
  }

  /** What a record says of one value, whatever lies below it. */
  function Layer(heap: Heap, value: Value): Facts {
    match value
    case Ref(e) =>
      if heap(e).Contract? then
        var context := MergedContext(heap(e).context, heap(e).annotations);
        Facts(heap(e).nature, heap(e).code, heap(e).message, context, heap(e).retryAfterMs)
      else
        Facts(Defect, UNHANDLED, ForeignText(heap(e).name, heap(e).message), Some(map["name" := heap(e).name]), None)
    case _ => Facts(Defect, NON_ERROR, SafeText(value), None, None)
  }

  function ForeignText(name: string, message: string): (text: string)
    ensures text != ""
    ensures message != "" ==> text == message
  {
    if message != "" then message else if name != "" then name else "unknown error"
  }

  function Flatten(r: Record): (layers: seq<Facts>)
    ensures layers != []
  {
    [r.facts] + (match r.cause case NoCause => [] case Because(c) => Flatten(c))
  }

  /** A record is no more than its layers. */
  lemma {:induction false} FlattenIsInjective(r: Record, s: Record)
    requires Flatten(r) == Flatten(s)
    ensures r == s
  {
    assert r.facts == Flatten(r)[0] && s.facts == Flatten(s)[0];
    var below, below' := Flatten(r)[1..], Flatten(s)[1..];
    match (r.cause, s.cause)
    case (Because(c), Because(d)) =>
      assert below == Flatten(c) && below' == Flatten(d);
      FlattenIsInjective(c, d);
    case _ =>
  }

  /** One layer is decided by its value alone; below it comes its cause, if there is room. */
  lemma RecordUnfolds(heap: Heap, value: Value, depth: nat)
    requires depth <= MAX_CAUSE_DEPTH
    ensures FromUnknown(heap, value, depth) == Record(Layer(heap, value), CauseOf(heap, CauseAt(heap, value), depth))
  {
  }

  lemma {:induction false} NthBelow(heap: Heap, value: Value, k: nat)
    ensures Nth(heap, value, k + 1)
         == if CauseAt(heap, value).Undefined? then None else Nth(heap, CauseAt(heap, value), k)
  {
    if k == 0 {
      assert Nth(heap, value, 0) == Some(value);
    } else {
      NthBelow(heap, value, k - 1);
    }
  }

  ghost predicate HasLayer(r: Record, k: nat) {
    k < |Flatten(r)|
  }

  /** From depth `depth` on, the record has exactly the layers of the chain that still fit. */
  lemma {:induction false} TruncationFrom(heap: Heap, value: Value, depth: nat, k: nat)
    requires depth <= MAX_CAUSE_DEPTH
    ensures var r := FromUnknown(heap, value, depth);
            (HasLayer(r, k) <==> depth + k <= MAX_CAUSE_DEPTH && Nth(heap, value, k).Some?)
            && (HasLayer(r, k) ==> Flatten(r)[k] == Layer(heap, Nth(heap, value, k).value))
    decreases MAX_CAUSE_DEPTH - depth
  {
    RecordUnfolds(heap, value, depth);
    var cause := CauseAt(heap, value);
    if k > 0 {
      NthBelow(heap, value, k - 1);
      if !cause.Undefined? && depth < MAX_CAUSE_DEPTH {
        TruncationFrom(heap, cause, depth + 1, k - 1);
      }
    }
  }

  /**
   * For every heap, cyclic or not, the record is the first eleven layers of the unfolded chain, or all
   * of them if there are fewer, each decided by its own value alone.
   */
  lemma RecordIsTruncation(heap: Heap, value: Value, k: nat)
    ensures var r := RecordOf(heap, value);
            (HasLayer(r, k) <==> k <= MAX_CAUSE_DEPTH && Nth(heap, value, k).Some?)
            && (HasLayer(r, k) ==> Flatten(r)[k] == Layer(heap, Nth(heap, value, k).value))
  {
    TruncationFrom(heap, value, 0, k);
  }

  /** An endless chain gives exactly eleven layers. */
  lemma EndlessChainIsCut(heap: Heap, value: Value)
    requires forall k: nat :: Nth(heap, value, k).Some?
    ensures |Flatten(RecordOf(heap, value))| == 11
  {
    RecordIsTruncation(heap, value, MAX_CAUSE_DEPTH);
    RecordIsTruncation(heap, value, MAX_CAUSE_DEPTH + 1);
  }

  lemma {:induction false} SelfCauseIsEndless(heap: Heap, e: nat, k: nat)
    requires heap(e).cause == Ref(e)
    ensures Nth(heap, Ref(e), k) == Some(Ref(e))
  {
    if k > 0 {
      SelfCauseIsEndless(heap, e, k - 1);
    }
  }

  /** Records agree exactly if the first eleven layers do: nothing deeper, and no identity, shows. */
  lemma RecordsAgree(h1: Heap, v1: Value, h2: Heap, v2: Value)
    ensures RecordOf(h1, v1) == RecordOf(h2, v2) <==>
      forall k: nat | k <= MAX_CAUSE_DEPTH :: SameLayer(h1, v1, h2, v2, k)
  {
    var r1, r2 := RecordOf(h1, v1), RecordOf(h2, v2);
    forall k: nat
      ensures HasLayer(r1, k) <==> k <= MAX_CAUSE_DEPTH && Nth(h1, v1, k).Some?
      ensures HasLayer(r2, k) <==> k <= MAX_CAUSE_DEPTH && Nth(h2, v2, k).Some?
      ensures HasLayer(r1, k) ==> Flatten(r1)[k] == Layer(h1, Nth(h1, v1, k).value)
      ensures HasLayer(r2, k) ==> Flatten(r2)[k] == Layer(h2, Nth(h2, v2, k).value)
    {
      RecordIsTruncation(h1, v1, k);
      RecordIsTruncation(h2, v2, k);
    }
    if forall k: nat | k <= MAX_CAUSE_DEPTH :: SameLayer(h1, v1, h2, v2, k) {
      assert forall k: nat :: HasLayer(r1, k) ==> SameLayer(h1, v1, h2, v2, k);
      assert forall k: nat :: HasLayer(r2, k) ==> SameLayer(h1, v1, h2, v2, k);
      SameDepth(r1, r2);
      assert forall k: nat | k < |Flatten(r1)| :: HasLayer(r1, k) && Flatten(r1)[k] == Flatten(r2)[k];
      FlattenIsInjective(r1, r2);
    }
  }

  lemma SameDepth(r: Record, s: Record)
    requires forall k: nat :: HasLayer(r, k) <==> HasLayer(s, k)
    ensures |Flatten(r)| == |Flatten(s)|
  {
    assert !HasLayer(r, |Flatten(r)|) && !HasLayer(s, |Flatten(s)|);
  }

  predicate SameLayer(h1: Heap, v1: Value, h2: Heap, v2: Value, k: nat) {
    var n1, n2 := Nth(h1, v1, k), Nth(h2, v2, k);
    (n1.Some? <==> n2.Some?) && (n1.Some? ==> Layer(h1, n1.value) == Layer(h2, n2.value))
  }

  // ----- Annotations -----

  /** A key has the value of the last context that has the key. */
  lemma {:induction false} LastWriterWins(contexts: seq<Context>, key: string)
    ensures key in Merged(contexts) <==> exists i :: 0 <= i < |contexts| && key in contexts[i]
    ensures forall i | 0 <= i < |contexts| && key in contexts[i] ::
      (forall j | i < j < |contexts| :: key !in contexts[j]) ==> Merged(contexts)[key] == contexts[i][key]
  {
    if contexts != [] {
      LastWriterWins(contexts[..|contexts| - 1], key);
    }
  }

  /** The keys of a merged context are those of its parts. */
  lemma MergedKeys(context: Option<Context>, annotations: seq<Context>, key: string)
    requires context.Some? || annotations != []
    ensures MergedContext(context, annotations).Some?
    ensures key in MergedContext(context, annotations).value
       <==> (context.Some? && key in context.value) || exists a <- annotations :: key in a
  {
    var base := if context.Some? then context.value else map[];
    var all := [base] + annotations;
    LastWriterWins(all, key);
    assert all[0] == base && forall i | 1 <= i < |all| :: all[i] == annotations[i - 1];
    forall a <- annotations | key in a ensures exists i :: 0 <= i < |all| && key in all[i] {
      var j :| 0 <= j < |annotations| && annotations[j] == a;
      assert all[j + 1] == a;
    }
  }

  /** The last annotation with the key decides its value, and if there is none, the constructor's context. */
  lemma MergedValue(context: Option<Context>, annotations: seq<Context>, key: string, i: int)
    requires -1 <= i < |annotations| && (i == -1 ==> context.Some?)
    requires var a := if i == -1 then context.value else annotations[i];
             key in a && forall j | i < j < |annotations| :: key !in annotations[j]
    ensures MergedContext(context, annotations).Some? && key in MergedContext(context, annotations).value
    ensures MergedContext(context, annotations).value[key] == (if i == -1 then context.value else annotations[i])[key]
  {
    var base := if context.Some? then context.value else map[];
    var all := [base] + annotations;
    LastWriterWins(all, key);
    assert all[i + 1] == if i == -1 then base else annotations[i];
    assert forall j | i + 1 < j < |all| :: all[j] == annotations[j - 1];
  }

  /** The context a record shows of a contract error: none exactly if there is none to show. */
  lemma ContextOfRecord(heap: Heap, e: nat, key: string)
    requires heap(e).Contract?
    ensures var n, shown := heap(e), RecordOf(heap, Ref(e)).facts.context;
            && (shown.None? <==> n.context.None? && n.annotations == [])
            && (shown.Some? ==>
                (key in shown.value
                 <==> (n.context.Some? && key in n.context.value) || exists a <- n.annotations :: key in a))
  {
    var n := heap(e);
    if n.context.Some? || n.annotations != [] {
      MergedKeys(n.context, n.annotations, key);
    }
  }

  /** Its value for a key is that of the last part with the key: annotation i, or the context itself if i is -1. */
  lemma ValueInRecord(heap: Heap, e: nat, key: string, i: int)
    requires heap(e).Contract? && -1 <= i < |heap(e).annotations| && (i == -1 ==> heap(e).context.Some?)
    requires var a := if i == -1 then heap(e).context.value else heap(e).annotations[i];
             key in a && forall j | i < j < |heap(e).annotations| :: key !in heap(e).annotations[j]
    ensures var shown := RecordOf(heap, Ref(e)).facts.context;
            shown.Some? && key in shown.value
            && shown.value[key] == (if i == -1 then heap(e).context.value else heap(e).annotations[i])[key]
  {
    MergedValue(heap(e).context, heap(e).annotations, key, i);
  }

  /** What a record says of its outermost value, in terms of that value alone. */
  lemma FactsOfRecord(heap: Heap, value: Value)
    ensures var facts := RecordOf(heap, value).facts;
      match value
      case Ref(e) =>
        (match heap(e)
         case Contract(nature, code, message, _, _, retryAfterMs, _) =>
           facts.nature == nature && facts.code == code && facts.message == message
           && facts.retryAfterMs == retryAfterMs
         case Foreign(name, message, _) =>
           facts.nature == Defect && facts.code == "errors.unhandled" && facts.retryAfterMs == None
           && facts.context == Some(map["name" := name])
           && (message != "" ==> facts.message == message)
           && (message == "" && name != "" ==> facts.message == name)
           && (message == "" && name == "" ==> facts.message == "unknown error"))
      case Undefined => facts == Facts(Defect, "errors.non_error", "undefined", None, None)
      case Other(text) =>
        facts == Facts(Defect, "errors.non_error", if text.Some? then text.value else "[unstringifiable]", None, None)
  {
  }

  class ContractError {
    const nature: Nature
    const code: string
    const message: string
    const context: Option<Context>
    const retryAfterMs: Option<int>
    const cause: Value
    var slot: Option<seq<Context>>

    constructor (
      nature: Nature, code: string, message: string, context: Option<Context>, retryAfterMs: Option<int>, cause: Value)
      ensures AsNode() == Contract(nature, code, message, context, [], retryAfterMs, cause)
    {
      this.nature, this.code, this.message := nature, code, message;
      this.context, this.retryAfterMs, this.cause := context, retryAfterMs, cause;
      slot := None;
    }

    function AnnotationsOf(): seq<Context>
      reads this
    {
      if slot.None? then [] else slot.value
    }

    function AsNode(): Node
      reads this
    {
      Contract(nature, code, message, context, AnnotationsOf(), retryAfterMs, cause)
    }

    /** The same error with one more observation; nothing else about it changes. */
    method Annotate(context: Context) returns (same: ContractError)
      modifies this
      ensures same == this
      ensures AsNode()
           == Contract(nature, code, message, this.context, old(AnnotationsOf()) + [context], retryAfterMs, cause)
    {
      slot := Some(if slot.None? then [context] else slot.value + [context]);
      same := this;
    }
  }

  /** `after` is `before` with the error at e annotated once more. */
  predicate Annotated(before: Heap, after: Heap, e: nat, context: Context)
    requires before(e).Contract?
  {
    after(e) == before(e).(annotations := before(e).annotations + [context])
  }

  lemma {:induction false} AnnotationKeepsChain(
    before: Heap, after: Heap, e: nat, context: Context, value: Value, k: nat)
    requires before(e).Contract? && Annotated(before, after, e, context)
    requires forall d | d != e :: after(d) == before(d)
    ensures Nth(after, value, k) == Nth(before, value, k)
  {
    if k > 0 {
      AnnotationKeepsChain(before, after, e, context, value, k - 1);
    }
  }

  /**
   * An annotation shows in every record that reaches the error within eleven layers, there in the
   * context alone: the new keys win, the old ones stay. No nature, code, message or layer changes.
   */
  lemma AnnotationAddsContext(before: Heap, after: Heap, e: nat, context: Context, value: Value, k: nat)
    requires before(e).Contract? && Annotated(before, after, e, context)
    requires forall d | d != e :: after(d) == before(d)
    ensures var old', new' := Flatten(RecordOf(before, value)), Flatten(RecordOf(after, value));
            |old'| == |new'|
            && (k < |old'| ==>
              new'[k] == if Nth(before, value, k) == Some(Ref(e))
                then old'[k].(context := Some(Known(old'[k].context) + context)) else old'[k])
  {
    forall j: nat
      ensures HasLayer(RecordOf(before, value), j) <==> HasLayer(RecordOf(after, value), j)
    {
      AnnotationKeepsChain(before, after, e, context, value, j);
      RecordIsTruncation(before, value, j);
      RecordIsTruncation(after, value, j);
    }
    SameDepth(RecordOf(before, value), RecordOf(after, value));
    RecordIsTruncation(before, value, k);
    RecordIsTruncation(after, value, k);
    AnnotationKeepsChain(before, after, e, context, value, k);
    MergeOneMore(before(e).context, before(e).annotations, context);
  }

  function Known(context: Option<Context>): Context {
    if context.Some? then context.value else map[]
  }

  lemma MergeOneMore(context: Option<Context>, annotations: seq<Context>, more: Context)
    ensures MergedContext(context, annotations + [more]) == Some(Known(MergedContext(context, annotations)) + more)
  {
    var all := [Known(context)] + annotations;
    assert [Known(context)] + (annotations + [more]) == all + [more];
    assert (all + [more])[..|all|] == all;
    if annotations == [] {
      assert all[..0] == [];
      assert Merged(all) == Known(context);
    }
  }
}

/**
 * What schemas admit, what types denote, and how the compiled text relates the two: every value a
 * schema admits inhabits the type its text parses to, and on the schemas that TypeScript can express
 * the two agree. Values are JSON values; a number is its canonical JavaScript text.
 */
module DtoMeaning {
  import opened Wrappers
  import opened Basics
  import opened TsGrammar
  import TsRoundTrip
  import opened Splitter
  import opened DtoCompiler
  import opened DtoText

  datatype Value = Leaf(scalar: Scalar) | Arr(elems: seq<Value>) | Obj(entries: map<string, Value>)

  /** What each component name admits. */
  type Components = (string, Value) -> bool

  // ----- JSON Schema: every keyword that is present asserts -----

  /** Canonical text has a positive exponent from 10^21 on, where every number is whole. */
  predicate IsIntegerText(s: string) {
    (forall i | 0 <= i < |s| :: IsDigit(s[i]) || (i == 0 && s[i] == '-'))
    || exists i | 0 <= i < |s| - 1 :: s[i] == 'e' && s[i + 1] == '+'
  }

  predicate NameAdmits(name: string, v: Value) {
    match name
    case "string" => v.Leaf? && v.scalar.Str?
    case "integer" => v.Leaf? && v.scalar.Num? && IsIntegerText(v.scalar.text)
    case "number" => v.Leaf? && v.scalar.Num?
    case "boolean" => v.Leaf? && v.scalar.Bool?
    case "null" => v.Leaf? && v.scalar.Null?
    case "array" => v.Arr?
    case "object" => v.Obj?
    case _ => true
  }

  predicate TypeAdmits(t: TypeName, v: Value) {
    match t
    case Untyped => true
    case Named(name) => NameAdmits(name, v)
    case Listed(names) => exists n | n in names :: NameAdmits(n, v)
  }

  function Names(ps: seq<Property>): set<string> {
    set p | p in ps :: p.name
  }

  ghost predicate Admits(s: Schema, env: Components, v: Value)
    decreases v, s, 1
  {
    && (s.ref.Some? ==> REF_PREFIX <= s.ref.value && env(s.ref.value[|REF_PREFIX|..], v))
    && (s.anyOf.AnyOf? ==> exists n | n in s.anyOf.nodes :: NodeAdmits(n, env, v))
    && (s.constant.Some? ==> v == Leaf(s.constant.value))
    && (s.choices.Some? ==> v.Leaf? && v.scalar in s.choices.value)
    && TypeAdmits(s.typ, v)
    && (v.Arr? && s.items.Some? ==> forall e | e in v.elems :: NodeAdmits(s.items.value, env, e))
    && (v.Obj? ==>
          && (forall p | p in s.properties && p.name in v.entries :: NodeAdmits(p.node, env, v.entries[p.name]))
          && (forall name | name in s.required :: name in v.entries)
          && (s.additional.Some? ==>
                forall name | name in v.entries && name !in Names(s.properties) ::
                  NodeAdmits(s.additional.value, env, v.entries[name])))
  }

  ghost predicate NodeAdmits(n: Node, env: Components, v: Value)
    decreases v, n, 0
  {
    if n.Sub? then Admits(n.schema, env, v) else n.accepts
  }

  // ----- TypeScript: structural types over JSON values -----

  ghost predicate Denotes(t: Ts, env: Components, v: Value) {
    match t
    case Word(w) => WordDenotes(w, env, v)
    case Quoted(s) => v == Leaf(Str(s))
    case ArrayOf(e) => v.Arr? && forall x | x in v.elems :: Denotes(e, env, x)
    case Shape(fs) =>
      v.Obj? && forall f | f in fs ::
        if f.name in v.entries then Denotes(f.typ, env, v.entries[f.name]) else f.optional
    case RecordOf(e) => v.Obj? && forall name | name in v.entries :: Denotes(e, env, v.entries[name])
    case Union(ms) => exists m | m in ms :: Denotes(m, env, v)
  }

  ghost predicate WordDenotes(w: string, env: Components, v: Value) {
    if w in PREDEFINED then PredefinedDenotes(w, v)
    else if w != "" && (IsDigit(w[0]) || w[0] == '-') then v == Leaf(Num(w))
    else env(w, v)
  }

  predicate PredefinedDenotes(w: string, v: Value) {
    match w
    case "string" => v.Leaf? && v.scalar.Str?
    case "number" => v.Leaf? && v.scalar.Num?
    case "boolean" => v.Leaf? && v.scalar.Bool?
    case "null" => v.Leaf? && v.scalar.Null?
    case "true" => v.Leaf? && v.scalar == Bool(true)
    case "false" => v.Leaf? && v.scalar == Bool(false)
    case "unknown" => true
    case "any" => true
    case "object" => !v.Leaf?
    case _ => false
  }

  // ----- Literals, unions, fields -----

  lemma LiteralDenotes(c: Scalar, env: Components, v: Value)
    requires LegalScalar(c)
    ensures Denotes(LiteralTree(c), env, v) <==> v == Leaf(c)
  {
    if c.Num? {
      assert c.text != "string" by { assert "string"[0] == 's'; }
      assert c.text[0] !in {'s', 'n', 'b', 't', 'f', 'u', 'a', 'o', 'v'};
    }
  }

  lemma MergeDenotes(ts: seq<Ts>, env: Components, v: Value)
    requires ts != []
    ensures Denotes(Merge(ts), env, v) <==> exists t | t in ts :: Denotes(t, env, v)
  {
    if |ts| == 1 {
      assert ts[0] in ts;
    }
  }

  lemma ChoicesDenote(cs: seq<Scalar>, env: Components, v: Value)
    requires cs != [] && forall c | c in cs :: LegalScalar(c)
    ensures Denotes(Merge(LiteralTrees(cs)), env, v) <==> v.Leaf? && v.scalar in cs
  {
    var ts := LiteralTrees(cs);
    MergeDenotes(ts, env, v);
    forall i | 0 <= i < |cs| ensures Denotes(ts[i], env, v) <==> v == Leaf(cs[i]) {
      LiteralDenotes(cs[i], env, v);
    }
    if v.Leaf? && v.scalar in cs {
      var i :| 0 <= i < |cs| && cs[i] == v.scalar;
      assert ts[i] in ts;
    }
  }

  /** A flattened union denotes what its alternatives denote; boolean subschemas are dropped. */
  lemma {:induction false} MembersDenote(ns: seq<Node>, env: Components, v: Value)
    ensures (exists t | t in MemberTrees(ns) :: Denotes(t, env, v))
        <==> exists n | n in ns :: n.Sub? && Denotes(NodeTree(n), env, v)
  {
    if ns != [] {
      MembersDenote(ns[1..], env, v);
      var here := if ns[0].Bare? then [] else MembersOf(NodeTree(ns[0]));
      assert MemberTrees(ns) == here + MemberTrees(ns[1..]);
      assert (exists t | t in here :: Denotes(t, env, v)) <==> ns[0].Sub? && Denotes(NodeTree(ns[0]), env, v) by {
        if ns[0].Sub? && !NodeTree(ns[0]).Union? {
          assert here[0] == NodeTree(ns[0]);
        }
      }
      assert forall n | n in ns :: n == ns[0] || n in ns[1..];
      assert forall n | n in ns[1..] :: n in ns;
    }
  }

  lemma UnionDenotes(ns: seq<Node>, env: Components, v: Value)
    requires MemberTrees(ns) != []
    ensures Denotes(Merge(Dedup([], MemberTrees(ns))), env, v)
        <==> exists n | n in ns :: n.Sub? && Denotes(NodeTree(n), env, v)
  {
    var ts := MemberTrees(ns);
    DedupKeepsAll([], ts);
    assert ts[0] in ts;
    MergeDenotes(Dedup([], ts), env, v);
    MembersDenote(ns, env, v);
  }

  lemma {:induction false} FieldTreesAre(ps: seq<Property>, required: seq<string>)
    ensures forall i | 0 <= i < |ps| ::
              FieldTrees(ps, required)[i]
              == Field(DocOf(ps[i].node), ps[i].name, ps[i].name !in required, NodeTree(ps[i].node))
  {
    if ps != [] {
      FieldTreesAre(ps[1..], required);
    }
  }

  // ----- No admitted value is lost -----

  /** The generator skips boolean alternatives; `true` among them admits what the text does not. */
  predicate NoTrueMember(s: Schema)
    decreases s, 0
  {
    if s.ref.Some? then true
    else if s.anyOf.AnyOf? then forall n | n in s.anyOf.nodes :: n != Bare(true) && NoTrueMemberIn(n)
    else if s.constant.Some? || s.choices.Some? then true
    else if s.typ == Named("array") then s.items.Some? ==> NoTrueMemberIn(s.items.value)
    else if s.typ == Named("object") then
      && (forall p | p in s.properties :: NoTrueMemberIn(p.node))
      && (s.additional.Some? ==> NoTrueMemberIn(s.additional.value))
    else true
  }

  predicate NoTrueMemberIn(n: Node)
    decreases n, 0
  {
    n.Sub? ==> NoTrueMember(n.schema)
  }

  lemma {:induction false} TreeLosesNothing(s: Schema, env: Components, v: Value)
    requires Renderable(s) && NoTrueMember(s) && Admits(s, env, v)
    ensures Denotes(TsTree(s), env, v)
    decreases s, 0
  {
    if s.ref.Some? {
    } else if s.anyOf.AnyOf? {
      var ns := s.anyOf.nodes;
      UnionLoop(ns, []);
      var n :| n in ns && NodeAdmits(n, env, v);
      NodeLosesNothing(n, env, v);
      UnionDenotes(ns, env, v);
    } else if s.constant.Some? {
      LiteralDenotes(s.constant.value, env, v);
    } else if s.choices.Some? {
      ChoicesDenote(s.choices.value, env, v);
    } else if Primitive(s.typ).Some? {
    } else if s.typ == Named("array") {
      forall x | x in v.elems ensures Denotes(NodeTree(s.items.value), env, x) {
        NodeLosesNothing(s.items.value, env, x);
      }
    } else if s.typ == Named("object") {
      if s.properties != [] {
        FieldsLoseNothing(s, env, v);
      } else if s.additional.Some? && s.additional.value.Sub? {
        forall name | name in v.entries ensures Denotes(NodeTree(s.additional.value), env, v.entries[name]) {
          NodeLosesNothing(s.additional.value, env, v.entries[name]);
        }
      }
    }
  }

  lemma {:induction false} FieldsLoseNothing(s: Schema, env: Components, v: Value)
    requires forall p | p in s.properties :: RenderableNode(p.node) && NoTrueMemberIn(p.node)
    requires v.Obj? && forall name | name in s.required :: name in v.entries
    requires forall p | p in s.properties && p.name in v.entries :: NodeAdmits(p.node, env, v.entries[p.name])
    ensures Denotes(Shape(FieldTrees(s.properties, s.required)), env, v)
    decreases s, -1
  {
    var ps := s.properties;
    FieldTreesAre(ps, s.required);
    forall i | 0 <= i < |ps| && ps[i].name in v.entries
      ensures Denotes(NodeTree(ps[i].node), env, v.entries[ps[i].name])
    {
      assert ps[i] in ps;
      NodeLosesNothing(ps[i].node, env, v.entries[ps[i].name]);
    }
  }

  lemma {:induction false} NodeLosesNothing(n: Node, env: Components, v: Value)
    requires RenderableNode(n) && NoTrueMemberIn(n) && NodeAdmits(n, env, v)
    ensures Denotes(NodeTree(n), env, v)
    decreases n, 0
  {
    if n.Sub? {
      TreeLosesNothing(n.schema, env, v);
    }
  }

  // ----- Schemas that a TypeScript type can express exactly -----

  predicate NoObjectKeywords(s: Schema) {
    s.properties == [] && s.required == [] && s.additional.None?
  }

  predicate OnlyRef(s: Schema) {
    s.anyOf.NoAnyOf? && OnlyUnion(s)
  }

  predicate OnlyUnion(s: Schema) {
    s.constant.None? && s.choices.None? && s.typ.Untyped? && s.items.None? && NoObjectKeywords(s)
  }

  /**
   * Later keywords add nothing to the one the compiler reads; no `integer`, which becomes `number`;
   * no object schema without properties or with a closed or map-like rest beside them, and nothing
   * required that is not a property.
   */
  predicate Expressible(s: Schema)
    decreases s, 0
  {
    if s.ref.Some? then OnlyRef(s)
    else if s.anyOf.AnyOf? then
      OnlyUnion(s) && forall n | n in s.anyOf.nodes :: n != Bare(true) && (n.Sub? ==> Expressible(n.schema))
    else if s.constant.Some? then
      && (s.choices.Some? ==> s.constant.value in s.choices.value)
      && TypeAdmits(s.typ, Leaf(s.constant.value))
    else if s.choices.Some? then forall c | c in s.choices.value :: TypeAdmits(s.typ, Leaf(c))
    else if Primitive(s.typ).Some? then s.typ != Named("integer")
    else if s.typ == Named("array") then s.items.Some? && ExpressibleNode(s.items.value)
    else if s.typ == Named("object") then
      if s.properties != [] then
        && (forall p | p in s.properties :: ExpressibleNode(p.node))
        && (forall name | name in s.required :: name in Names(s.properties))
        && (s.additional.None? || s.additional.value == Bare(true))
      else
        s.required == [] && s.additional.Some? && s.additional.value.Sub? && ExpressibleNode(s.additional.value)
    else OnlyUnion(s)
  }

  predicate ExpressibleNode(n: Node)
    decreases n, 0
  {
    if n.Sub? then Expressible(n.schema) else n.accepts
  }

  lemma {:induction false} ExpressibleHasNoTrueMember(s: Schema)
    requires Expressible(s)
    ensures NoTrueMember(s)
    decreases s
  {
    if s.ref.Some? {
    } else if s.anyOf.AnyOf? {
      forall n | n in s.anyOf.nodes && n.Sub? ensures NoTrueMember(n.schema) {
        ExpressibleHasNoTrueMember(n.schema);
      }
    } else if s.constant.Some? || s.choices.Some? {
    } else if s.typ == Named("array") && s.items.value.Sub? {
      ExpressibleHasNoTrueMember(s.items.value.schema);
    } else if s.typ == Named("object") {
      forall p | p in s.properties && p.node.Sub? ensures NoTrueMember(p.node.schema) {
        ExpressibleHasNoTrueMember(p.node.schema);
      }
      if s.additional.Some? && s.additional.value.Sub? {
        ExpressibleHasNoTrueMember(s.additional.value.schema);
      }
    }
  }

  lemma {:induction false} TreeAddsNothing(s: Schema, env: Components, v: Value)
    requires Renderable(s) && Expressible(s) && Denotes(TsTree(s), env, v)
    ensures Admits(s, env, v)
    decreases s, 0
  {
    if s.ref.Some? {
    } else if s.anyOf.AnyOf? {
      var ns := s.anyOf.nodes;
      UnionLoop(ns, []);
      UnionDenotes(ns, env, v);
      var n :| n in ns && n.Sub? && Denotes(NodeTree(n), env, v);
      TreeAddsNothing(n.schema, env, v);
      assert NodeAdmits(n, env, v);
    } else if s.constant.Some? {
      LiteralDenotes(s.constant.value, env, v);
    } else if s.choices.Some? {
      ChoicesDenote(s.choices.value, env, v);
    } else if Primitive(s.typ).Some? {
    } else if s.typ == Named("array") {
      forall x | x in v.elems ensures NodeAdmits(s.items.value, env, x) {
        NodeAddsNothing(s.items.value, env, x);
      }
    } else if s.typ == Named("object") {
      if s.properties != [] {
        FieldsAddNothing(s, env, v);
      } else {
        forall name | name in v.entries ensures NodeAdmits(s.additional.value, env, v.entries[name]) {
          NodeAddsNothing(s.additional.value, env, v.entries[name]);
        }
      }
    }
  }

  lemma {:induction false} NodeAddsNothing(n: Node, env: Components, v: Value)
    requires RenderableNode(n) && ExpressibleNode(n) && Denotes(NodeTree(n), env, v)
    ensures NodeAdmits(n, env, v)
    decreases n, 0
  {
    if n.Sub? {
      TreeAddsNothing(n.schema, env, v);
    }
  }

  lemma {:induction false} FieldsAddNothing(s: Schema, env: Components, v: Value)
    requires forall p | p in s.properties :: RenderableNode(p.node) && ExpressibleNode(p.node)
    requires forall name | name in s.required :: name in Names(s.properties)
    requires Denotes(Shape(FieldTrees(s.properties, s.required)), env, v)
    ensures forall p | p in s.properties && p.name in v.entries :: NodeAdmits(p.node, env, v.entries[p.name])
    ensures forall name | name in s.required :: name in v.entries
    decreases s, -1
  {
    var ps, fs := s.properties, FieldTrees(s.properties, s.required);
    FieldTreesAre(ps, s.required);
    forall p | p in ps
      ensures if p.name in v.entries then NodeAdmits(p.node, env, v.entries[p.name]) else p.name !in s.required
    {
      var i :| 0 <= i < |ps| && ps[i] == p;
      assert fs[i] in fs;
      if p.name in v.entries {
        NodeAddsNothing(p.node, env, v.entries[p.name]);
      }
    }
  }

  // ----- The theorems about the compiled text -----

  /** The text of a schema without harmful names, literals or descriptions is the type the schema stands for. */
  lemma CompiledTextParses(s: Schema)
    requires Harmless(s, false)
    ensures TsType(s) == Ok(Print(TsTree(s))) && Parse(TsType(s).value) == Some(TsTree(s))
  {
    HarmlessIsRenderable(s, false);
    TsTypePrints(s);
    TsRoundTrip.ParsePrint(TsTree(s));
  }

  /** Parsed with TypeScript's precedence, the text has every value that the schema admits. */
  lemma CompiledTypeLosesNoValue(s: Schema, env: Components, v: Value)
    requires Harmless(s, false) && NoTrueMember(s) && Admits(s, env, v)
    ensures TsType(s).Ok? && Parse(TsType(s).value).Some?
    ensures Denotes(Parse(TsType(s).value).value, env, v)
  {
    HarmlessIsRenderable(s, false);
    CompiledTextParses(s);
    TreeLosesNothing(s, env, v);
  }

  /** And it has no other value when the schema is one that a type can express. */
  lemma CompiledTypeIsExact(s: Schema, env: Components, v: Value)
    requires Harmless(s, false) && Expressible(s)
    ensures TsType(s).Ok? && Parse(TsType(s).value).Some?
    ensures Denotes(Parse(TsType(s).value).value, env, v) <==> Admits(s, env, v)
  {
    HarmlessIsRenderable(s, false);
    CompiledTextParses(s);
    if Admits(s, env, v) {
      ExpressibleHasNoTrueMember(s);
      TreeLosesNothing(s, env, v);
    }
    if Denotes(TsTree(s), env, v) {
      TreeAddsNothing(s, env, v);
    }
  }
}

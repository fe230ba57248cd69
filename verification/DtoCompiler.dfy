/**
 * The schema-to-TypeScript compiler. TsType is the compiler itself, text in, text out; TsTree is the
 * type it means to write. TsTypePrints shows that the text is the tree's text on every renderable
 * schema, although unions are flattened by re-reading text with the splitter.
 */
module DtoCompiler {
  import opened Wrappers
  import opened Basics
  import opened TsGrammar
  import opened Splitter

  datatype Scalar = Str(s: string) | Num(text: string) | Bool(b: bool) | Null

  /** The `type` keyword: absent, one name, or a list of names. */
  datatype TypeName = Untyped | Named(name: string) | Listed(names: seq<string>)

  /** A place for a subschema: an object, or any other value, which asserts nothing or everything. */
  datatype Node = Sub(schema: Schema) | Bare(accepts: bool)

  datatype Property = Property(name: string, node: Node)

  datatype Alternatives = NoAnyOf | AnyOf(nodes: seq<Node>)

  /** One schema object; an absent `required` or `properties` is empty, an absent description is "". */
  datatype Schema = Schema(
    ref: Option<string>,
    anyOf: Alternatives,
    constant: Option<Scalar>,
    choices: Option<seq<Scalar>>,
    typ: TypeName,
    items: Option<Node>,
    properties: seq<Property>,
    required: seq<string>,
    additional: Option<Node>,
    description: string)

  /** `NoText` is a type name that the table lookup answers with a member every object inherits. */
  datatype DtoError = UnsupportedRef(target: string) | MissingItems | NoText(name: string)

  const REF_PREFIX := "#/components/schemas/"

  function RefName(ref: string): Result<string, DtoError> {
    if REF_PREFIX <= ref then Ok(ref[|REF_PREFIX|..]) else Err(UnsupportedRef(ref))
  }

  /** A reference names the component behind the prefix; any other target is refused as it is. */
  lemma RefNameIs(s: Schema, name: string)
    requires s.ref.Some?
    ensures TsType(s) == Ok(name) <==> s.ref == Some("#/components/schemas/" + name)
    ensures TsType(s).Ok? || TsType(s) == Err(UnsupportedRef(s.ref.value))
  {
    var ref := s.ref.value;
    if REF_PREFIX <= ref {
      assert ref == REF_PREFIX + ref[|REF_PREFIX|..];
    }
    assert (REF_PREFIX + name)[|REF_PREFIX|..] == name;
  }

  function Literal(v: Scalar): string {
    match v
    case Str(s) => "'" + s + "'"
    case Num(text) => text
    case Bool(b) => if b then "true" else "false"
    case Null => "null"
  }

  function Literals(vs: seq<Scalar>): seq<string> {
    seq(|vs|, i requires 0 <= i < |vs| => Literal(vs[i]))
  }

  predicate IsInherited(typ: TypeName) {
    typ.Named? && typ.name in INHERITED
  }

  function Primitive(typ: TypeName): Option<string> {
    if !typ.Named? then None
    else if typ.name in {"string", "boolean", "null"} then Some(typ.name)
    else if typ.name in {"integer", "number"} then Some("number")
    else None
  }

  function DocOf(node: Node): string {
    if node.Sub? then node.schema.description else ""
  }

  function DocLine(node: Node): string {
    if DocOf(node) != "" then "/** " + DocOf(node) + " */" else ""
  }

  function Dedup<T(==)>(acc: seq<T>, xs: seq<T>): seq<T>
    decreases |xs|
  {
    if xs == [] then acc
    else Dedup(if xs[0] in acc then acc else acc + [xs[0]], xs[1..])
  }

  // ----- The compiler -----

  function TsType(s: Schema): Result<string, DtoError>
    decreases s, 0
  {
    if s.ref.Some? then RefName(s.ref.value)
    else if s.anyOf.AnyOf? then
      var members :- UnionMembers(s.anyOf.nodes, []);
      Ok(Join(members))
    else if s.constant.Some? then Ok(Literal(s.constant.value))
    else if s.choices.Some? then Ok(Join(Literals(s.choices.value)))
    else if IsInherited(s.typ) then Err(NoText(s.typ.name))
    else if Primitive(s.typ).Some? then Ok(Primitive(s.typ).value)
    else if s.typ == Named("array") then
      if s.items.None? then Err(MissingItems)
      else
        var items :- NodeType(s.items.value);
        Ok(ListText(items, |Split(items)| > 1))
    else if s.typ == Named("object") then ObjectType(s)
    else Ok("unknown")
  }

  function ListText(items: string, parentheses: bool): string {
    if parentheses then "(" + items + ")[]" else items + "[]"
  }

  function ObjectType(s: Schema): Result<string, DtoError>
    decreases s, -1
  {
    if s.properties != [] then
      var lines :- FieldLines(s.properties, s.required);
      Ok("{ " + lines + " }")
    else if s.additional.Some? && s.additional.value.Sub? then
      var element :- NodeType(s.additional.value);
      Ok("Record<string, " + element + ">")
    else Ok("unknown")
  }

  function NodeType(n: Node): Result<string, DtoError>
    decreases n, 0
  {
    if n.Sub? then TsType(n.schema) else Ok("unknown")
  }

  function FieldLines(ps: seq<Property>, required: seq<string>): Result<string, DtoError>
    decreases ps, 0
  {
    if ps == [] then Ok("")
    else
      var t :- NodeType(ps[0].node);
      var line := DocLine(ps[0].node) + ps[0].name + (if ps[0].name in required then "" else "?") + ": " + t;
      var rest :- FieldLines(ps[1..], required);
      Ok(if |ps| == 1 then line else line + "; " + rest)
  }

  function UnionMembers(ns: seq<Node>, members: seq<string>): Result<seq<string>, DtoError>
    decreases ns, 0
  {
    if ns == [] then Ok(members)
    else if ns[0].Bare? then UnionMembers(ns[1..], members)
    else
      var text :- NodeType(ns[0]);
      UnionMembers(ns[1..], Dedup(members, if text == "null" then ["null"] else Split(text)))
  }

  /** The union loop as it is written, filling `members`. */
  method UnionTsType(anyOf: seq<Node>) returns (r: Result<string, DtoError>)
    ensures r == match UnionMembers(anyOf, []) case Ok(members) => Ok(Join(members)) case Err(e) => Err(e)
  {
    var members: seq<string> := [];
    for i := 0 to |anyOf|
      invariant UnionMembers(anyOf[i..], members) == UnionMembers(anyOf, [])
    {
      assert anyOf[i..][0] == anyOf[i] && anyOf[i..][1..] == anyOf[i + 1..];
      if anyOf[i].Bare? {
        continue;
      }
      var text := NodeType(anyOf[i]);
      if text.Err? {
        return Err(text.error);
      }
      var parts := ["null"];
      if text.value != "null" {
        parts := SplitTopLevelUnion(text.value);
      }
      ghost var before := members;
      for j := 0 to |parts|
        invariant Dedup(members, parts[j..]) == Dedup(before, parts)
      {
        assert parts[j..][0] == parts[j] && parts[j..][1..] == parts[j + 1..];
        if parts[j] !in members {
          members := members + [parts[j]];
        }
      }
    }
    return Ok(Join(members));
  }

  // ----- The type the compiler means -----

  function LiteralTree(v: Scalar): Ts {
    match v
    case Str(s) => Quoted(s)
    case _ => Word(Literal(v))
  }

  function LiteralTrees(vs: seq<Scalar>): seq<Ts> {
    seq(|vs|, i requires 0 <= i < |vs| => LiteralTree(vs[i]))
  }

  function Merge(ts: seq<Ts>): Ts {
    if |ts| == 1 then ts[0] else Union(ts)
  }

  function MembersOf(t: Ts): seq<Ts> {
    if t.Union? then t.members else [t]
  }

  function TsTree(s: Schema): Ts
    decreases s, 0
  {
    if s.ref.Some? then Word(if REF_PREFIX <= s.ref.value then s.ref.value[|REF_PREFIX|..] else "")
    else if s.anyOf.AnyOf? then Merge(Dedup([], MemberTrees(s.anyOf.nodes)))
    else if s.constant.Some? then LiteralTree(s.constant.value)
    else if s.choices.Some? then Merge(LiteralTrees(s.choices.value))
    else if Primitive(s.typ).Some? then Word(Primitive(s.typ).value)
    else if s.typ == Named("array") then
      if s.items.None? then Word("unknown") else ArrayOf(NodeTree(s.items.value))
    else if s.typ == Named("object") then
      if s.properties != [] then Shape(FieldTrees(s.properties, s.required))
      else if s.additional.Some? && s.additional.value.Sub? then RecordOf(NodeTree(s.additional.value))
      else Word("unknown")
    else Word("unknown")
  }

  function NodeTree(n: Node): Ts
    decreases n, 0
  {
    if n.Sub? then TsTree(n.schema) else Word("unknown")
  }

  function FieldTrees(ps: seq<Property>, required: seq<string>): (fs: seq<Field>)
    ensures |fs| == |ps|
    decreases ps, 0
  {
    if ps == [] then []
    else
      [Field(DocOf(ps[0].node), ps[0].name, ps[0].name !in required, NodeTree(ps[0].node))]
      + FieldTrees(ps[1..], required)
  }

  /** The members of a union with nested unions laid flat, in order, repetitions included. */
  function MemberTrees(ns: seq<Node>): seq<Ts>
    decreases ns, 0
  {
    if ns == [] then []
    else (if ns[0].Bare? then [] else MembersOf(NodeTree(ns[0]))) + MemberTrees(ns[1..])
  }

  // ----- Schemas whose text the compiler gets right -----

  /** Names that TypeScript takes for its own types. */
  const PREDEFINED := {
    "string", "number", "boolean", "null", "unknown", "true", "false",
    "any", "never", "object", "undefined", "void", "symbol", "bigint"}

  predicate IsComponentName(s: string) {
    IsName(s) && !IsReserved(s) && s !in PREDEFINED
  }

  predicate LegalScalar(v: Scalar) {
    match v
    case Str(s) => forall i | 0 <= i < |s| :: IsQuotedChar(s[i])
    case Num(text) => IsNumberText(text)
    case _ => true
  }

  /**
   * No piece the splitter cuts from one member is also cut from another. It can fail only when a
   * member is a map to a union, because the scanner ignores angle brackets.
   */
  predicate Separable(ts: seq<Ts>) {
    Distinct(MemberPieces(Dedup([], ts)))
  }

  /**
   * Everything written is legal TypeScript, and the splitter reads the text right at the two places
   * where the compiler consults it: at the alternatives of a union and at the items of an array.
   */
  predicate Renderable(s: Schema)
    decreases s, 0
  {
    if s.ref.Some? then
      REF_PREFIX <= s.ref.value && IsComponentName(s.ref.value[|REF_PREFIX|..])
    else if s.anyOf.AnyOf? then
      && (exists n | n in s.anyOf.nodes :: n.Sub?)
      && (forall n | n in s.anyOf.nodes :: RenderableNode(n) && (n.Sub? ==> CutsRight(NodeTree(n))))
      && Separable(MemberTrees(s.anyOf.nodes))
    else if s.constant.Some? then LegalScalar(s.constant.value)
    else if s.choices.Some? then s.choices.value != [] && forall v | v in s.choices.value :: LegalScalar(v)
    else if IsInherited(s.typ) then false
    else if Primitive(s.typ).Some? then true
    else if s.typ == Named("array") then
      s.items.Some? && RenderableNode(s.items.value) && CountsRight(NodeTree(s.items.value))
    else if s.typ == Named("object") then
      && (forall p | p in s.properties :: IsFieldName(p.name) && IsDocText(DocOf(p.node)) && RenderableNode(p.node))
      && (s.properties == [] && s.additional.Some? ==> RenderableNode(s.additional.value))
    else true
  }

  predicate RenderableNode(n: Node)
    decreases n, 0
  {
    n.Sub? ==> Renderable(n.schema)
  }

  // ----- A condition on the schema itself -----

  predicate HarmlessScalar(v: Scalar, read: bool) {
    LegalScalar(v) && (read && v.Str? ==> Stays("'" + v.s + "'", 1))
  }

  predicate HarmlessDoc(doc: string, read: bool) {
    IsDocText(doc) && (read ==> Stays(doc, 0))
  }

  /**
   * Names, literals and descriptions are legal; and where the text is `read` by the splitter, the quotes
   * and brackets in literals and descriptions pair up, or there is no bar in the text at all.
   */
  predicate Harmless(s: Schema, read: bool)
    decreases s, 0
  {
    if s.ref.Some? then
      REF_PREFIX <= s.ref.value && IsComponentName(s.ref.value[|REF_PREFIX|..])
    else if s.anyOf.AnyOf? then
      && (exists n | n in s.anyOf.nodes :: n.Sub?)
      && (forall n | n in s.anyOf.nodes ::
            HarmlessNode(n, true) || (!read && HarmlessNode(n, false) && NodeHasNoBar(n)))
      && Separable(MemberTrees(s.anyOf.nodes))
    else if s.constant.Some? then HarmlessScalar(s.constant.value, read)
    else if s.choices.Some? then s.choices.value != [] && forall v | v in s.choices.value :: HarmlessScalar(v, read)
    else if IsInherited(s.typ) then false
    else if Primitive(s.typ).Some? then true
    else if s.typ == Named("array") then
      s.items.Some? && (
      HarmlessNode(s.items.value, true)
      || (!read && HarmlessNode(s.items.value, false) && NodeHasNoBar(s.items.value)))
    else if s.typ == Named("object") then
      && (forall p | p in s.properties ::
            IsFieldName(p.name) && HarmlessDoc(DocOf(p.node), read) && HarmlessNode(p.node, read))
      && (s.properties == [] && s.additional.Some? ==> HarmlessNode(s.additional.value, read))
    else true
  }

  predicate HarmlessNode(n: Node, read: bool)
    decreases n, 0
  {
    n.Sub? ==> Harmless(n.schema, read)
  }

  /** No union, and no bar in a literal or description. */
  predicate HasNoBar(s: Schema)
    decreases s, 0
  {
    if s.ref.Some? then true
    else if s.anyOf.AnyOf? then false
    else if s.constant.Some? then BarFree(Literal(s.constant.value))
    else if s.choices.Some? then |s.choices.value| == 1 && BarFree(Literal(s.choices.value[0]))
    else if s.typ == Named("array") then s.items.Some? ==> NodeHasNoBar(s.items.value)
    else if s.typ == Named("object") then
      && (forall p | p in s.properties :: BarFree(DocOf(p.node)) && NodeHasNoBar(p.node))
      && (s.additional.Some? ==> NodeHasNoBar(s.additional.value))
    else true
  }

  predicate NodeHasNoBar(n: Node)
    decreases n, 0
  {
    n.Sub? ==> HasNoBar(n.schema)
  }

  /** A tree that both the parser and, wherever it stands, the splitter read right. */
  predicate Sound(t: Ts) {
    Canonical(t) && Quiet(t)
  }
}

/**
 * The generated file: a header comment and one interface for each component schema, in order, under a
 * heading where the domain changes. The whole file is parsed back; and an interpretation of the component
 * names fits all interfaces of the file exactly if it fits all schemas.
 */
module DtoFile {
  import opened Wrappers
  import opened Basics
  import opened TsGrammar
  import opened TsRoundTrip
  import opened Splitter
  import opened DtoCompiler
  import opened DtoText
  import opened DtoMeaning
  import opened DtoInterface

  /** One entry of the component schemas; a schema without `properties` has none in its list either. */
  datatype Component = Component(name: string, domain: Option<string>, hasProperties: bool, schema: Schema)

  function PropertiesOf(c: Component): Option<seq<Property>> {
    if c.hasProperties then Some(c.schema.properties) else None
  }

  // ----- The text of the file -----

  const RULE := " ─────────────────────────────────────"

  function Heading(domain: string): string {
    "// ── " + domain + RULE
  }

  /** The domain of the last component before i that has one. */
  function LastDomain(cs: seq<Component>, i: nat): Option<string>
    requires i <= |cs|
  {
    if i == 0 then None
    else if cs[i - 1].domain.Some? then cs[i - 1].domain
    else LastDomain(cs, i - 1)
  }

  /** A heading stands before component i if its domain is another than the last one named. */
  function HeadingOf(cs: seq<Component>, i: nat): seq<string>
    requires i < |cs|
  {
    if cs[i].domain.Some? && cs[i].domain != LastDomain(cs, i) then [Heading(cs[i].domain.value)] else []
  }

  function InterfaceOf(c: Component): Result<string, FileError> {
    var body :- InterfaceBody(PropertiesOf(c), c.schema.required);
    Ok(CommentLine(c.schema.description) + (EXPORT + (c.name + (" " + body))))
  }

  /** The blocks from component i on. */
  function Blocks(cs: seq<Component>, i: nat): Result<seq<string>, FileError>
    requires i <= |cs|
    decreases |cs| - i
  {
    if i == |cs| then Ok([])
    else
      var text :- InterfaceOf(cs[i]);
      var rest :- Blocks(cs, i + 1);
      Ok(HeadingOf(cs, i) + [text] + rest)
  }

  function JoinBlocks(blocks: seq<string>): string {
    if blocks == [] then ""
    else if |blocks| == 1 then blocks[0]
    else blocks[0] + ("\n\n" + JoinBlocks(blocks[1..]))
  }

  /** `header` is what the file's first comment says. */
  function HeaderText(header: string): string {
    "/**" + header + "*/" + "\n"
  }

  function FileText(header: string, schemas: Option<seq<Component>>): Result<string, FileError> {
    if schemas.None? then Err(NoSchemas)
    else
      var blocks :- Blocks(schemas.value, 0);
      Ok(HeaderText(header) + ("\n" + (JoinBlocks(blocks) + "\n")))
  }

  /** The generator as it is written: one pass that fills `blocks` and keeps the current domain. */
  method RenderAdminApiDto(header: string, schemas: Option<seq<Component>>) returns (r: Result<string, FileError>)
    ensures r == FileText(header, schemas)
  {
    if schemas.None? {
      return Err(NoSchemas);
    }
    var cs, blocks: seq<string>, currentDomain: Option<string> := schemas.value, [], None;
    NothingBefore(Blocks(cs, 0));
    for i := 0 to |cs|
      invariant currentDomain == LastDomain(cs, i)
      invariant Blocks(cs, 0) == match Blocks(cs, i) case Ok(rest) => Ok(blocks + rest) case Err(e) => Err(e)
    {
      ghost var before := blocks;
      if cs[i].domain.Some? && cs[i].domain != currentDomain {
        blocks := blocks + [Heading(cs[i].domain.value)];
        currentDomain := cs[i].domain;
      }
      assert blocks == before + HeadingOf(cs, i);
      var text := InterfaceOf(cs[i]);
      if text.Err? {
        return Err(text.error);
      }
      blocks := blocks + [text.value];
      BlocksStep(cs, i, before, text.value);
    }
    assert blocks + [] == blocks;
    return Ok(HeaderText(header) + ("\n" + (JoinBlocks(blocks) + "\n")));
  }

  lemma NothingBefore<E>(blocks: Result<seq<string>, E>)
    ensures blocks == match blocks case Ok(rest) => Ok([] + rest) case Err(e) => Err(e)
  {
    if blocks.Ok? {
      assert [] + blocks.value == blocks.value;
    }
  }

  lemma BlocksStep(cs: seq<Component>, i: nat, before: seq<string>, text: string)
    requires i < |cs| && InterfaceOf(cs[i]) == Ok(text)
    requires Blocks(cs, 0) == match Blocks(cs, i) case Ok(rest) => Ok(before + rest) case Err(e) => Err(e)
    ensures var now := before + HeadingOf(cs, i) + [text];
            Blocks(cs, 0) == match Blocks(cs, i + 1) case Ok(rest) => Ok(now + rest) case Err(e) => Err(e)
  {
    var own := HeadingOf(cs, i) + [text];
    assert before + HeadingOf(cs, i) + [text] == before + own;
    match Blocks(cs, i + 1) {
      case Ok(rest) => Assoc(before, own, rest);
      case Err(_) =>
    }
  }

  // ----- Reading the file -----

  /** A line comment ends here. */
  predicate IsLineEnd(c: char) {
    c == '\n' || c == '\r' || c == '\U{2028}' || c == '\U{2029}'
  }

  predicate OneLine(s: string) {
    forall i | 0 <= i < |s| :: !IsLineEnd(s[i])
  }

  /** What stands in a file: line comments and declarations. */
  datatype Block = Comment(line: string) | Declaration(d: Declared)

  /** The blocks of the file behind its header. */
  function ParseBlocks(s: string): Option<seq<Block>>
    decreases |s|
  {
    if s == "\n" then Some([])
    else if "// " <= s then
      var n := Span(s, c => !IsLineEnd(c));
      var rest := s[n..];
      if "\n\n" <= rest then
        var blocks :- ParseBlocks(rest[2..]);
        Some([Comment(s[..n])] + blocks)
      else None
    else
      var (d, rest) :- ParseDeclaration(s);
      if rest == "\n" then Some([Declaration(d)])
      else if "\n\n" <= rest then
        var blocks :- ParseBlocks(rest[2..]);
        Some([Declaration(d)] + blocks)
      else None
  }

  function ParseBehindGap(s: string): Option<seq<Block>> {
    if "\n\n" <= s then ParseBlocks(s[2..]) else None
  }

  /** The file behind the opening of its first comment. */
  function ParseCommented(s: string): Option<seq<Block>> {
    var n :- CommentEnd(s);
    ParseBehindGap(s[n + 2..])
  }

  function ParseFile(s: string): Option<seq<Block>> {
    if "/**" <= s then ParseCommented(s[3..]) else None
  }

  // ----- The file is read back -----

  function DeclaredBy(c: Component): Declared {
    Declared(c.name, c.schema.description, FieldTrees(c.schema.properties, c.schema.required))
  }

  /** The component has a domain, and it is not that of the last component before it that has one. */
  predicate ChangesDomain(cs: seq<Component>, i: nat)
    requires i < |cs|
  {
    cs[i].domain.Some?
    && !exists j | 0 <= j < i :: cs[j].domain == cs[i].domain && forall k | j < k < i :: cs[k].domain.None?
  }

  /** Where the domain changes, a comment names it. */
  function HeadingBlocks(cs: seq<Component>, i: nat): seq<Block>
    requires i < |cs|
  {
    if ChangesDomain(cs, i) then
      [Comment("// ── " + cs[i].domain.value + " ─────────────────────────────────────")]
    else []
  }

  /** The blocks that the file should have from component i on. */
  function BlocksFrom(cs: seq<Component>, i: nat): seq<Block>
    requires i <= |cs|
    decreases |cs| - i
  {
    if i == |cs| then [] else HeadingBlocks(cs, i) + ([Declaration(DeclaredBy(cs[i]))] + BlocksFrom(cs, i + 1))
  }

  lemma {:induction false} LastDomainIs(cs: seq<Component>, i: nat, d: string)
    requires i <= |cs|
    ensures LastDomain(cs, i) == Some(d) <==>
            exists j | 0 <= j < i :: cs[j].domain == Some(d) && forall k | j < k < i :: cs[k].domain.None?
  {
    if i > 0 {
      LastDomainIs(cs, i - 1, d);
      if j :| 0 <= j < i - 1 && cs[j].domain == Some(d) && forall k | j < k < i - 1 :: cs[k].domain.None? {
        assert cs[i - 1].domain.None? ==> forall k | j < k < i :: cs[k].domain.None?;
      }
    }
  }

  lemma HeadingsAreBlocks(cs: seq<Component>, i: nat)
    requires i < |cs|
    ensures HeadingOf(cs, i) == [] <==> HeadingBlocks(cs, i) == []
    ensures cs[i].domain.Some? && HeadingOf(cs, i) != [] ==>
              HeadingBlocks(cs, i) == [Comment(Heading(cs[i].domain.value))]
  {
    if cs[i].domain.Some? {
      LastDomainIs(cs, i, cs[i].domain.value);
    }
  }

  /** A component of a known name whose property types are written right, under a domain of one line. */
  predicate Writable(c: Component) {
    && c.hasProperties && IsKnownText(c.name) && (c.domain.Some? ==> OneLine(c.domain.value))
    && forall p | p in c.schema.properties :: HarmlessNode(p.node, false)
  }

  /** Its name is a legal one, and none of its descriptions ends the comment it stands in. */
  predicate LegalComponent(c: Component) {
    && IsComponentName(c.name) && IsDocText(c.schema.description)
    && forall p | p in c.schema.properties :: IsDocText(DocOf(p.node))
  }

  lemma InterfaceIs(c: Component)
    requires Writable(c)
    ensures InterfaceOf(c) == Ok(DeclarationText(DeclaredBy(c)))
    ensures forall f | f in DeclaredBy(c).fields :: Canonical(f.typ)
    ensures LegalDeclaration(DeclaredBy(c)) <==> LegalComponent(c)
  {
    var ps := c.schema.properties;
    forall p | p in ps ensures RenderableNode(p.node) {
      HarmlessNodeIsRenderable(p.node, false);
    }
    MembersPrint(ps, c.schema.required);
    FieldsKnown(ps, c.schema.required);
  }

  /** The text from component i on, behind the blank line before it. */
  function Tail(cs: seq<Component>, i: nat): string
    requires i < |cs|
    decreases |cs| - i, 1
  {
    (if HeadingOf(cs, i) == [] then "" else HeadingOf(cs, i)[0] + "\n\n") + OwnTail(cs, i)
  }

  /** The same without the heading. */
  function OwnTail(cs: seq<Component>, i: nat): string
    requires i < |cs|
    decreases |cs| - i, 0
  {
    DeclarationText(DeclaredBy(cs[i])) + if i + 1 == |cs| then "\n" else "\n\n" + Tail(cs, i + 1)
  }

  lemma {:induction false} BlocksAreTail(cs: seq<Component>, i: nat)
    requires i < |cs| && forall c | c in cs :: Writable(c)
    ensures Blocks(cs, i).Ok? && Blocks(cs, i).value != []
    ensures JoinBlocks(Blocks(cs, i).value) + "\n" == Tail(cs, i)
    decreases |cs| - i
  {
    InterfaceIs(cs[i]);
    var text := DeclarationText(DeclaredBy(cs[i]));
    if i + 1 == |cs| {
      assert Blocks(cs, i + 1) == Ok([]);
      JoinOwn(HeadingOf(cs, i), text, [], "\n");
    } else {
      BlocksAreTail(cs, i + 1);
      JoinOwn(HeadingOf(cs, i), text, Blocks(cs, i + 1).value, "\n");
    }
  }

  lemma JoinOwn(heading: seq<string>, text: string, rest: seq<string>, k: string)
    requires |heading| <= 1
    ensures JoinBlocks(heading + [text] + rest) + k
         == (if heading == [] then "" else heading[0] + "\n\n")
            + (text + if rest == [] then k else "\n\n" + (JoinBlocks(rest) + k))
  {
    JoinText(text, rest, k);
    var more := [text] + rest;
    Assoc(heading, [text], rest);
    if heading == [] {
      assert [] + more == more && "" + (JoinBlocks(more) + k) == JoinBlocks(more) + k;
    } else {
      assert heading == [heading[0]];
      JoinHeading(heading[0], more, k);
    }
  }

  lemma JoinHeading(heading: string, more: seq<string>, k: string)
    requires more != []
    ensures JoinBlocks([heading] + more) + k == (heading + "\n\n") + (JoinBlocks(more) + k)
  {
    assert ([heading] + more)[1..] == more;
    Assoc(heading, "\n\n" + JoinBlocks(more), k);
    Assoc("\n\n", JoinBlocks(more), k);
    Assoc(heading, "\n\n", JoinBlocks(more) + k);
  }

  lemma JoinText(text: string, rest: seq<string>, k: string)
    ensures JoinBlocks([text] + rest) + k == text + if rest == [] then k else "\n\n" + (JoinBlocks(rest) + k)
  {
    assert ([text] + rest)[1..] == rest;
    if rest != [] {
      Assoc(text, "\n\n" + JoinBlocks(rest), k);
      Assoc("\n\n", JoinBlocks(rest), k);
    } else {
      assert [text] + rest == [text];
    }
  }

  lemma PassComment(line: string, k: string)
    requires "// " <= line && OneLine(line)
    ensures ParseBlocks(line + ("\n\n" + k)) ==
            match ParseBlocks(k) case Some(blocks) => Some([Comment(line)] + blocks) case None => None
  {
    var rest := "\n\n" + k;
    var s := line + rest;
    assert s[0] == line[0] == '/' && s[1] == line[1] == '/' && s[2] == line[2] == ' ';
    SpanExact(line, rest, c => !IsLineEnd(c));
    assert s[..|line|] == line && s[|line|..] == rest && rest[2..] == k;
  }

  lemma PassHeading(domain: string, k: string)
    requires OneLine(domain)
    ensures ParseBlocks(Heading(domain) + "\n\n" + k) ==
            match ParseBlocks(k) case Some(blocks) => Some([Comment(Heading(domain))] + blocks) case None => None
  {
    Assoc(Heading(domain), "\n\n", k);
    assert forall i | 0 <= i < |RULE| :: !IsLineEnd(RULE[i]);
    PassComment(Heading(domain), k);
  }

  lemma DeclarationStart(d: Declared, k: string)
    ensures var s := DeclarationText(d) + k; s != "\n" && !("// " <= s)
  {
    var s := DeclarationText(d) + k;
    assert s[0] == DeclarationText(d)[0] && s[1] == DeclarationText(d)[1];
    assert d.doc == "" ==> DeclarationText(d)[0] == EXPORT[0] == 'e';
    assert d.doc != "" ==> DeclarationText(d)[0] == DOC_OPEN[0] == '/' && DeclarationText(d)[1] == DOC_OPEN[1] == '*';
  }

  lemma ReadLastBlock(d: Declared)
    requires LegalDeclaration(d) && forall f | f in d.fields :: Canonical(f.typ)
    ensures ParseBlocks(DeclarationText(d) + "\n") == Some([Declaration(d)])
  {
    DeclarationStart(d, "\n");
    ReadDeclaration(d, "\n");
  }

  lemma ReadMoreBlocks(d: Declared, more: string, blocks: seq<Block>)
    requires LegalDeclaration(d) && forall f | f in d.fields :: Canonical(f.typ)
    requires ParseBlocks(more) == Some(blocks)
    ensures ParseBlocks(DeclarationText(d) + ("\n\n" + more)) == Some([Declaration(d)] + blocks)
  {
    DeclarationStart(d, "\n\n" + more);
    ReadDeclaration(d, "\n\n" + more);
    ReadNextBlock(DeclarationText(d) + ("\n\n" + more), d, more, blocks);
  }

  lemma ReadNextBlock(s: string, d: Declared, more: string, blocks: seq<Block>)
    requires s != "\n" && !("// " <= s) && ParseDeclaration(s) == Some((d, "\n\n" + more))
    requires ParseBlocks(more) == Some(blocks)
    ensures ParseBlocks(s) == Some([Declaration(d)] + blocks)
  {
    Indented("\n\n", more);
    assert |"\n\n" + more| > |"\n"|;
  }

  lemma PassHeadingOf(cs: seq<Component>, i: nat)
    requires i < |cs| && Writable(cs[i])
    ensures ParseBlocks(Tail(cs, i)) ==
            match ParseBlocks(OwnTail(cs, i))
            case Some(blocks) => Some(HeadingBlocks(cs, i) + blocks)
            case None => None
  {
    HeadingsAreBlocks(cs, i);
    if HeadingOf(cs, i) == [] {
      assert "" + OwnTail(cs, i) == OwnTail(cs, i);
      if ParseBlocks(OwnTail(cs, i)).Some? {
        assert [] + ParseBlocks(OwnTail(cs, i)).value == ParseBlocks(OwnTail(cs, i)).value;
      }
    } else {
      PassHeading(cs[i].domain.value, OwnTail(cs, i));
    }
  }

  lemma {:induction false} ReadTail(cs: seq<Component>, i: nat)
    requires i < |cs| && forall c | c in cs :: Writable(c) && LegalComponent(c)
    ensures ParseBlocks(Tail(cs, i)) == Some(BlocksFrom(cs, i))
    decreases |cs| - i
  {
    var d := DeclaredBy(cs[i]);
    assert Writable(cs[i]) && LegalComponent(cs[i]);
    InterfaceIs(cs[i]);
    PassHeadingOf(cs, i);
    if i + 1 == |cs| {
      ReadLastBlock(d);
      assert BlocksFrom(cs, i + 1) == [] && [Declaration(d)] + [] == [Declaration(d)];
    } else {
      ReadTail(cs, i + 1);
      ReadMoreBlocks(d, Tail(cs, i + 1), BlocksFrom(cs, i + 1));
    }
  }

  /** The header is one comment, opened on its own line. */
  predicate IsHeader(header: string) {
    IsDocText(header) && "\n" <= header
  }

  lemma {:induction false} HeaderEnds(header: string, k: string)
    requires IsDocText(header)
    ensures CommentEnd(header + ("*/" + k)) == Some(|header|)
  {
    var s := header + ("*/" + k);
    if header == "" {
      assert s == "*/" + k;
    } else {
      assert s[1..] == header[1..] + ("*/" + k);
      HeaderEnds(header[1..], k);
      assert s[0] == header[0] && s[1] == if |header| > 1 then header[1] else '*';
    }
  }

  lemma PassHeader(header: string, k: string)
    requires IsHeader(header)
    ensures ParseFile(HeaderText(header) + ("\n" + k)) == ParseBlocks(k)
  {
    var body := header + ("*/" + ("\n\n" + k));
    assert HeaderText(header) + ("\n" + k) == "/**" + body;
    Indented("/**", body);
    PassHeaderText(header, k);
  }

  lemma PassHeaderText(header: string, k: string)
    requires IsDocText(header)
    ensures ParseCommented(header + ("*/" + ("\n\n" + k))) == ParseBlocks(k)
  {
    HeaderEnds(header, "\n\n" + k);
    assert (header + ("*/" + ("\n\n" + k)))[|header| + 2..] == "\n\n" + k;
    PassGap(k);
  }

  lemma PassGap(k: string)
    ensures ParseBehindGap("\n\n" + k) == ParseBlocks(k)
  {
    Indented("\n\n", k);
  }

  lemma {:induction false} BlocksAreLegal(s: string)
    requires ParseBlocks(s).Some?
    ensures forall d | Declaration(d) in ParseBlocks(s).value :: LegalDeclaration(d)
    decreases |s|
  {
    if s == "\n" {
    } else if "// " <= s {
      BlocksAreLegal(s[Span(s, c => !IsLineEnd(c))..][2..]);
    } else {
      ParsedDeclarationIsLegal(s);
      var rest := ParseDeclaration(s).value.1;
      if rest != "\n" {
        BlocksAreLegal(rest[2..]);
      }
    }
  }

  lemma {:induction false} DeclaredMember(cs: seq<Component>, i: nat, j: nat)
    requires i <= j < |cs|
    ensures Declaration(DeclaredBy(cs[j])) in BlocksFrom(cs, i)
    decreases j - i
  {
    if i < j {
      DeclaredMember(cs, i + 1, j);
    }
  }

  /**
   * The file reads back as its components' declarations, in order, each behind a heading where the domain
   * changes, exactly if every component has a legal name and no description ends the comment it stands in.
   */
  lemma FileReadsBackIff(header: string, cs: seq<Component>)
    requires IsHeader(header) && forall c | c in cs :: Writable(c)
    ensures FileText(header, Some(cs)).Ok?
    ensures ParseFile(FileText(header, Some(cs)).value) == Some(BlocksFrom(cs, 0))
       <==> forall c | c in cs :: LegalComponent(c)
  {
    FileIsTail(header, cs);
    if cs != [] {
      if forall c | c in cs :: LegalComponent(c) {
        ReadTail(cs, 0);
      }
      if ParseBlocks(Tail(cs, 0)) == Some(BlocksFrom(cs, 0)) {
        BlocksAreLegal(Tail(cs, 0));
        forall c | c in cs ensures LegalComponent(c) {
          var j :| 0 <= j < |cs| && cs[j] == c;
          DeclaredMember(cs, 0, j);
          InterfaceIs(c);
        }
      }
    }
  }

  lemma FileIsTail(header: string, cs: seq<Component>)
    requires IsHeader(header) && forall c | c in cs :: Writable(c)
    ensures FileText(header, Some(cs)).Ok?
    ensures ParseFile(FileText(header, Some(cs)).value) == if cs == [] then Some([]) else ParseBlocks(Tail(cs, 0))
  {
    if cs == [] {
      assert Blocks(cs, 0) == Ok([]);
      assert "" + "\n" == "\n";
      PassHeader(header, "\n");
    } else {
      BlocksAreTail(cs, 0);
      PassHeader(header, Tail(cs, 0));
    }
  }

  // ----- What the file means -----

  /** An object schema that an interface can say exactly. */
  predicate ExactComponent(c: Component) {
    && Writable(c) && LegalComponent(c)
    && c.schema.ref.None? && c.schema.anyOf.NoAnyOf? && c.schema.constant.None? && c.schema.choices.None?
    && c.schema.typ == Named("object") && (c.schema.additional.None? || c.schema.additional.value == Bare(true))
    && (forall name | name in c.schema.required :: name in Names(c.schema.properties))
    && forall p | p in c.schema.properties :: ExpressibleNode(p.node)
  }

  /** Somewhere in the type the generic map type is used. */
  predicate UsesMap(t: Ts) {
    match t
    case RecordOf(_) => true
    case ArrayOf(e) => UsesMap(e)
    case Shape(fs) => exists f | f in fs :: UsesMap(f.typ)
    case Union(ms) => exists m | m in ms :: UsesMap(m)
    case _ => false
  }

  /** No interface hides the generic map type from a type that uses it. */
  predicate MapsKeepTheirMeaning(cs: seq<Component>) {
    (exists c | c in cs :: c.name == RECORD_WORD) ==> forall c | c in cs :: !UsesMap(Shape(DeclaredBy(c).fields))
  }

  /** An interpretation of the component names under which each name is what its schema admits. */
  ghost predicate FitsSchemas(cs: seq<Component>, env: Components) {
    forall c, v | c in cs :: env(c.name, v) <==> Admits(c.schema, env, v)
  }

  /** The same for the interfaces that a file declares. */
  ghost predicate FitsFile(text: string, env: Components) {
    ParseFile(text).Some?
    && forall d, v | Declaration(d) in ParseFile(text).value :: env(d.name, v) <==> Denotes(Shape(d.fields), env, v)
  }

  lemma ComponentIsExact(c: Component, env: Components, v: Value)
    requires ExactComponent(c)
    ensures Denotes(Shape(DeclaredBy(c).fields), env, v) <==> Admits(c.schema, env, v)
  {
    var s := c.schema;
    forall p | p in s.properties ensures RenderableNode(p.node) {
      HarmlessNodeIsRenderable(p.node, false);
    }
    if Admits(s, env, v) {
      ComponentLosesNothing(c, env, v);
    }
    if Denotes(Shape(DeclaredBy(c).fields), env, v) {
      FieldsAddNothing(s, env, v);
      ComponentAdmits(c, env, v);
    }
  }

  lemma ComponentLosesNothing(c: Component, env: Components, v: Value)
    requires ExactComponent(c) && Admits(c.schema, env, v)
    ensures Denotes(Shape(DeclaredBy(c).fields), env, v)
  {
    forall p | p in c.schema.properties ensures RenderableNode(p.node) && NoTrueMemberIn(p.node) {
      HarmlessNodeIsRenderable(p.node, false);
      if p.node.Sub? {
        ExpressibleHasNoTrueMember(p.node.schema);
      }
    }
    FieldsLoseNothing(c.schema, env, v);
  }

  lemma ComponentAdmits(c: Component, env: Components, v: Value)
    requires ExactComponent(c) && v.Obj? && forall name | name in c.schema.required :: name in v.entries
    requires forall p | p in c.schema.properties && p.name in v.entries :: NodeAdmits(p.node, env, v.entries[p.name])
    ensures Admits(c.schema, env, v)
  {
  }

  lemma {:induction false} DeclaredByOne(cs: seq<Component>, i: nat, d: Declared) returns (c: Component)
    requires i <= |cs| && Declaration(d) in BlocksFrom(cs, i)
    ensures c in cs && DeclaredBy(c) == d
    decreases |cs| - i
  {
    if DeclaredBy(cs[i]) == d {
      c := cs[i];
    } else {
      c := DeclaredByOne(cs, i + 1, d);
    }
  }

  /**
   * References included: what the component names may stand for, given the schemas, is what they may stand
   * for given the interfaces of the generated file.
   */
  lemma FileIsExact(header: string, cs: seq<Component>, env: Components)
    requires IsHeader(header) && MapsKeepTheirMeaning(cs) && forall c | c in cs :: ExactComponent(c)
    ensures FileText(header, Some(cs)).Ok?
    ensures FitsSchemas(cs, env) <==> FitsFile(FileText(header, Some(cs)).value, env)
  {
    var blocks := BlocksFrom(cs, 0);
    FileReadsBackIff(header, cs);
    forall c, v | c in cs
      ensures Declaration(DeclaredBy(c)) in blocks
      ensures Denotes(Shape(DeclaredBy(c).fields), env, v) <==> Admits(c.schema, env, v)
    {
      var j :| 0 <= j < |cs| && cs[j] == c;
      DeclaredMember(cs, 0, j);
      ComponentIsExact(c, env, v);
    }
    forall d | Declaration(d) in blocks ensures exists c :: c in cs && DeclaredBy(c) == d {
      var c := DeclaredByOne(cs, 0, d);
    }
  }
}

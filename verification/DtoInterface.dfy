/**
 * The interface declaration written for a component schema: its comment, its name and its body, with
 * property names quoted where they are no plain identifiers. A whole declaration is parsed back.
 */
module DtoInterface {
  import opened Wrappers
  import opened Basics
  import opened TsGrammar
  import opened TsRoundTrip
  import opened Splitter
  import opened DtoCompiler
  import opened DtoText
  import opened DtoMeaning

  // ----- Quoted property names: JSON's escapes -----

  const HEX := "0123456789abcdef"

  function EscapeChar(c: char): string {
    if c == '"' then "\\\""
    else if c == '\\' then "\\\\"
    else if c == '\n' then "\\n"
    else if c == '\r' then "\\r"
    else if c == '\t' then "\\t"
    else if c == 8 as char then "\\b"
    else if c == 12 as char then "\\f"
    else if c < ' ' then "\\u00" + [HEX[c as int / 16], HEX[c as int % 16]]
    else [c]
  }

  function Escape(s: string): string {
    if s == "" then "" else EscapeChar(s[0]) + Escape(s[1..])
  }

  function HexValue(c: char): Option<int> {
    if IsDigit(c) then Some(c as int - '0' as int)
    else if 'a' <= c <= 'f' then Some(c as int - 'a' as int + 10)
    else None
  }

  function SimpleEscape(c: char): Option<char> {
    match c
    case '"' => Some('"')
    case '\\' => Some('\\')
    case 'n' => Some('\n')
    case 'r' => Some('\r')
    case 't' => Some('\t')
    case 'b' => Some(8 as char)
    case 'f' => Some(12 as char)
    case _ => None
  }

  /** One character of a string literal, the closing quote not among them. */
  function ReadChar(s: string): (r: Option<(char, string)>)
    ensures r.Some? ==> |r.value.1| < |s|
  {
    if s == "" || s[0] == '"' || s[0] == '\n' then None
    else if s[0] != '\\' then Some((s[0], s[1..]))
    else if |s| < 2 then None
    else if SimpleEscape(s[1]).Some? then Some((SimpleEscape(s[1]).value, s[2..]))
    else if |s| >= 6 && s[1..4] == "u00" && HexValue(s[4]).Some? && HexValue(s[5]).Some? then
      Some(((HexValue(s[4]).value * 16 + HexValue(s[5]).value) as char, s[6..]))
    else None
  }

  /** The rest of a string literal behind its opening quote. */
  function ReadString(s: string): (r: Option<(string, string)>)
    ensures r.Some? ==> |r.value.1| < |s|
  {
    if "\"" <= s then Some(("", s[1..]))
    else
      var (c, rest) :- ReadChar(s);
      var (tail, rest') :- ReadString(rest);
      Some(([c] + tail, rest'))
  }

  lemma ReadEscaped(c: char, k: string)
    ensures ReadChar(EscapeChar(c) + k) == Some((c, k))
    ensures !("\"" <= EscapeChar(c) + k)
  {
    var s := EscapeChar(c) + k;
    if c < ' ' && EscapeChar(c)[1] == 'u' {
      var n := c as int;
      assert s[4] == HEX[n / 16] && s[5] == HEX[n % 16] && s[6..] == k;
      assert s[1..4] == "u00" && SimpleEscape('u') == None;
      HexDigit(n / 16);
      HexDigit(n % 16);
    } else if EscapeChar(c) == [c] {
      assert s[0] == c && s[1..] == k;
    } else {
      assert s[0] == '\\' && s[2..] == k;
    }
  }

  lemma HexDigit(n: nat)
    requires n < 16
    ensures HexValue(HEX[n]) == Some(n)
  {
    assert HEX[0] == '0' && HEX[1] == '1' && HEX[2] == '2' && HEX[3] == '3' && HEX[4] == '4' && HEX[5] == '5';
    assert HEX[6] == '6' && HEX[7] == '7' && HEX[8] == '8' && HEX[9] == '9' && HEX[10] == 'a' && HEX[11] == 'b';
    assert HEX[12] == 'c' && HEX[13] == 'd' && HEX[14] == 'e' && HEX[15] == 'f';
  }

  /** Whatever the name, its escaped text reads back as the name. */
  lemma {:induction false} ReadEscape(name: string, k: string)
    ensures ReadString(Escape(name) + ("\"" + k)) == Some((name, k))
  {
    var rest := "\"" + k;
    if name == "" {
      assert Escape(name) + rest == rest && rest[1..] == k;
    } else {
      Assoc(EscapeChar(name[0]), Escape(name[1..]), rest);
      ReadEscaped(name[0], Escape(name[1..]) + rest);
      ReadEscape(name[1..], k);
      assert [name[0]] + name[1..] == name;
    }
  }

  // ----- Interface bodies -----

  /** An identifier of ASCII characters alone. */
  predicate IsPlainName(name: string) {
    name != "" && !IsDigit(name[0]) && forall i | 0 <= i < |name| :: IsAsciiIdentChar(name[i])
  }

  function SafeFieldName(name: string): string {
    if IsPlainName(name) then name else "\"" + Escape(name) + "\""
  }

  /** The lines of one property. */
  function MemberText(f: Field): string {
    DocPart(f.doc) + (SafeFieldName(f.name) + (Mark(f.optional) + (": " + (Print(f.typ) + ";"))))
  }

  function DocPart(doc: string): string {
    if doc == "" then "  " else "  " + (DOC_OPEN + doc + " */") + "\n  "
  }

  function Mark(optional: bool): string {
    if optional then "?" else ""
  }

  function MembersText(fs: seq<Field>): string {
    if fs == [] then ""
    else if |fs| == 1 then MemberText(fs[0])
    else MemberText(fs[0]) + ("\n" + MembersText(fs[1..]))
  }

  function BodyText(fs: seq<Field>): string {
    "{\n" + MembersText(fs) + "\n}"
  }

  function MemberLines(ps: seq<Property>, required: seq<string>): Result<string, DtoError> {
    if ps == [] then Ok("")
    else
      var t :- NodeType(ps[0].node);
      var name := SafeFieldName(ps[0].name);
      var line := DocPart(DocOf(ps[0].node)) + (name + (Mark(ps[0].name !in required) + (": " + (t + ";"))));
      var rest :- MemberLines(ps[1..], required);
      Ok(if |ps| == 1 then line else line + ("\n" + rest))
  }

  datatype FileError = NoSchemas | NoObject | InType(error: DtoError)

  /** A component without `properties` is refused. */
  function InterfaceBody(properties: Option<seq<Property>>, required: seq<string>): Result<string, FileError> {
    if properties.None? then Err(NoObject)
    else
      match MemberLines(properties.value, required)
      case Ok(lines) => Ok("{\n" + lines + "\n}")
      case Err(e) => Err(InType(e))
  }

  function ParseName(s: string): (r: Option<(string, string)>)
    ensures r.Some? ==> |r.value.1| < |s|
  {
    if "\"" <= s then ReadString(s[1..])
    else
      var n := Span(s, IsIdentChar);
      if IsName(s[..n]) then Some((s[..n], s[n..])) else None
  }

  function ParseNamed(doc: string, s: string): (r: Option<(Field, string)>)
    ensures r.Some? ==> |r.value.1| < |s|
  {
    var (name, marked) :- ParseName(s);
    var typed := if "?" <= marked then marked[1..] else marked;
    if !(": " <= typed) then None
    else
      var (t, rest) :- ParseUnion(typed[2..]);
      if ";" <= rest then Some((Field(doc, name, "?" <= marked, t), rest[1..])) else None
  }

  function ParseMember(s: string): (r: Option<(Field, string)>)
    ensures r.Some? ==> |r.value.1| < |s|
  {
    if !("  " <= s) then None
    else if !(DOC_OPEN <= s[2..]) then ParseNamed("", s[2..])
    else
      var (doc, rest) :- ParseDoc(s[2..]);
      if "\n  " <= rest then ParseNamed(doc, rest[3..]) else None
  }

  /** The properties of an interface up to and with its closing brace. */
  function ParseMemberLines(s: string): (r: Option<(seq<Field>, string)>)
    ensures r.Some? ==> |r.value.1| < |s|
    decreases |s|
  {
    var (f, rest) :- ParseMember(s);
    if "\n}" <= rest then Some(([f], rest[2..]))
    else if "\n" <= rest then
      var (fs, rest') :- ParseMemberLines(rest[1..]);
      Some(([f] + fs, rest'))
    else None
  }

  function ParseBody(s: string): (r: Option<(seq<Field>, string)>)
    ensures r.Some? ==> |r.value.1| < |s|
  {
    if "{\n\n}" <= s then Some(([], s[4..]))
    else if "{\n" <= s then ParseMemberLines(s[2..])
    else None
  }

  // ----- Declarations -----

  const EXPORT := "export interface "

  datatype Declared = Declared(name: string, doc: string, fields: seq<Field>)

  function CommentLine(doc: string): string {
    if doc == "" then "" else DOC_OPEN + doc + " */" + "\n"
  }

  function DeclarationText(d: Declared): string {
    CommentLine(d.doc) + (EXPORT + (d.name + (" " + BodyText(d.fields))))
  }

  function ParseComment(s: string): (r: Option<(string, string)>)
    ensures r.Some? ==> |r.value.1| <= |s|
  {
    if !(DOC_OPEN <= s) then Some(("", s))
    else
      var (doc, rest) :- ParseDoc(s);
      if "\n" <= rest then Some((doc, rest[1..])) else None
  }

  function ParseDeclaration(s: string): (r: Option<(Declared, string)>)
    ensures r.Some? ==> |r.value.1| < |s|
  {
    var (doc, rest) :- ParseComment(s);
    if !(EXPORT <= rest) then None
    else
      var named := rest[|EXPORT|..];
      var n := Span(named, IsIdentChar);
      if !IsComponentName(named[..n]) || !(" " <= named[n..]) then None
      else
        var (fields, rest') :- ParseBody(named[n + 1..]);
        Some((Declared(named[..n], doc, fields), rest'))
  }

  // ----- A body is read back -----

  lemma ReadName(name: string, k: string)
    requires k != "" && !IsIdentChar(k[0])
    ensures ParseName(SafeFieldName(name) + k) == Some((name, k))
  {
    if IsPlainName(name) {
      ReadPlainName(name, k);
    } else {
      ReadEscape(name, k);
      ReadQuotedName(Escape(name) + ("\"" + k));
      Assoc("\"", Escape(name), "\"");
      Assoc("\"", Escape(name) + "\"", k);
      Assoc(Escape(name), "\"", k);
    }
  }

  lemma ReadPlainName(name: string, k: string)
    requires IsName(name) && k != "" && !IsIdentChar(k[0])
    ensures ParseName(name + k) == Some((name, k))
  {
    var s := name + k;
    SpanExact(name, k, IsIdentChar);
    assert s[0] == name[0] && s[..|name|] == name && s[|name|..] == k;
  }

  lemma ReadQuotedName(rest: string)
    ensures ParseName("\"" + rest) == ReadString(rest)
  {
    assert ("\"" + rest)[1..] == rest;
  }

  lemma ReadTyped(f: Field, k: string)
    requires Canonical(f.typ)
    ensures var s := SafeFieldName(f.name) + (Mark(f.optional) + (": " + (Print(f.typ) + (";" + k))));
            ParseNamed(f.doc, s) == Some((f, k))
  {
    var body := Print(f.typ) + (";" + k);
    ReadMark(f.optional, body);
    ReadName(f.name, Mark(f.optional) + (": " + body));
    ParsePrintUnion(f.typ, ";" + k);
    assert (";" + k)[1..] == k;
  }

  lemma SafeNameStart(name: string, k: string)
    ensures !(DOC_OPEN <= SafeFieldName(name) + k)
  {
    var s := SafeFieldName(name) + k;
    assert s[0] == if IsPlainName(name) then name[0] else '"';
    assert DOC_OPEN[0] == '/';
  }

  lemma ReadMember(f: Field, k: string)
    requires IsDocText(f.doc) && Canonical(f.typ)
    ensures ParseMember(MemberText(f) + k) == Some((f, k))
  {
    var named := SafeFieldName(f.name) + (Mark(f.optional) + (": " + (Print(f.typ) + (";" + k))));
    MemberTail(f, k);
    ReadTyped(f, k);
    if f.doc == "" {
      SafeNameStart(f.name, Mark(f.optional) + (": " + (Print(f.typ) + (";" + k))));
      assert ("  " + named)[2..] == named;
    } else {
      DocLineExact(f.doc, named);
    }
  }

  lemma MemberTail(f: Field, k: string)
    ensures MemberText(f) + k
         == DocPart(f.doc) + (SafeFieldName(f.name) + (Mark(f.optional) + (": " + (Print(f.typ) + (";" + k)))))
  {
    var typed := Print(f.typ) + ";";
    Assoc(Print(f.typ), ";", k);
    Assoc(": ", typed, k);
    Assoc(Mark(f.optional), ": " + typed, k);
    Assoc(SafeFieldName(f.name), Mark(f.optional) + (": " + typed), k);
    Assoc(DocPart(f.doc), SafeFieldName(f.name) + (Mark(f.optional) + (": " + typed)), k);
  }

  lemma DocLineExact(doc: string, named: string)
    requires doc != "" && IsDocText(doc)
    ensures var s := DocPart(doc) + named;
            "  " <= s && DOC_OPEN <= s[2..] && ParseDoc(s[2..]) == Some((doc, "\n  " + named))
            && ("\n  " + named)[3..] == named
  {
    var rest := "\n  " + named;
    var body := doc + " */" + rest;
    DocPartText(doc, named);
    Indented("  ", DOC_OPEN + body);
    Indented("\n  ", named);
    CommentEndExact(doc, rest);
    ReadDoc(doc, body, rest);
    assert DOC_OPEN <= DOC_OPEN + body;
  }

  lemma DocPartText(doc: string, named: string)
    requires doc != ""
    ensures DocPart(doc) + named == "  " + (DOC_OPEN + (doc + " */" + ("\n  " + named)))
  {
    Assoc("  " + (DOC_OPEN + doc + " */"), "\n  ", named);
    Assoc("  ", DOC_OPEN + doc + " */", "\n  " + named);
    Assoc(DOC_OPEN, doc, " */");
    Assoc(DOC_OPEN, doc + " */", "\n  " + named);
  }

  lemma Indented(indent: string, s: string)
    ensures indent <= indent + s && (indent + s)[|indent|..] == s
  {
  }

  predicate GoodMember(f: Field) {
    IsDocText(f.doc) && Canonical(f.typ)
  }

  lemma {:induction false} ReadMembers(fs: seq<Field>, k: string)
    requires fs != [] && forall f | f in fs :: GoodMember(f)
    ensures ParseMemberLines(MembersText(fs) + ("\n}" + k)) == Some((fs, k))
    decreases |fs|
  {
    assert GoodMember(fs[0]);
    if |fs| == 1 {
      ReadMember(fs[0], "\n}" + k);
      ReadLastMember(MemberText(fs[0]) + ("\n}" + k), fs[0], k);
      assert fs == [fs[0]];
    } else {
      var q := MembersText(fs[1..]) + ("\n}" + k);
      ReadMember(fs[0], "\n" + q);
      ReadMembers(fs[1..], k);
      MembersStart(fs[1..]);
      ReadNextMember(MemberText(fs[0]) + ("\n" + q), fs, q, k);
      Assoc(MemberText(fs[0]), "\n" + MembersText(fs[1..]), "\n}" + k);
      Assoc("\n", MembersText(fs[1..]), "\n}" + k);
    }
  }

  lemma ReadLastMember(s: string, f: Field, k: string)
    requires ParseMember(s) == Some((f, "\n}" + k))
    ensures ParseMemberLines(s) == Some(([f], k))
  {
    assert ("\n}" + k)[2..] == k;
  }

  lemma ReadNextMember(s: string, fs: seq<Field>, q: string, k: string)
    requires |fs| > 1 && ParseMember(s) == Some((fs[0], "\n" + q)) && q != "" && q[0] == ' '
    requires ParseMemberLines(q) == Some((fs[1..], k))
    ensures ParseMemberLines(s) == Some((fs, k))
  {
    var rest := "\n" + q;
    assert rest[1..] == q && rest[1] == ' ' && "\n}"[1] == '}';
    assert fs == [fs[0]] + fs[1..];
  }

  lemma MembersStart(fs: seq<Field>)
    requires fs != []
    ensures MembersText(fs) != "" && MembersText(fs)[0] == ' '
  {
    assert DocPart(fs[0].doc)[0] == ' ';
  }

  /** Every interface body is read back, whatever its property names and whatever follows. */
  lemma BodyReadsBack(fs: seq<Field>, k: string)
    requires forall f | f in fs :: GoodMember(f)
    ensures ParseBody(BodyText(fs) + k) == Some((fs, k))
  {
    if fs == [] {
      assert BodyText(fs) == "{\n\n}";
      Indented("{\n\n}", k);
    } else {
      var rest := MembersText(fs) + ("\n}" + k);
      MembersStart(fs);
      ReadMembers(fs, k);
      BodyStart(rest);
      Assoc("{\n", MembersText(fs), "\n}");
      Assoc("{\n", MembersText(fs) + "\n}", k);
      Assoc(MembersText(fs), "\n}", k);
    }
  }

  lemma BodyStart(rest: string)
    requires rest != "" && rest[0] == ' '
    ensures ParseBody("{\n" + rest) == ParseMemberLines(rest)
  {
    var s := "{\n" + rest;
    assert s[2..] == rest && s[2] == ' ' && "{\n\n}"[2] == '\n';
  }

  // ----- And a whole declaration -----

  predicate LegalDeclaration(d: Declared) {
    IsComponentName(d.name) && IsDocText(d.doc) && forall f | f in d.fields :: IsDocText(f.doc)
  }

  lemma ReadComment(doc: string, k: string)
    requires IsDocText(doc) && EXPORT <= k
    ensures ParseComment(CommentLine(doc) + k) == Some((doc, k))
  {
    if doc == "" {
      assert CommentLine(doc) + k == k && k[0] == EXPORT[0] && DOC_OPEN[0] == '/';
    } else {
      var rest := "\n" + k;
      CommentEndExact(doc, rest);
      ReadDoc(doc, doc + " */" + rest, rest);
      Assoc(DOC_OPEN + doc + " */", "\n", k);
      Assoc(DOC_OPEN + doc, " */", rest);
      Assoc(DOC_OPEN, doc, " */" + rest);
      Assoc(doc, " */", rest);
      Indented("\n", k);
      Indented(DOC_OPEN, doc + " */" + rest);
    }
  }

  lemma ReadHead(s: string, doc: string, name: string, body: string)
    requires ParseComment(s) == Some((doc, EXPORT + (name + (" " + body)))) && IsComponentName(name)
    ensures ParseDeclaration(s)
         == match ParseBody(body) case None => None case Some((fs, k)) => Some((Declared(name, doc, fs), k))
  {
    var named := name + (" " + body);
    Indented(EXPORT, named);
    SpanExact(name, " " + body, IsIdentChar);
    assert named[..|name|] == name && named[|name|..] == " " + body && named[|name| + 1..] == body;
  }

  lemma ReadDeclaration(d: Declared, k: string)
    requires LegalDeclaration(d) && forall f | f in d.fields :: Canonical(f.typ)
    ensures ParseDeclaration(DeclarationText(d) + k) == Some((d, k))
  {
    var body := BodyText(d.fields) + k;
    var head := EXPORT + (d.name + (" " + body));
    BodyReadsBack(d.fields, k);
    ReadComment(d.doc, head);
    ReadHead(CommentLine(d.doc) + head, d.doc, d.name, body);
    Assoc(" ", BodyText(d.fields), k);
    Assoc(d.name, " " + BodyText(d.fields), k);
    Assoc(EXPORT, d.name + (" " + BodyText(d.fields)), k);
    Assoc(CommentLine(d.doc), EXPORT + (d.name + (" " + BodyText(d.fields))), k);
  }

  lemma {:induction false} MemberDocsAreLegal(s: string)
    requires ParseMemberLines(s).Some?
    ensures forall f | f in ParseMemberLines(s).value.0 :: IsDocText(f.doc)
    decreases |s|
  {
    if DOC_OPEN <= s[2..] {
      ParsedDocIsLegal(s[2..]);
    }
    var rest := ParseMember(s).value.1;
    if !("\n}" <= rest) {
      MemberDocsAreLegal(rest[1..]);
    }
  }

  /** Whatever is parsed as a declaration is legal. */
  lemma ParsedDeclarationIsLegal(s: string)
    requires ParseDeclaration(s).Some?
    ensures LegalDeclaration(ParseDeclaration(s).value.0)
  {
    if DOC_OPEN <= s {
      ParsedDocIsLegal(s);
    }
    var named := ParseComment(s).value.1[|EXPORT|..];
    var body := named[Span(named, IsIdentChar) + 1..];
    if !("{\n\n}" <= body) {
      MemberDocsAreLegal(body[2..]);
    }
  }

  // ----- What the compiler writes -----

  lemma {:induction false} MembersPrint(ps: seq<Property>, required: seq<string>)
    requires forall p | p in ps :: RenderableNode(p.node)
    ensures MemberLines(ps, required) == Ok(MembersText(FieldTrees(ps, required)))
    decreases |ps|
  {
    if ps != [] {
      NodePrints(ps[0].node);
      MembersPrint(ps[1..], required);
      assert FieldTrees(ps, required)[1..] == FieldTrees(ps[1..], required);
    }
  }

  lemma FieldsKnown(ps: seq<Property>, required: seq<string>)
    requires forall p | p in ps :: RenderableNode(p.node)
    ensures var fs := FieldTrees(ps, required);
            (forall f | f in fs :: Canonical(f.typ))
            && ((forall f | f in fs :: IsDocText(f.doc)) <==> forall p | p in ps :: IsDocText(DocOf(p.node)))
  {
    var fs := FieldTrees(ps, required);
    FieldTreesAre(ps, required);
    forall i | 0 <= i < |ps| ensures Canonical(fs[i].typ) && fs[i].doc == DocOf(ps[i].node) {
      assert ps[i] in ps;
      NodePrints(ps[i].node);
    }
    SameDocs(ps, fs);
  }

  lemma SameDocs(ps: seq<Property>, fs: seq<Field>)
    requires |fs| == |ps| && forall i | 0 <= i < |ps| :: fs[i].doc == DocOf(ps[i].node)
    ensures (forall f | f in fs :: IsDocText(f.doc)) <==> forall p | p in ps :: IsDocText(DocOf(p.node))
  {
    forall i | 0 <= i < |ps| ensures fs[i] in fs && ps[i] in ps {
    }
  }

  /**
   * The declaration of a component reads back exactly if its name is legal and neither its description nor
   * one of its properties ends the comment it stands in.
   */
  lemma DeclarationReadsBackIff(name: string, doc: string, ps: seq<Property>, required: seq<string>)
    requires IsKnownText(name) && forall p | p in ps :: RenderableNode(p.node)
    ensures var d := Declared(name, doc, FieldTrees(ps, required));
            ParseDeclaration(DeclarationText(d)) == Some((d, ""))
            <==> IsComponentName(name) && IsDocText(doc) && forall p | p in ps :: IsDocText(DocOf(p.node))
  {
    var d := Declared(name, doc, FieldTrees(ps, required));
    FieldsKnown(ps, required);
    assert DeclarationText(d) + "" == DeclarationText(d);
    if LegalDeclaration(d) {
      ReadDeclaration(d, "");
    }
    if ParseDeclaration(DeclarationText(d)) == Some((d, "")) {
      ParsedDeclarationIsLegal(DeclarationText(d));
    }
  }
}

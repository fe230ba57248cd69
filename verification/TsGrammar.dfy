/**
 * The fragment of TypeScript's type syntax that the DTO generator writes: its trees, their text,
 * and a recursive-descent parser with TypeScript's precedence (postfix `[]` binds tighter than `|`).
 * The parser never looks at how a text was made; ParsePrint proves that it reads every printed
 * tree back, so the text of a tree is unambiguous.
 */
module TsGrammar {
  import opened Wrappers
  import opened Basics

  datatype Field = Field(doc: string, name: string, optional: bool, typ: Ts)

  /** A word is a keyword (`string`, `null`, ...), a component name or a number literal. */
  datatype Ts =
    | Word(word: string)
    | Quoted(body: string)
    | ArrayOf(elem: Ts)
    | Shape(fields: seq<Field>)
    | RecordOf(elem: Ts)
    | Union(members: seq<Ts>)

  const BAR := " | "
  const RECORD := "Record<string, "
  const RECORD_WORD := "Record"
  const DOC_OPEN := "/** "

  predicate IsAsciiIdentChar(c: char) {
    'a' <= c <= 'z' || 'A' <= c <= 'Z' || '0' <= c <= '9' || c == '_' || c == '$'
  }

  /** Latin letters with marks and the common Chinese characters; TypeScript knows more. */
  predicate IsOtherLetter(c: char) {
    ('\U{C0}' <= c <= '\U{24F}' && c != '\U{D7}' && c != '\U{F7}') || '\U{4E00}' <= c <= '\U{9FA5}'
  }

  /** Text of which it is settled here what TypeScript takes for a letter. */
  predicate IsKnownText(s: string) {
    forall i | 0 <= i < |s| :: s[i] < '\U{80}' || IsOtherLetter(s[i])
  }

  predicate IsIdentChar(c: char) {
    IsAsciiIdentChar(c) || IsOtherLetter(c)
  }

  predicate IsWordChar(c: char) {
    IsIdentChar(c) || c == '.' || c == '-' || c == '+'
  }

  /** Inside a single-quoted literal; no escapes are written. */
  predicate IsQuotedChar(c: char) {
    c != '\'' && c != '\\' && c != '\n' && c != '\r'
  }

  // ----- Trees the generator can write -----

  predicate IsIdent(s: string) {
    s != "" && forall i | 0 <= i < |s| :: IsIdentChar(s[i])
  }

  predicate IsName(s: string) {
    IsIdent(s) && !IsDigit(s[0])
  }

  predicate IsNumberText(s: string) {
    s != "" && (IsDigit(s[0]) || (s[0] == '-' && |s| > 1 && IsDigit(s[1])))
    && forall i | 0 <= i < |s| :: IsDigit(s[i]) || s[i] in {'-', '.', 'e', '+'}
  }

  /** Names that cannot name a type: reserved words, those of strict mode, and the type operators. */
  predicate IsReserved(s: string) {
    match |s|
    case 2 => s in {"do", "if", "in"}
    case 3 => s in {"for", "let", "new", "try", "var"}
    case 4 => s in {"case", "else", "enum", "this", "with"}
    case 5 =>
      s in {"await", "break", "catch", "class", "const", "infer", "keyof", "super", "throw", "while", "yield"}
    case 6 => s in {"delete", "export", "import", "public", "return", "static", "switch", "typeof", "unique"}
    case 7 => s in {"default", "extends", "finally", "package", "private"}
    case 8 => s in {"continue", "debugger", "function", "readonly"}
    case 9 => s in {"interface", "protected"}
    case 10 => s in {"implements", "instanceof"}
    case _ => false
  }

  /** A name standing for a type, or a number. */
  predicate IsWord(s: string) {
    (IsName(s) && !IsReserved(s)) || IsNumberText(s)
  }

  /** The words the generator writes by itself are none of them. */
  lemma OwnWords()
    ensures forall w | w in {"string", "number", "boolean", "null", "unknown", "true", "false"} :: IsWord(w)
  {
    assert "string"[0] == 's' && "string"[1] == 't' && "string"[2] == 'r' && "number"[0] == 'n';
    assert !IsReserved("string");
    assert !IsReserved("number");
    assert !IsReserved("boolean");
    assert !IsReserved("null");
    assert !IsReserved("unknown");
    assert !IsReserved("true");
    assert !IsReserved("false");
  }

  /** A property name without quotes: a name, or a number in its shortest form. */
  predicate IsFieldName(s: string) {
    IsName(s) || (0 < |s| <= 15 && (|s| == 1 || s[0] != '0') && forall i | 0 <= i < |s| :: IsDigit(s[i]))
  }

  /** No end-of-comment mark inside. */
  predicate IsDocText(s: string) {
    forall i | 0 <= i < |s| - 1 :: !(s[i] == '*' && s[i + 1] == '/')
  }

  predicate Canonical(t: Ts) {
    match t
    case Word(w) => IsWord(w)
    case Quoted(s) => forall i | 0 <= i < |s| :: IsQuotedChar(s[i])
    case ArrayOf(e) => Canonical(e)
    case Shape(fs) => fs != [] && forall f | f in fs :: CanonicalField(f)
    case RecordOf(e) => Canonical(e)
    case Union(ms) => |ms| >= 2 && forall m | m in ms :: !m.Union? && Canonical(m)
  }

  predicate CanonicalField(f: Field) {
    IsDocText(f.doc) && IsFieldName(f.name) && Canonical(f.typ)
  }

  /** A union has two members or more and none of them is a union; an object type has a field. */
  predicate Shaped(t: Ts) {
    match t
    case Word(_) => true
    case Quoted(_) => true
    case ArrayOf(e) => Shaped(e)
    case Shape(fs) => fs != [] && forall f | f in fs :: Shaped(f.typ)
    case RecordOf(e) => Shaped(e)
    case Union(ms) => |ms| >= 2 && forall m | m in ms :: !m.Union? && Shaped(m)
  }

  /** Every word, literal, property name and comment is one that TypeScript reads as what it is. */
  predicate Legal(t: Ts) {
    match t
    case Word(w) => IsWord(w)
    case Quoted(s) => forall i | 0 <= i < |s| :: IsQuotedChar(s[i])
    case ArrayOf(e) => Legal(e)
    case Shape(fs) => forall f | f in fs :: IsDocText(f.doc) && IsFieldName(f.name) && Legal(f.typ)
    case RecordOf(e) => Legal(e)
    case Union(ms) => forall m | m in ms :: Legal(m)
  }

  // ----- Text -----

  /** Whether the generator's splitter sees a single part in the tree's text; see Splitter. */
  predicate Flat(t: Ts) {
    match t
    case Union(_) => false
    case RecordOf(e) => Flat(e)
    case _ => true
  }

  function Print(t: Ts): string {
    match t
    case Word(w) => w
    case Quoted(s) => "'" + s + "'"
    case ArrayOf(e) => if Flat(e) then Print(e) + "[]" else "(" + Print(e) + ")[]"
    case Shape(fs) => "{ " + PrintFields(fs) + " }"
    case RecordOf(e) => RECORD + Print(e) + ">"
    case Union(ms) => PrintMembers(ms)
  }

  function PrintMembers(ms: seq<Ts>): string {
    if ms == [] then ""
    else if |ms| == 1 then Print(ms[0])
    else Print(ms[0]) + BAR + PrintMembers(ms[1..])
  }

  function PrintDoc(doc: string): string {
    if doc == "" then "" else DOC_OPEN + doc + " */"
  }

  function PrintField(f: Field): string {
    PrintDoc(f.doc) + f.name + (if f.optional then "?" else "") + ": " + Print(f.typ)
  }

  function PrintFields(fs: seq<Field>): string {
    if fs == [] then ""
    else if |fs| == 1 then PrintField(fs[0])
    else PrintField(fs[0]) + "; " + PrintFields(fs[1..])
  }

  // ----- Parser -----

  /** Length of the longest prefix whose characters all satisfy `p`. */
  function Span(s: string, p: char -> bool): (n: nat)
    ensures n <= |s|
  {
    if s != "" && p(s[0]) then 1 + Span(s[1..], p) else 0
  }

  /** Index of the first end-of-comment mark. */
  function CommentEnd(s: string): (r: Option<nat>)
    ensures r.Some? ==> r.value + 2 <= |s|
  {
    if |s| < 2 then None
    else if s[0] == '*' && s[1] == '/' then Some(0)
    else
      var n :- CommentEnd(s[1..]);
      Some(n + 1)
  }

  function ParseDoc(s: string): (r: Option<(string, string)>)
    ensures r.Some? ==> |r.value.1| <= |s|
  {
    if !(DOC_OPEN <= s) then Some(("", s))
    else
      var body := s[|DOC_OPEN|..];
      var n :- CommentEnd(body);
      if n == 0 || body[n - 1] != ' ' then None else Some((body[..n - 1], body[n + 2..]))
  }

  function ParsePrimary(s: string): (r: Option<(Ts, string)>)
    ensures r.Some? ==> |r.value.1| < |s|
    decreases |s|, 0
  {
    if "(" <= s then
      var (t, rest) :- ParseUnion(s[1..]);
      if ")" <= rest then Some((t, rest[1..])) else None
    else if "{ " <= s then
      var (fs, rest) :- ParseFields(s[2..]);
      if " }" <= rest then Some((Shape(fs), rest[2..])) else None
    else if "'" <= s then
      var n := Span(s[1..], IsQuotedChar);
      if "'" <= s[1 + n..] then Some((Quoted(s[1..1 + n]), s[2 + n..])) else None
    else if RECORD <= s then
      var (t, rest) :- ParseUnion(s[|RECORD|..]);
      if ">" <= rest then Some((RecordOf(t), rest[1..])) else None
    else
      var n := Span(s, IsWordChar);
      if IsWord(s[..n]) then Some((Word(s[..n]), s[n..])) else None
  }

  /** Each `[]` that follows makes an array of what precedes it. */
  function Suffixes(t: Ts, s: string): (r: (Ts, string))
    ensures |r.1| <= |s|
    decreases |s|
  {
    if "[]" <= s then Suffixes(ArrayOf(t), s[2..]) else (t, s)
  }

  function ParsePostfix(s: string): (r: Option<(Ts, string)>)
    ensures r.Some? ==> |r.value.1| < |s|
    decreases |s|, 1
  {
    var (t, rest) :- ParsePrimary(s);
    Some(Suffixes(t, rest))
  }

  function ParseMembers(s: string): (r: Option<(seq<Ts>, string)>)
    ensures r.Some? ==> r.value.0 != [] && |r.value.1| < |s|
    decreases |s|, 2
  {
    var (head, rest) :- ParsePostfix(s);
    if BAR <= rest then
      var (tail, rest') :- ParseMembers(rest[|BAR|..]);
      Some(([head] + tail, rest'))
    else
      Some(([head], rest))
  }

  function ParseUnion(s: string): (r: Option<(Ts, string)>)
    ensures r.Some? ==> |r.value.1| < |s|
    decreases |s|, 3
  {
    var (ms, rest) :- ParseMembers(s);
    Some((if |ms| == 1 then ms[0] else Union(ms), rest))
  }

  function ParseField(s: string): (r: Option<(Field, string)>)
    ensures r.Some? ==> |r.value.1| < |s|
    decreases |s|, 4
  {
    var (doc, named) :- ParseDoc(s);
    var n := Span(named, IsIdentChar);
    var marked := named[n..];
    var optional := "?" <= marked;
    var typed := if optional then marked[1..] else marked;
    if !IsFieldName(named[..n]) || !(": " <= typed) then None
    else
      var (t, rest) :- ParseUnion(typed[2..]);
      Some((Field(doc, named[..n], optional, t), rest))
  }

  function ParseFields(s: string): (r: Option<(seq<Field>, string)>)
    ensures r.Some? ==> |r.value.1| < |s|
    decreases |s|, 5
  {
    var (head, rest) :- ParseField(s);
    if "; " <= rest then
      var (tail, rest') :- ParseFields(rest[2..]);
      Some(([head] + tail, rest'))
    else
      Some(([head], rest))
  }

  /** The tree a whole text denotes, if it is a type. */
  function Parse(s: string): Option<Ts> {
    var (t, rest) :- ParseUnion(s);
    if rest == "" then Some(t) else None
  }
}

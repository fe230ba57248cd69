/**
 * Where the compiler's text is wrong: for each condition of the theorems a family of schemas on which the
 * text is right exactly if the condition holds, and what a type cannot say at all.
 */
module DtoLimits {
  import opened Wrappers
  import opened Basics
  import opened TsGrammar
  import opened TsRoundTrip
  import opened Splitter
  import opened DtoCompiler
  import opened DtoText
  import opened DtoMeaning

  const EMPTY := Schema(None, NoAnyOf, None, None, Untyped, None, [], [], None, "")

  function Plain(name: string): Node {
    Sub(EMPTY.(typ := Named(name)))
  }

  function OneOf(nodes: seq<Node>): Node {
    Sub(EMPTY.(anyOf := AnyOf(nodes)))
  }

  function MapOf(n: Node): Node {
    Sub(EMPTY.(typ := Named("object"), additional := Some(n)))
  }

  function ListOf(n: Node): Node {
    Sub(EMPTY.(typ := Named("array"), items := Some(n)))
  }

  function Const(s: string): Node {
    Sub(EMPTY.(constant := Some(Str(s))))
  }

  // ----- A map to a union, cut by the splitter -----

  lemma Tails<T>(x: T, y: T, z: T)
    ensures [x, y, z][1..] == [y, z] && [y, z][1..] == [z] && [z][1..] == []
  {
  }

  /** A cut piece is no type, so it is not the text of one. */
  lemma CutPiecesAreNoTypes(t: Ts)
    requires Canonical(t)
    ensures ParseUnion(RECORD + Print(t)) == None
    ensures ParseUnion(Print(t) + ">") == Some((t, ">"))
  {
    ParsePrintUnion(t, ">");
    ParsePrintUnion(t, "");
    var cut := RECORD + Print(t);
    assert Print(t) + "" == Print(t);
    assert cut[|RECORD|..] == Print(t);
    assert cut[0] == 'R';
    assert ParsePrimary(cut) == None;
    assert ParsePostfix(cut) == None;
    assert ParseMembers(cut) == None;
  }

  lemma CutPiecesDiffer(a: Ts, b: Ts, t: Ts)
    requires Canonical(a) && Canonical(b) && Canonical(t)
    ensures RECORD + Print(a) != Print(t) && Print(b) + ">" != Print(t)
    ensures RECORD + Print(a) != Print(b) + ">"
  {
    CutPiecesAreNoTypes(a);
    CutPiecesAreNoTypes(b);
    ParsePrintUnion(t, "");
    assert Print(t) + "" == Print(t);
  }

  predicate IsMember(t: Ts) {
    Sound(t) && Flat(t) && !t.Union?
  }

  lemma MapPieces(a: Ts, m: Ts, b: Ts)
    requires IsMember(a) && IsMember(m) && IsMember(b)
    ensures Pieces(RecordOf(Union([a, m, b]))) == [RECORD + Print(a), Print(m), Print(b) + ">"]
  {
    FlatPieces([a, m, b]);
    assert MemberPieces([a, m, b]) == [Print(a), Print(m), Print(b)];
  }

  lemma NarrowMapText(a: Ts, m: Ts, b: Ts)
    ensures Print(Union([m, RecordOf(Union([a, b]))])) == Print(m) + BAR + (RECORD + (Print(a) + BAR + Print(b)) + ">")
  {
    Tails(m, a, b);
    assert PrintMembers([a, b]) == Print(a) + BAR + Print(b);
    var narrow := RecordOf(Union([a, b]));
    Tails(a, m, narrow);
    assert PrintMembers([m, narrow]) == Print(m) + BAR + Print(narrow);
  }

  /** What the compiler makes of a schema that is only a union. */
  lemma UnionNode(ns: seq<Node>)
    requires forall n | n in ns :: RenderableNode(n) && (n.Sub? ==> CutsRight(NodeTree(n)))
    requires exists n | n in ns :: n.Sub?
    ensures NodeTree(OneOf(ns)) == Merge(Dedup([], MemberTrees(ns)))
    ensures Separable(MemberTrees(ns)) ==> RenderableNode(OneOf(ns))
  {
    var s := OneOf(ns).schema;
    assert s.ref.None? && s.anyOf == AnyOf(ns);
  }

  lemma UnionText(ns: seq<Node>, members: seq<string>)
    requires UnionMembers(ns, []) == Ok(members)
    ensures NodeType(OneOf(ns)) == Ok(Join(members))
  {
    var s := OneOf(ns).schema;
    assert s.ref.None? && s.anyOf == AnyOf(ns);
    assert TsType(s) == Ok(Join(members));
  }

  lemma MapNode(n: Node)
    requires n.Sub? && RenderableNode(n)
    ensures RenderableNode(MapOf(n)) && NodeTree(MapOf(n)) == RecordOf(NodeTree(n))
  {
    var s := MapOf(n).schema;
    assert s.ref.None? && s.anyOf.NoAnyOf? && s.typ == Named("object") && s.additional == Some(n);
    assert Primitive(s.typ) == None;
  }

  lemma ThreeMembers(x: Node, y: Node, z: Node)
    requires x.Sub? && y.Sub? && z.Sub?
    requires !NodeTree(x).Union? && !NodeTree(y).Union? && !NodeTree(z).Union?
    ensures MemberTrees([x, y, z]) == [NodeTree(x), NodeTree(y), NodeTree(z)]
  {
    Tails(x, y, z);
    assert MemberTrees([z]) == [NodeTree(z)];
    assert MemberTrees([y, z]) == [NodeTree(y), NodeTree(z)];
  }

  /** Three alternatives that are no unions make an ordinary union. */
  lemma ThreeTrees(x: Node, y: Node, z: Node)
    requires x.Sub? && y.Sub? && z.Sub? && RenderableNode(x) && RenderableNode(y) && RenderableNode(z)
    requires IsMember(NodeTree(x)) && IsMember(NodeTree(y)) && IsMember(NodeTree(z))
    requires Distinct([NodeTree(x), NodeTree(y), NodeTree(z)])
    ensures NodeTree(OneOf([x, y, z])) == Union([NodeTree(x), NodeTree(y), NodeTree(z)])
    ensures RenderableNode(OneOf([x, y, z]))
  {
    var ns := [x, y, z];
    ThreeMembers(x, y, z);
    forall n | n in ns ensures CutsRight(NodeTree(n)) {
      SplitPrint(NodeTree(n));
    }
    SeparateMembers([NodeTree(x), NodeTree(y), NodeTree(z)]);
    assert ns[0].Sub?;
    UnionNode(ns);
  }

  lemma SeparateMembers(ts: seq<Ts>)
    requires Distinct(ts) && forall t | t in ts :: IsMember(t)
    ensures Dedup([], ts) == ts && Separable(ts)
  {
    DedupFresh([], ts);
    assert [] + ts == ts;
    FlatIsSeparable(ts);
  }

  lemma DropsSecond(m: string, first: string, last: string)
    requires m != first && m != last && first != last
    ensures Dedup([m], [first, m, last]) == [m, first, last]
  {
    Tails(first, m, last);
    assert [m] + [first] == [m, first] && [m, first] + [last] == [m, first, last];
    assert Dedup([m, first], [last]) == Dedup([m, first, last], []);
    assert Dedup([m, first], [m, last]) == Dedup([m, first], [last]);
  }

  lemma JoinThree(m: string, a: string, b: string)
    ensures Join([m, RECORD + a, b + ">"]) == m + BAR + (RECORD + (a + BAR + b) + ">")
  {
    Tails(m, RECORD + a, b + ">");
    JoinWrapped(a, b);
    assert Join([RECORD + a, b + ">"]) == (RECORD + a) + BAR + (b + ">");
  }

  /**
   * `m | { [key]: a | m | b }` compiles to the text of `m | { [key]: a | b }`: the piece `m` cut
   * from the map is taken for a repetition of the first member.
   */
  lemma MapLosesMember(a: Node, m: Node, b: Node)
    requires a.Sub? && m.Sub? && b.Sub? && RenderableNode(a) && RenderableNode(m) && RenderableNode(b)
    requires IsMember(NodeTree(a)) && IsMember(NodeTree(m)) && IsMember(NodeTree(b))
    requires Distinct([NodeTree(a), NodeTree(m), NodeTree(b)])
    ensures NodeType(OneOf([m, MapOf(OneOf([a, m, b]))]))
         == Ok(Print(Union([NodeTree(m), RecordOf(Union([NodeTree(a), NodeTree(b)]))])))
  {
    var ta, tm, tb := NodeTree(a), NodeTree(m), NodeTree(b);
    ThreeTrees(a, m, b);
    MapNode(OneOf([a, m, b]));
    SplitPrint(RecordOf(Union([ta, tm, tb])));
    MapPieces(ta, tm, tb);
    NarrowMapText(ta, tm, tb);
    CutPiecesDiffer(ta, tb, tm);
    TwoMembers(m, MapOf(OneOf([a, m, b])));
    DropsSecond(Print(tm), RECORD + Print(ta), Print(tb) + ">");
    JoinThree(Print(tm), Print(ta), Print(tb));
  }

  lemma TwoMembers(m: Node, n: Node)
    requires m.Sub? && n.Sub? && RenderableNode(m) && RenderableNode(n) && IsMember(NodeTree(m))
    requires Canonical(NodeTree(n)) && CutsRight(NodeTree(n))
    ensures NodeType(OneOf([m, n])) == Ok(Join(Dedup([Print(NodeTree(m))], Pieces(NodeTree(n)))))
  {
    var ns, tm, tn := [m, n], NodeTree(m), NodeTree(n);
    SplitPrint(tm);
    UnionLoop(ns, []);
    assert ns[0].Sub?;
    UnionNode(ns);
    UnionText(ns, Dedup([], MemberPieces(MemberTrees(ns))));
    assert ns[1..] == [n] && MemberTrees([n]) == MembersOf(tn);
    MemberPiecesConcat([tm], MembersOf(tn));
    PiecesOfMembers(tm);
    PiecesOfMembers(tn);
    NodePrints(m);
    JoinPieces(tm);
    assert Pieces(tm) == [Print(tm)];
    var p, ps := Print(tm), Pieces(tn);
    assert MemberTrees(ns) == [tm] + MembersOf(tn);
    assert MemberPieces(MemberTrees(ns)) == [p] + ps;
    assert ([p] + ps)[1..] == ps && [] + [p] == [p];
    assert Dedup([], [p] + ps) == Dedup([p], ps);
  }

  lemma PiecesOfMembers(t: Ts)
    requires Canonical(t)
    ensures MemberPieces(MembersOf(t)) == Pieces(t)
  {
    if !t.Union? {
      assert MemberPieces([t]) == Pieces(t) + MemberPieces([]);
    }
  }

  lemma MapOfUnionAdmits(a: Node, m: Node, b: Node, env: Components, x: Value)
    requires NodeAdmits(m, env, x)
    ensures NodeAdmits(OneOf([m, MapOf(OneOf([a, m, b]))]), env, Obj(map["k" := x]))
  {
    var inner, v := OneOf([a, m, b]), Obj(map["k" := x]);
    UnionAdmits([a, m, b], m, env, x);
    assert NodeAdmits(MapOf(inner), env, v);
    UnionAdmits([m, MapOf(inner)], MapOf(inner), env, v);
  }

  lemma UnionAdmits(ns: seq<Node>, n: Node, env: Components, v: Value)
    requires n in ns && NodeAdmits(n, env, v)
    ensures NodeAdmits(OneOf(ns), env, v)
  {
    assert OneOf(ns).schema.anyOf == AnyOf(ns);
  }

  lemma PlainNode(name: string)
    requires Primitive(Named(name)) == Some(name) && IsWord(name)
    ensures RenderableNode(Plain(name)) && NodeTree(Plain(name)) == Word(name) && IsMember(Word(name))
  {
  }

  lemma PlainNodes()
    ensures forall name | name in {"string", "null", "number"} ::
              RenderableNode(Plain(name)) && NodeTree(Plain(name)) == Word(name) && IsMember(Word(name))
    ensures Distinct([Word("string"), Word("null"), Word("number")])
  {
    Different("string", "null", 0);
    Different("string", "number", 0);
    Different("null", "number", 2);
    OwnWords();
    PlainNode("string");
    PlainNode("null");
    PlainNode("number");
  }

  /** With string, null and number: an object with a null entry is admitted and has no place in the type. */
  lemma NullableMapLosesNull(env: Components)
    ensures var n := OneOf([Plain("null"), MapOf(OneOf([Plain("string"), Plain("null"), Plain("number")]))]);
            var v := Obj(map["k" := Leaf(Null)]);
            && NodeType(n).Ok? && Parse(NodeType(n).value).Some?
            && NodeAdmits(n, env, v) && !Denotes(Parse(NodeType(n).value).value, env, v)
  {
    var a, m, b := Plain("string"), Plain("null"), Plain("number");
    PlainNodes();
    MapLosesMember(a, m, b);
    MapOfUnionAdmits(a, m, b, env, Leaf(Null));
    NarrowMapHasNoNull(env, Word("string"), Word("null"), Word("number"));
  }

  lemma NarrowMapHasNoNull(env: Components, a: Ts, m: Ts, b: Ts)
    requires a == Word("string") && m == Word("null") && b == Word("number")
    ensures var t := Union([m, RecordOf(Union([a, b]))]);
            Parse(Print(t)) == Some(t) && !Denotes(t, env, Obj(map["k" := Leaf(Null)]))
  {
    var narrow, v := Union([a, b]), Obj(map["k" := Leaf(Null)]);
    PlainNodes();
    assert Canonical(narrow) && Canonical(RecordOf(narrow));
    ParsePrint(Union([m, RecordOf(narrow)]));
    assert !Denotes(narrow, env, v.entries["k"]);
    assert !Denotes(RecordOf(narrow), env, v);
  }

  // ----- A list of something or null: the parentheses depend on what the scanner makes of the text -----

  const NULL := Word("null")

  function NullableList(n: Node): Node {
    ListOf(OneOf([n, Plain("null")]))
  }

  function WithParentheses(t: Ts): Ts {
    ArrayOf(Union([t, NULL]))
  }

  function WithoutParentheses(t: Ts): Ts {
    Union([t, ArrayOf(NULL)])
  }

  lemma NullNode()
    ensures NodeType(Plain("null")) == Ok("null") && Canonical(NULL) && Split("null") == ["null"]
  {
    NullSplits();
    PlainNodes();
  }

  lemma ListNode(n: Node, text: string)
    requires NodeType(n) == Ok(text)
    ensures NodeType(ListOf(n)) == Ok(ListText(text, |Split(text)| > 1))
  {
    ListType(ListOf(n).schema, text);
  }

  /** The text of a union of two members that are not cut. */
  lemma TwoTexts(m: Node, n: Node, p: string, q: string)
    requires m.Sub? && n.Sub? && NodeType(m) == Ok(p) && NodeType(n) == Ok(q)
    requires Split(p) == [p] && Split(q) == [q] && p != q
    ensures NodeType(OneOf([m, n])) == Ok(p + BAR + q)
  {
    var ns := [m, n];
    assert ns[1..] == [n] && [n][1..] == [];
    assert (if p == "null" then ["null"] else Split(p)) == [p];
    assert (if q == "null" then ["null"] else Split(q)) == [q];
    assert Dedup([], [p]) == [] + [p] == [p];
    assert Dedup([p], [q]) == [p] + [q] == [p, q];
    assert UnionMembers([n], [p]) == UnionMembers([], [p, q]);
    assert UnionMembers(ns, []) == UnionMembers([n], [p]);
    UnionText(ns, [p, q]);
    assert [p, q][1..] == [q];
  }

  /** Two texts with a bar between them are cut there exactly if the first leaves the scanner at the top. */
  lemma BarIsSeen(p: string)
    requires BarFree(p) && Trimmed(p)
    ensures |Split(p + BAR + "null")| > 1 <==> End(p, TOP) == TOP
  {
    var q, m := BAR + "null", End(p, TOP);
    BarFreeScans(p, TOP, 1);
    assert p + BAR + "null" == p + q;
    if m == TOP {
      NullIsPart();
      assert [p, "null"][1..] == ["null"];
      SplitJoin([p, "null"]);
    } else {
      ScanConcat(p, q, TOP);
      BarOffTop(m);
      TrimmedConcat(p, q);
      UncutSplit(p + q);
    }
  }

  lemma NullIsPart()
    ensures IsPart("null")
  {
    InertIsBalanced("null");
  }

  lemma BarOffTop(m: Mode)
    requires m != TOP
    ensures Scan(BAR + "null", m).0
  {
    var q := BAR + "null";
    assert q[0] == ' ' && q[1] == '|' && q[1..][1..] == " null";
    assert IsInert(" null");
    InertKeeps(" null", m, 1);
    BarFreeScans(" null", m, 1);
    assert After(' ', m) == m && After('|', m) == m;
    assert Scan(q[1..], m) == Scan(" null", m);
  }

  /**
   * A list of `n | null` is written with its parentheses exactly if the text of n leaves the scanner where
   * it was; otherwise the brackets go to `null` alone.
   */
  lemma NullableListText(n: Node, t: Ts)
    requires n.Sub? && NodeType(n) == Ok(Print(t)) && Canonical(t) && !t.Union? && t != NULL
    requires BarFree(Print(t))
    ensures NodeType(NullableList(n))
         == Ok(Print(if End(Print(t), TOP) == TOP then WithParentheses(t) else WithoutParentheses(t)))
  {
    var p := Print(t);
    NullNode();
    TrimmedPrint(t);
    BarFreeScans(p, TOP, 1);
    UncutSplit(p);
    if p == "null" {
      PrintInjective(t, NULL);
    }
    TwoTexts(n, Plain("null"), p, "null");
    ListNode(OneOf([n, Plain("null")]), p + BAR + "null");
    BarIsSeen(p);
    NullableTexts(t);
  }

  lemma NullableTexts(t: Ts)
    ensures Print(WithParentheses(t)) == "(" + (Print(t) + BAR + "null") + ")[]"
    ensures Print(WithoutParentheses(t)) == (Print(t) + BAR + "null") + "[]"
  {
    assert [t, NULL][1..] == [NULL] && [t, ArrayOf(NULL)][1..] == [ArrayOf(NULL)];
    assert Print(NULL) == "null" && PrintMembers([NULL]) == Print(NULL);
    var u := Union([t, NULL]);
    assert !Flat(u) && Print(u) == Print(t) + BAR + "null";
    assert Print(ArrayOf(NULL)) == "null" + "[]" && PrintMembers([ArrayOf(NULL)]) == Print(ArrayOf(NULL));
    Assoc(Print(t) + BAR, "null", "[]");
  }

  /** The list of x is admitted, the text is a type, and it has the list of x exactly if `kept`. */
  ghost predicate ListHas(n: Node, env: Components, x: Value, kept: bool) {
    var list := NullableList(n);
    && NodeAdmits(list, env, Arr([x]))
    && NodeType(list).Ok? && Parse(NodeType(list).value).Some?
    && (Denotes(Parse(NodeType(list).value).value, env, Arr([x])) <==> kept)
  }

  /** So a list of such a value is in the type exactly if the text of n leaves the scanner where it was. */
  lemma NullableListIff(n: Node, t: Ts, env: Components, x: Value)
    requires n.Sub? && NodeType(n) == Ok(Print(t)) && Canonical(t) && !t.Union? && t != NULL
    requires BarFree(Print(t))
    requires NodeAdmits(n, env, x) && Denotes(t, env, x) && !Denotes(t, env, Arr([x])) && x != Leaf(Null)
    ensures ListHas(n, env, x, End(Print(t), TOP) == TOP)
  {
    NullableListText(n, t);
    NullableAdmits(n, env, x);
    NullableParses(t);
    NullableDenotes(t, env, x);
  }

  lemma NullableAdmits(n: Node, env: Components, x: Value)
    requires NodeAdmits(n, env, x)
    ensures NodeAdmits(NullableList(n), env, Arr([x]))
  {
    UnionAdmits([n, Plain("null")], n, env, x);
    ListAdmits(OneOf([n, Plain("null")]), env, x);
  }

  lemma NullableParses(t: Ts)
    requires Canonical(t) && !t.Union?
    ensures Parse(Print(WithParentheses(t))) == Some(WithParentheses(t))
    ensures Parse(Print(WithoutParentheses(t))) == Some(WithoutParentheses(t))
  {
    NullNode();
    ParsePrint(WithParentheses(t));
    ParsePrint(WithoutParentheses(t));
  }

  lemma NullableDenotes(t: Ts, env: Components, x: Value)
    requires Denotes(t, env, x) && !Denotes(t, env, Arr([x])) && x != Leaf(Null)
    ensures Denotes(WithParentheses(t), env, Arr([x]))
    ensures !Denotes(WithoutParentheses(t), env, Arr([x]))
  {
    var v := Arr([x]);
    assert Denotes(Union([t, NULL]), env, x) by {
      assert t in [t, NULL];
    }
    assert v.elems[0] == x && !Denotes(NULL, env, x);
    assert !Denotes(ArrayOf(NULL), env, v);
  }

  lemma ListAdmits(n: Node, env: Components, x: Value)
    requires NodeAdmits(n, env, x)
    ensures NodeAdmits(ListOf(n), env, Arr([x]))
  {
    assert ListOf(n).schema.items == Some(n);
  }

  // ----- Quotes and brackets in a literal or a description -----

  function Quotes(p: string): nat {
    if p == "" then 0 else (if IsQuote(p[0]) then 1 else 0) + Quotes(p[1..])
  }

  predicate NoBrackets(p: string) {
    forall i | 0 <= i < |p| :: Nesting(p[i]) == 0
  }

  /** Without brackets, what counts is whether the quotes pair up. */
  lemma {:induction false} EndOfQuotes(p: string, m: Mode)
    requires NoBrackets(p)
    ensures End(p, m) == Mode(m.depth, if Quotes(p) % 2 == 0 then m.quote else !m.quote)
  {
    if p != "" {
      assert Nesting(p[0]) == 0 && forall i | 0 <= i < |p| - 1 :: p[1..][i] == p[i + 1];
      EndOfQuotes(p[1..], After(p[0], m));
    }
  }

  lemma EndOfLiteral(s: string)
    requires NoBrackets(s)
    ensures End("'" + s + "'", TOP) == TOP <==> Quotes(s) % 2 == 0
  {
    var inside := Mode(0, true);
    EndOfQuotes(s, inside);
    assert After('\'', TOP) == inside;
    OneChar('\'', TOP, 0);
    OneChar('\'', End(s, inside), 0);
    TraceConcat("'", s, TOP, 0);
    TraceConcat("'" + s, "'", TOP, 0);
  }

  lemma ConstNode(s: string)
    requires BarFree(s) && forall i | 0 <= i < |s| :: IsQuotedChar(s[i])
    ensures NodeType(Const(s)) == Ok(Print(Quoted(s))) && Print(Quoted(s)) == "'" + s + "'"
    ensures Canonical(Quoted(s)) && BarFree(Print(Quoted(s)))
  {
  }

  /**
   * A list of a literal or null has the list of that literal exactly if the quoted literal leaves the
   * scanner at the top; without brackets, exactly if the number of its double quotes is even.
   */
  lemma LiteralListIff(s: string, env: Components)
    requires BarFree(s) && forall i | 0 <= i < |s| :: IsQuotedChar(s[i])
    ensures ListHas(Const(s), env, Leaf(Str(s)), End("'" + s + "'", TOP) == TOP)
    ensures NoBrackets(s) ==> (End("'" + s + "'", TOP) == TOP <==> Quotes(s) % 2 == 0)
  {
    if NoBrackets(s) {
      EndOfLiteral(s);
    }
    LiteralInList(s, env);
  }

  lemma LiteralInList(s: string, env: Components)
    requires BarFree(s) && forall i | 0 <= i < |s| :: IsQuotedChar(s[i])
    ensures ListHas(Const(s), env, Leaf(Str(s)), End(Print(Quoted(s)), TOP) == TOP)
    ensures Print(Quoted(s)) == "'" + s + "'"
  {
    ConstNode(s);
    ConstAdmits(s, env);
    NullableListIff(Const(s), Quoted(s), env, Leaf(Str(s)));
  }

  lemma ConstAdmits(s: string, env: Components)
    ensures NodeAdmits(Const(s), env, Leaf(Str(s))) && Denotes(Quoted(s), env, Leaf(Str(s)))
    ensures !Denotes(Quoted(s), env, Arr([Leaf(Str(s))]))
  {
  }

  /** An object with one optional text property, described. */
  function Described(name: string, doc: string): Node {
    Sub(EMPTY.(typ := Named("object"), properties := [Property(name, DescribedText(doc))]))
  }

  function DescribedText(doc: string): Node {
    Sub(EMPTY.(typ := Named("string"), description := doc))
  }

  function DescribedTree(name: string, doc: string): Ts {
    Shape([Field(doc, name, true, Word("string"))])
  }

  lemma DescribedNode(name: string, doc: string)
    ensures NodeType(Described(name, doc)) == Ok(Print(DescribedTree(name, doc)))
  {
    var s := Described(name, doc).schema;
    var p := Property(name, DescribedText(doc));
    TextNode(doc);
    FieldsPrint([p], []);
    FieldTreesAre([p], []);
    assert FieldTrees([p], []) == DescribedTree(name, doc).fields;
    assert Primitive(s.typ) == None && TsType(s) == ObjectType(s);
  }

  lemma TextNode(doc: string)
    ensures RenderableNode(DescribedText(doc)) && NodeTree(DescribedText(doc)) == Word("string")
    ensures DocOf(DescribedText(doc)) == doc
  {
    assert Primitive(Named("string")) == Some("string");
  }

  function Before(doc: string): string {
    if doc == "" then "{ " else "{ " + DOC_OPEN
  }

  function Behind(name: string, doc: string): string {
    (if doc == "" then "" else " */") + name + "?: string"
  }

  lemma DescribedPrint(name: string, doc: string)
    ensures Print(DescribedTree(name, doc)) == Before(doc) + doc + Behind(name, doc) + " }"
  {
    var f := Field(doc, name, true, Word("string"));
    assert PrintFields([f]) == PrintField(f) && Print(f.typ) == "string";
    assert PrintField(f) == PrintDoc(doc) + name + "?" + ": " + "string";
  }

  lemma EndOfDescribed(name: string, doc: string)
    requires IsFieldName(name)
    ensures End(Print(DescribedTree(name, doc)), TOP) == TOP <==> End(doc, TOP) == TOP
  {
    var before, after := Before(doc), Behind(name, doc);
    var e := End(doc, Mode(1, false));
    DescribedPrint(name, doc);
    EndOfBefore(doc);
    TraceShift(doc, TOP, 0, 1);
    EndOfBehind(name, doc, e);
    EndOfClose(e);
    EndOfFour(before, doc, after, " }", TOP);
  }

  lemma EndOfFour(a: string, b: string, c: string, d: string, m: Mode)
    ensures End(a + b + c + d, m) == End(d, End(c, End(b, End(a, m))))
  {
    TraceConcat(a, b, m, 0);
    TraceConcat(a + b, c, m, 0);
    TraceConcat(a + b + c, d, m, 0);
  }

  lemma EndOfBehind(name: string, doc: string, m: Mode)
    requires IsFieldName(name)
    ensures End(Behind(name, doc), m) == m
  {
    InertKeeps(Behind(name, doc), m, 0);
  }

  lemma EndOfBefore(doc: string)
    ensures End(Before(doc), TOP) == Mode(1, false)
  {
    var rest := if doc == "" then " " else " " + DOC_OPEN;
    assert Before(doc) == "{" + rest;
    OneChar('{', TOP, 0);
    InertKeeps(rest, Mode(1, false), 0);
    TraceConcat("{", rest, TOP, 0);
  }

  lemma EndOfClose(m: Mode)
    ensures End(" }", m) == if m.quote then m else Mode(m.depth - 1, false)
  {
    OneChar(' ', m, 0);
    OneChar('}', m, 0);
    TraceConcat(" ", "}", m, 0);
  }

  /**
   * A list of a described object or null has the list of the empty object exactly if the description leaves
   * the scanner where it was; without brackets, exactly if its quotes and apostrophes together are even.
   */
  lemma DescriptionListIff(name: string, doc: string, env: Components)
    requires IsFieldName(name) && IsDocText(doc) && BarFree(doc)
    ensures ListHas(Described(name, doc), env, Obj(map[]), End(doc, TOP) == TOP)
    ensures NoBrackets(doc) ==> (End(doc, TOP) == TOP <==> Quotes(doc) % 2 == 0)
  {
    var n, t, x := Described(name, doc), DescribedTree(name, doc), Obj(map[]);
    DescribedNode(name, doc);
    EndOfDescribed(name, doc);
    PlainNodes();
    DescribedBarFree(name, doc);
    assert Canonical(t) && NodeAdmits(n, env, x) && Denotes(t, env, x);
    NullableListIff(n, t, env, x);
    if NoBrackets(doc) {
      EndOfQuotes(doc, TOP);
    }
  }

  lemma DescribedBarFree(name: string, doc: string)
    requires IsFieldName(name) && BarFree(doc)
    ensures BarFree(Print(DescribedTree(name, doc)))
  {
    DescribedPrint(name, doc);
    assert BarFree(Before(doc)) && BarFree(Behind(name, doc)) && BarFree(" }");
  }

  // ----- A union or an enumeration of nothing: the text is no type -----

  lemma NothingParses()
    ensures Parse("") == None
  {
    assert ParsePrimary("") == None;
    assert ParsePostfix("") == None;
    assert ParseMembers("") == None;
  }

  /** With alternatives that are read right and separable, the text is a type exactly if one is a schema. */
  lemma UnionParsesIff(ns: seq<Node>)
    requires forall n | n in ns :: RenderableNode(n) && (n.Sub? ==> CutsRight(NodeTree(n)))
    requires Separable(MemberTrees(ns))
    ensures NodeType(OneOf(ns)).Ok? && (Parse(NodeType(OneOf(ns)).value).Some? <==> exists n :: n in ns && n.Sub?)
  {
    UnionLoop(ns, []);
    UnionText(ns, Dedup([], MemberPieces(MemberTrees(ns))));
    if exists n :: n in ns && n.Sub? {
      UnionNode(ns);
      NodePrints(OneOf(ns));
      ParsePrint(NodeTree(OneOf(ns)));
    } else {
      OnlyBare(ns);
      NothingParses();
    }
  }

  lemma {:induction false} OnlyBare(ns: seq<Node>)
    requires forall n | n in ns :: n.Bare?
    ensures MemberTrees(ns) == []
  {
    if ns != [] {
      OnlyBare(ns[1..]);
    }
  }

  /** An enumeration of legal values is a type exactly if there is one. */
  lemma EnumParsesIff(vs: seq<Scalar>)
    requires forall v | v in vs :: LegalScalar(v)
    ensures var n := Sub(EMPTY.(choices := Some(vs)));
            NodeType(n).Ok? && (Parse(NodeType(n).value).Some? <==> vs != [])
  {
    assert NodeType(Sub(EMPTY.(choices := Some(vs)))) == Ok(Join(Literals(vs)));
    if vs == [] {
      NothingParses();
    } else {
      LiteralsPrint(vs);
      ParsePrint(Merge(LiteralTrees(vs)));
    }
  }

  // ----- Names and comments that are not TypeScript's -----

  /** A name whose reading is settled here: of known letters, and if it starts as a number, a short whole one. */
  predicate IsKnownName(s: string) {
    IsKnownText(s) && (s != "" && IsDigit(s[0]) ==> |s| <= 15 && forall i | 0 <= i < |s| :: IsDigit(s[i]))
  }

  predicate LegalProperty(p: Property) {
    IsFieldName(p.name) && IsDocText(DocOf(p.node))
  }

  /**
   * The text of an object type reads back as that type exactly if all property names are legal without
   * quotes and no description has an end-of-comment mark.
   */
  lemma ObjectReadsBackIff(ps: seq<Property>, required: seq<string>)
    requires ps != [] && forall p | p in ps :: RenderableNode(p.node) && IsKnownName(p.name)
    ensures var n := Sub(EMPTY.(typ := Named("object"), properties := ps, required := required));
            && NodeType(n) == Ok(Print(NodeTree(n)))
            && (Parse(NodeType(n).value) == Some(NodeTree(n)) <==> forall p | p in ps :: LegalProperty(p))
  {
    var s := EMPTY.(typ := Named("object"), properties := ps, required := required);
    assert Primitive(s.typ) == None && TsType(s) == ObjectType(s) && TsTree(s) == Shape(FieldTrees(ps, required));
    FieldsPrint(ps, required);
    FieldsLegal(ps, FieldTrees(ps, required));
    ReadsBackIff(Shape(FieldTrees(ps, required)));
  }

  lemma FieldsLegal(ps: seq<Property>, fs: seq<Field>)
    requires |fs| == |ps| > 0
    requires forall i | 0 <= i < |ps| ::
      fs[i].name == ps[i].name && fs[i].doc == DocOf(ps[i].node) && Canonical(fs[i].typ)
    ensures Shaped(Shape(fs)) && (Legal(Shape(fs)) <==> forall p | p in ps :: LegalProperty(p))
  {
    forall i | 0 <= i < |ps| ensures Shaped(fs[i].typ) && (LegalField(fs[i]) <==> LegalProperty(ps[i])) {
      CanonicalMeans(fs[i].typ);
    }
    AllLegal(ps, fs);
    assert Legal(Shape(fs)) <==> forall f | f in fs :: LegalField(f);
  }

  lemma AllLegal(ps: seq<Property>, fs: seq<Field>)
    requires |fs| == |ps| && forall i | 0 <= i < |ps| :: LegalField(fs[i]) <==> LegalProperty(ps[i])
    ensures (forall f | f in fs :: LegalField(f)) <==> forall p | p in ps :: LegalProperty(p)
  {
    if f :| f in fs && !LegalField(f) {
      var i :| 0 <= i < |fs| && fs[i] == f;
      assert ps[i] in ps;
    } else {
      forall i | 0 <= i < |fs| ensures LegalProperty(ps[i]) {
        assert fs[i] in fs;
      }
    }
  }

  /** A word is read as itself, if TypeScript takes it for a word at all. */
  lemma ReadAnyWord(w: string)
    requires w != "" && forall i | 0 <= i < |w| :: IsWordChar(w[i])
    ensures Parse(w) == if IsWord(w) then Some(Word(w)) else None
  {
    if IsWord(w) {
      ParsePrint(Word(w));
    } else {
      assert RECORD[6] == '<' && (|w| > 6 ==> IsWordChar(w[6]));
      assert IsWordChar(w[0]);
      SpanExact(w, "", IsWordChar);
      assert w + "" == w && w[..|w|] == w;
      assert ParsePrimary(w) == None;
      assert ParsePostfix(w) == None;
      assert ParseMembers(w) == None;
    }
  }

  /** Under every interpretation of the component names, the type has what the component has. */
  ghost predicate StandsFor(t: Ts, component: string) {
    forall env: Components, v :: Denotes(t, env, v) <==> env(component, v)
  }

  lemma WordStandsForIff(w: string)
    requires IsWord(w)
    ensures StandsFor(Word(w), w) <==> IsComponentName(w)
  {
    if !IsComponentName(w) {
      var all: Components, none: Components, v := (_, _) => true, (_, _) => false, Leaf(Null);
      OtherWordIsFixed(w, all, none, v);
      assert all(w, v) && !none(w, v);
    }
  }

  /** A word that is no component name means the same whatever the components are. */
  lemma OtherWordIsFixed(w: string, env: Components, other: Components, v: Value)
    requires IsWord(w) && !IsComponentName(w)
    ensures Denotes(Word(w), env, v) <==> Denotes(Word(w), other, v)
  {
  }

  /**
   * A reference to a component, whatever word its name is, means what the component admits exactly if the
   * name is an identifier that is neither a reserved word nor a type of TypeScript's own.
   */
  lemma ReferenceIff(w: string)
    requires w != "" && forall i | 0 <= i < |w| :: IsWordChar(w[i])
    ensures NodeType(Sub(EMPTY.(ref := Some(REF_PREFIX + w)))) == Ok(w)
    ensures IsComponentName(w) <==> Parse(w).Some? && StandsFor(Parse(w).value, w)
  {
    assert (REF_PREFIX + w)[|REF_PREFIX|..] == w;
    ReadAnyWord(w);
    if IsWord(w) {
      WordStandsForIff(w);
    }
  }

  // ----- A type name that every object inherits -----

  /** A schema of a type alone fails exactly if the type's name is one that every object inherits. */
  lemma InheritedTypeIff(typ: TypeName)
    ensures TsType(EMPTY.(typ := typ)).Err? && TsType(EMPTY.(typ := typ)).error.NoText? <==> IsInherited(typ)
  {
  }

  /** So does every schema with such a type name that has none of the keywords read before the type. */
  lemma InheritedTypeFails(s: Schema)
    requires s.ref.None? && s.anyOf.NoAnyOf? && s.constant.None? && s.choices.None? && IsInherited(s.typ)
    ensures TsType(s) == Err(NoText(s.typ.name))
  {
  }

  // ----- What a type cannot say -----

  /** `integer` and a bare `object` compile to wider types; a `true` alternative to a narrower one. */
  lemma InexactSchemas(env: Components)
    ensures NodeType(Plain("integer")) == Ok("number")
    ensures Denotes(Word("number"), env, Leaf(Num("1.5"))) && !NodeAdmits(Plain("integer"), env, Leaf(Num("1.5")))
    ensures NodeType(Plain("object")) == Ok("unknown")
    ensures Denotes(Word("unknown"), env, Leaf(Null)) && !NodeAdmits(Plain("object"), env, Leaf(Null))
  {
    assert "1.5"[1] == '.';
  }

  /** The alternative `true` admits everything and is skipped. */
  lemma TrueMemberIsSkipped(env: Components)
    ensures NodeType(OneOf([Bare(true), Plain("null")])) == Ok("null")
    ensures NodeAdmits(OneOf([Bare(true), Plain("null")]), env, Leaf(Bool(true)))
    ensures !Denotes(Word("null"), env, Leaf(Bool(true)))
  {
    var ns := [Bare(true), Plain("null")];
    assert ns[1..] == [Plain("null")] && ns[1..][1..] == [];
    assert Dedup([], ["null"]) == [] + ["null"] == ["null"];
    assert UnionMembers(ns, []) == UnionMembers(ns[1..], []) == UnionMembers([], ["null"]);
    assert OneOf(ns).schema.anyOf == AnyOf(ns);
    UnionAdmits(ns, Bare(true), env, Leaf(Bool(true)));
  }

  lemma Different(a: string, b: string, i: nat)
    requires i < |a| && i < |b| && a[i] != b[i]
    ensures a != b
  {
  }
}

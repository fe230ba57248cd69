/**
 * Every compiled type closes the brackets and quotes it opens; and it closes none before opening it
 * exactly if no literal or comment inside closes more brackets than are open around it.
 */
module DtoBalance {
  import opened Wrappers
  import opened TsGrammar
  import opened Splitter
  import opened DtoCompiler
  import opened DtoText

  /** The least depth on the way through `p`. */
  function Low(p: string, m: Mode): int {
    if p == "" then m.depth
    else
      var rest := Low(p[1..], After(p[0], m));
      if m.depth < rest then m.depth else rest
  }

  /** With `d` brackets open around it, `p` never closes one more. */
  predicate Above(p: string, d: int) {
    Low(p, Mode(d, false)) >= 0
  }

  lemma {:induction false} LowConcat(p: string, q: string, m: Mode)
    ensures Low(p + q, m) == if Low(p, m) < Low(q, End(p, m)) then Low(p, m) else Low(q, End(p, m))
  {
    if p == "" {
      assert p + q == q;
      LowFirst(q, m);
    } else {
      assert (p + q)[1..] == p[1..] + q;
      LowConcat(p[1..], q, After(p[0], m));
    }
  }

  lemma LowFirst(p: string, m: Mode)
    ensures Low(p, m) <= m.depth
  {
  }

  lemma AboveConcat(p: string, q: string, d: int)
    requires End(p, TOP) == TOP
    ensures Above(p + q, d) <==> Above(p, d) && Above(q, d)
  {
    TraceShift(p, TOP, 0, d);
    LowConcat(p, q, Mode(d, false));
  }

  lemma {:induction false} LowInert(p: string, m: Mode)
    requires IsInert(p)
    ensures Low(p, m) == m.depth
  {
    if p != "" {
      assert !IsQuote(p[0]) && Nesting(p[0]) == 0;
      assert forall i | 0 <= i < |p| - 1 :: p[1..][i] == p[i + 1];
      LowInert(p[1..], m);
    }
  }

  lemma InertIsAbove(p: string, d: nat)
    requires IsInert(p)
    ensures Above(p, d) && End(p, TOP) == TOP
  {
    LowInert(p, Mode(d, false));
    StaysInert(p, 0);
  }

  lemma AboveAround(open: char, body: string, close: char, d: nat)
    requires After(open, TOP) == Mode(1, false) && After(close, Mode(1, false)) == TOP
    requires End(body, TOP) == TOP
    ensures Above([open] + body + [close], d) <==> Above(body, d + 1)
  {
    var outer, inner := Mode(d, false), Mode(d + 1, false);
    TraceShift(body, TOP, 0, d + 1);
    LowOne(open, outer);
    LowOne(close, inner);
    LowFirst(body, inner);
    LowConcat([open], body, outer);
    TraceConcat([open], body, outer, 0);
    LowConcat([open] + body, [close], outer);
  }

  lemma LowOne(c: char, m: Mode)
    ensures End([c], m) == After(c, m)
    ensures Low([c], m) == if m.depth < After(c, m).depth then m.depth else After(c, m).depth
  {
    assert [c][1..] == "";
  }

  /** No literal or comment closes a bracket that stands outside the type, with `d` of them open. */
  predicate Tidy(t: Ts, d: nat) {
    match t
    case Word(_) => true
    case Quoted(s) => Above("'" + s + "'", d)
    case ArrayOf(e) => Tidy(e, if Flat(e) then d else d + 1)
    case Shape(fs) => forall f | f in fs :: Above(f.doc, d + 1) && Tidy(f.typ, d + 1)
    case RecordOf(e) => Tidy(e, d)
    case Union(ms) => forall m | m in ms :: Tidy(m, d)
  }

  lemma {:induction false} PrintIsTidy(t: Ts, d: nat)
    requires Canonical(t) && Quiet(t)
    ensures Above(Print(t), d) <==> Tidy(t, d)
    decreases t, 0
  {
    match t {
      case Word(w) => InertIsAbove(w, d);
      case Quoted(_) =>
      case ArrayOf(e) =>
        PrintStays(e);
        PrintIsTidy(e, if Flat(e) then d else d + 1);
        ListIsTidy(Print(e), Flat(e), d);
      case Shape(fs) =>
        FieldsStay(fs);
        FieldsAreTidy(fs, d + 1);
        BracesAreTidy(PrintFields(fs), d);
      case RecordOf(e) =>
        PrintStays(e);
        PrintIsTidy(e, d);
        WrappedIsTidy(RECORD, Print(e), ">", d);
      case Union(ms) => MembersAreTidy(ms, d);
    }
  }

  lemma ListIsTidy(p: string, flat: bool, d: nat)
    requires End(p, TOP) == TOP
    ensures Above(if flat then p + "[]" else "(" + p + ")[]", d) <==> Above(p, if flat then d else d + 1)
  {
    InertIsAbove("", d + 1);
    AboveAround('[', "", ']', d);
    assert ['['] + "" + [']'] == "[]";
    if flat {
      AboveConcat(p, "[]", d);
    } else {
      AboveAround('(', p, ')', d);
      EndAround('(', p, ')');
      AboveConcat("(" + p + ")", "[]", d);
      assert "(" + p + ")" + "[]" == "(" + p + ")[]";
    }
  }

  lemma EndAround(open: char, body: string, close: char)
    requires After(open, TOP) == Mode(1, false) && After(close, Mode(1, false)) == TOP && End(body, TOP) == TOP
    ensures End([open] + body + [close], TOP) == TOP
  {
    TraceShift(body, TOP, 0, 1);
    LowOne(open, TOP);
    LowOne(close, Mode(1, false));
    TraceConcat([open], body, TOP, 0);
    TraceConcat([open] + body, [close], TOP, 0);
  }

  lemma BracesAreTidy(p: string, d: nat)
    requires End(p, TOP) == TOP
    ensures Above("{ " + p + " }", d) <==> Above(p, d + 1)
  {
    InertIsAbove(" ", d + 1);
    AboveConcat(" ", p, d + 1);
    TraceConcat(" ", p, TOP, 0);
    AboveConcat(" " + p, " ", d + 1);
    TraceConcat(" " + p, " ", TOP, 0);
    AboveAround('{', " " + p + " ", '}', d);
    assert ['{'] + (" " + p + " ") + ['}'] == "{ " + p + " }";
  }

  lemma WrappedIsTidy(before: string, p: string, after: string, d: nat)
    requires IsInert(before) && IsInert(after) && End(p, TOP) == TOP
    ensures Above(before + p + after, d) <==> Above(p, d)
  {
    InertIsAbove(before, d);
    InertIsAbove(after, d);
    AboveConcat(before, p, d);
    TraceConcat(before, p, TOP, 0);
    AboveConcat(before + p, after, d);
  }

  lemma {:induction false} MembersAreTidy(ms: seq<Ts>, d: nat)
    requires forall t | t in ms :: Canonical(t) && Quiet(t)
    ensures Above(PrintMembers(ms), d) <==> forall m | m in ms :: Tidy(m, d)
    decreases ms, 1
  {
    if ms != [] {
      PrintStays(ms[0]);
      PrintIsTidy(ms[0], d);
      assert forall m | m in ms :: m == ms[0] || m in ms[1..];
      if |ms| > 1 {
        MembersAreTidy(ms[1..], d);
        StaysBar();
        LowBar(d);
        AboveConcat(Print(ms[0]), BAR, d);
        TraceConcat(Print(ms[0]), BAR, TOP, 0);
        AboveConcat(Print(ms[0]) + BAR, PrintMembers(ms[1..]), d);
      }
    }
  }

  lemma LowBar(d: nat)
    ensures Above(BAR, d)
  {
    var m := Mode(d, false);
    LowOne(' ', m);
    LowOne('|', m);
    LowConcat(" ", "|", m);
    TraceConcat(" ", "|", m, 0);
    LowConcat(" |", " ", m);
  }

  ghost predicate FieldIsTidy(f: Field, d: nat) {
    Above(f.doc, d) && Tidy(f.typ, d)
  }

  lemma {:induction false} FieldsAreTidy(fs: seq<Field>, d: nat)
    requires forall f | f in fs :: CanonicalField(f) && Stays(f.doc, 0) && Quiet(f.typ)
    ensures Above(PrintFields(fs), d) <==> forall f | f in fs :: FieldIsTidy(f, d)
    decreases fs, 1
  {
    if fs != [] {
      PrintStays(fs[0].typ);
      BarsWeaken(Print(fs[0].typ), TOP, if Flat(fs[0].typ) then 1 else 0, 0);
      PrintIsTidy(fs[0].typ, d);
      FieldTidy(fs[0], d);
      FieldStays(fs[0]);
      assert FieldIsTidy(fs[0], d) <==> Above(PrintField(fs[0]), d);
      assert forall f | f in fs :: f == fs[0] || f in fs[1..];
      assert forall f | f in fs[1..] :: f in fs;
      if |fs| > 1 {
        FieldsAreTidy(fs[1..], d);
        NextFieldIsTidy(PrintField(fs[0]), PrintFields(fs[1..]), d);
      }
    }
  }

  lemma NextFieldIsTidy(p: string, q: string, d: nat)
    requires End(p, TOP) == TOP
    ensures Above(p + "; " + q, d) <==> Above(p, d) && Above(q, d)
  {
    InertIsAbove("; ", d);
    AboveConcat(p, "; ", d);
    TraceConcat(p, "; ", TOP, 0);
    AboveConcat(p + "; ", q, d);
  }

  lemma FieldTidy(f: Field, d: nat)
    requires IsFieldName(f.name) && Stays(f.doc, 0) && End(Print(f.typ), TOP) == TOP
    ensures Above(PrintField(f), d) <==> Above(f.doc, d) && Above(Print(f.typ), d)
  {
    var doc, named := PrintDoc(f.doc), NamePart(f);
    DocTidy(f.doc, d);
    DocStays(f.doc);
    InertIsAbove(named, d);
    AboveConcat(doc, named, d);
    TraceConcat(doc, named, TOP, 0);
    AboveConcat(doc + named, Print(f.typ), d);
    FieldParts(f);
  }

  lemma DocTidy(doc: string, d: nat)
    requires Stays(doc, 0)
    ensures Above(PrintDoc(doc), d) <==> Above(doc, d)
  {
    WrappedIsTidy(DOC_OPEN, doc, " */", d);
    if doc == "" {
      InertIsAbove("", d);
    }
  }

  /**
   * The text of a schema whose literals and descriptions each pair up ends at depth zero outside quotes, and
   * its depth is never negative exactly if the tree is tidy.
   */
  lemma CompiledTextIsBalanced(s: Schema)
    requires Harmless(s, true)
    ensures TsType(s).Ok? && End(TsType(s).value, TOP) == TOP
    ensures Low(TsType(s).value, TOP) == 0 <==> Tidy(TsTree(s), 0)
  {
    HarmlessIsRenderable(s, true);
    TsTypePrints(s);
    PrintStays(TsTree(s));
    PrintIsTidy(TsTree(s), 0);
    LowFirst(TsType(s).value, TOP);
  }
}

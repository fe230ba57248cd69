/**
 * The generator re-reads its own output with a character scanner that cuts at `|` outside brackets
 * and quotes. This module models the scanner and computes what it returns on every printed type.
 * The scanner does not count `<` and `>`, so it also cuts inside `Record<string, A | B>`.
 */
module Splitter {
  import opened Basics
  import opened TsGrammar

  /** What JavaScript's `trim` removes. */
  predicate IsSpace(c: char) {
    var n := c as int;
    9 <= n <= 13 || n == 0x20 || n == 0xa0 || n == 0x1680 || 0x2000 <= n <= 0x200a
    || n == 0x2028 || n == 0x2029 || n == 0x202f || n == 0x205f || n == 0x3000 || n == 0xfeff
  }

  function TrimStart(s: string): string {
    if s != "" && IsSpace(s[0]) then TrimStart(s[1..]) else s
  }

  function TrimEnd(s: string): string {
    if s != "" && IsSpace(s[|s| - 1]) then TrimEnd(s[..|s| - 1]) else s
  }

  function Trim(s: string): string {
    TrimEnd(TrimStart(s))
  }

  ghost predicate AllSpace(s: string) {
    forall i | 0 <= i < |s| :: IsSpace(s[i])
  }

  lemma {:induction false} TrimStartIs(s: string) returns (a: string)
    ensures s == a + TrimStart(s) && AllSpace(a)
    ensures TrimStart(s) != "" ==> !IsSpace(TrimStart(s)[0])
  {
    a := "";
    if s != "" && IsSpace(s[0]) {
      a := TrimStartIs(s[1..]);
      a := [s[0]] + a;
    }
  }

  lemma {:induction false} TrimEndIs(s: string) returns (b: string)
    ensures s == TrimEnd(s) + b && AllSpace(b)
    ensures TrimEnd(s) != "" ==> !IsSpace(TrimEnd(s)[|TrimEnd(s)| - 1])
  {
    b := "";
    if s != "" && IsSpace(s[|s| - 1]) {
      b := TrimEndIs(s[..|s| - 1]);
      b := b + [s[|s| - 1]];
    }
  }

  /** Trimming takes off white space only, and leaves none at either end. */
  lemma TrimIs(s: string) returns (a: string, b: string)
    ensures s == a + Trim(s) + b && AllSpace(a) && AllSpace(b)
    ensures Trim(s) != "" ==> !IsSpace(Trim(s)[0]) && !IsSpace(Trim(s)[|Trim(s)| - 1])
  {
    a := TrimStartIs(s);
    b := TrimEndIs(TrimStart(s));
    Assoc(a, Trim(s), b);
  }

  /** The scanner's state between two characters. */
  datatype Mode = Mode(depth: int, quote: bool)

  const TOP := Mode(0, false)

  function Nesting(c: char): int {
    if c == '(' || c == '{' || c == '[' then 1
    else if c == ')' || c == '}' || c == ']' then -1
    else 0
  }

  predicate IsQuote(c: char) {
    c == '"' || c == '\''
  }

  function After(c: char, m: Mode): Mode {
    var quote := if IsQuote(c) then !m.quote else m.quote;
    Mode(if quote then m.depth else m.depth + Nesting(c), quote)
  }

  predicate Cuts(c: char, m: Mode) {
    c == '|' && After(c, m) == TOP
  }

  function SplitFrom(text: string, m: Mode, current: string): (parts: seq<string>)
    ensures parts != []
    decreases |text|
  {
    if text == "" then [Trim(current)]
    else if Cuts(text[0], m) then [Trim(current)] + SplitFrom(text[1..], After(text[0], m), "")
    else SplitFrom(text[1..], After(text[0], m), current + [text[0]])
  }

  function Split(text: string): seq<string> {
    SplitFrom(text, TOP, "")
  }

  /** The scanner as it is written: one pass that fills `parts`, `depth`, `quote` and `current`. */
  method SplitTopLevelUnion(text: string) returns (parts: seq<string>)
    ensures parts == Split(text)
  {
    parts := [];
    var depth, quote, current := 0, false, "";
    for i := 0 to |text|
      invariant parts + SplitFrom(text[i..], Mode(depth, quote), current) == Split(text)
    {
      ghost var before := Mode(depth, quote);
      var ch := text[i];
      assert text[i..][0] == ch && text[i..][1..] == text[i + 1..];
      if ch == '"' || ch == '\'' {
        quote := !quote;
      }
      if !quote {
        if ch == '(' || ch == '{' || ch == '[' {
          depth := depth + 1;
        }
        if ch == ')' || ch == '}' || ch == ']' {
          depth := depth - 1;
        }
      }
      assert Mode(depth, quote) == After(ch, before);
      if !quote && ch == '|' && depth == 0 {
        parts := parts + [Trim(current)];
        current := "";
      } else {
        current := current + [ch];
      }
    }
    parts := parts + [Trim(current)];
  }

  // ----- Scanning a text without cutting it -----

  /** The state after `p`, or None if the scanner cuts somewhere in `p`. */
  function Scan(p: string, m: Mode): (r: (bool, Mode)) {
    if p == "" then (true, m)
    else if Cuts(p[0], m) then (false, m)
    else Scan(p[1..], After(p[0], m))
  }

  /** Read from the top level, `p` leaves the scanner at the top level and is not cut. */
  predicate Balanced(p: string) {
    Scan(p, TOP) == (true, TOP)
  }

  lemma {:induction false} ScanConcat(p: string, q: string, m: Mode)
    ensures Scan(p + q, m) == if Scan(p, m).0 then Scan(q, Scan(p, m).1) else Scan(p, m)
  {
    if p == "" {
      assert p + q == q;
    } else {
      assert (p + q)[1..] == p[1..] + q;
      ScanConcat(p[1..], q, After(p[0], m));
    }
  }

  lemma {:induction false} SplitSkips(p: string, k: string, m: Mode, current: string)
    requires Scan(p, m).0
    ensures SplitFrom(p + k, m, current) == SplitFrom(k, Scan(p, m).1, current + p)
  {
    if p == "" {
      assert p + k == k && current + p == current;
    } else {
      assert (p + k)[1..] == p[1..] + k;
      SplitSkips(p[1..], k, After(p[0], m), current + [p[0]]);
      assert current + [p[0]] + p[1..] == current + p;
    }
  }

  // ----- Text that leaves the scanner where it was, at every depth -----

  /** The state after `p`, cuts or not. */
  function End(p: string, m: Mode): Mode {
    if p == "" then m else End(p[1..], After(p[0], m))
  }

  /** Every bar outside quotes stands at depth `floor` or deeper. */
  predicate BarsFrom(p: string, m: Mode, floor: int) {
    p == "" || ((p[0] == '|' && !m.quote ==> m.depth >= floor) && BarsFrom(p[1..], After(p[0], m), floor))
  }

  /** Read from the top, `p` ends there, with its bars at depth `floor` or deeper. */
  predicate Stays(p: string, floor: int) {
    End(p, TOP) == TOP && BarsFrom(p, TOP, floor)
  }

  lemma {:induction false} TraceConcat(p: string, q: string, m: Mode, floor: int)
    ensures End(p + q, m) == End(q, End(p, m))
    ensures BarsFrom(p + q, m, floor) <==> BarsFrom(p, m, floor) && BarsFrom(q, End(p, m), floor)
  {
    if p == "" {
      assert p + q == q;
    } else {
      assert (p + q)[1..] == p[1..] + q;
      TraceConcat(p[1..], q, After(p[0], m), floor);
    }
  }

  function Deeper(m: Mode, d: int): Mode {
    m.(depth := m.depth + d)
  }

  /** Depths are relative. */
  lemma {:induction false} TraceShift(p: string, m: Mode, floor: int, d: int)
    ensures End(p, Deeper(m, d)) == Deeper(End(p, m), d)
    ensures BarsFrom(p, Deeper(m, d), floor + d) <==> BarsFrom(p, m, floor)
  {
    if p != "" {
      assert After(p[0], Deeper(m, d)) == Deeper(After(p[0], m), d);
      TraceShift(p[1..], After(p[0], m), floor, d);
    }
  }

  lemma {:induction false} ScanWhole(p: string, m: Mode)
    requires BarsFrom(p, m, 1)
    ensures Scan(p, m) == (true, End(p, m))
  {
    if p != "" {
      ScanWhole(p[1..], After(p[0], m));
    }
  }

  /** A bar above the floor is cut if the text stands at the right depth. */
  lemma {:induction false} BarIsCut(p: string, m: Mode, floor: int) returns (d: int)
    requires !BarsFrom(p, m, floor)
    ensures d + floor >= 1 && !Scan(p, Deeper(m, d)).0
  {
    if p[0] == '|' && !m.quote && m.depth < floor {
      d := -m.depth;
    } else {
      d := BarIsCut(p[1..], After(p[0], m), floor);
      assert After(p[0], Deeper(m, d)) == Deeper(After(p[0], m), d);
    }
  }

  ghost predicate UncutAt(p: string, d: int) {
    Scan(p, Mode(d, false)) == (true, Mode(d, false))
  }

  lemma StaysScan(p: string, floor: int, d: int)
    requires Stays(p, floor) && d + floor >= 1
    ensures UncutAt(p, d)
  {
    TraceShift(p, TOP, floor, d);
    BarsWeaken(p, Mode(d, false), floor + d, 1);
    ScanWhole(p, Mode(d, false));
  }

  lemma {:induction false} BarsWeaken(p: string, m: Mode, floor: int, floor': int)
    requires BarsFrom(p, m, floor) && floor' <= floor
    ensures BarsFrom(p, m, floor')
  {
    if p != "" {
      BarsWeaken(p[1..], After(p[0], m), floor, floor');
    }
  }

  /** The condition is exact: it says that the scanner passes over `p` at every depth from 1 - floor on. */
  lemma StaysIff(p: string, floor: int)
    ensures Stays(p, floor) <==> forall d: int | d + floor >= 1 :: UncutAt(p, d)
  {
    if Stays(p, floor) {
      forall d: int | d + floor >= 1 ensures UncutAt(p, d) {
        StaysScan(p, floor, d);
      }
    } else if !BarsFrom(p, TOP, floor) {
      var d := BarIsCut(p, TOP, floor);
      assert Deeper(TOP, d) == Mode(d, false);
      assert !UncutAt(p, d);
    } else {
      var d := 1 - floor;
      TraceShift(p, TOP, floor, d);
      ScanWhole(p, Mode(d, false));
      assert !UncutAt(p, d);
    }
  }

  lemma StaysConcat(p: string, q: string, floor: int)
    requires Stays(p, floor) && Stays(q, floor)
    ensures Stays(p + q, floor)
  {
    TraceConcat(p, q, TOP, floor);
  }

  /** Text without quotes, brackets and bars. */
  predicate IsInert(p: string) {
    forall i | 0 <= i < |p| :: !IsQuote(p[i]) && Nesting(p[i]) == 0 && p[i] != '|'
  }

  lemma {:induction false} InertKeeps(p: string, m: Mode, floor: int)
    requires IsInert(p)
    ensures End(p, m) == m && BarsFrom(p, m, floor)
  {
    if p != "" {
      assert !IsQuote(p[0]) && Nesting(p[0]) == 0 && p[0] != '|';
      assert forall i | 0 <= i < |p| - 1 :: p[1..][i] == p[i + 1];
      InertKeeps(p[1..], m, floor);
    }
  }

  lemma StaysInert(p: string, floor: int)
    requires IsInert(p)
    ensures Stays(p, floor)
  {
    InertKeeps(p, TOP, floor);
  }

  lemma OneChar(c: char, m: Mode, floor: int)
    requires c != '|'
    ensures End([c], m) == After(c, m) && BarsFrom([c], m, floor)
  {
    assert [c][1..] == "";
  }

  /** Brackets shield the bars of what is inside. */
  lemma StaysAround(open: char, body: string, close: char)
    requires After(open, TOP) == Mode(1, false) && After(close, Mode(1, false)) == TOP
    requires open != '|' && close != '|' && Stays(body, 0)
    ensures Stays([open] + body + [close], 1)
  {
    TraceShift(body, TOP, 0, 1);
    OneChar(open, TOP, 1);
    OneChar(close, Mode(1, false), 1);
    TraceConcat([open], body, TOP, 1);
    TraceConcat([open] + body, [close], TOP, 1);
  }

  // ----- Cutting undoes joining -----

  function Join(parts: seq<string>): string {
    if parts == [] then ""
    else if |parts| == 1 then parts[0]
    else parts[0] + BAR + Join(parts[1..])
  }

  predicate Trimmed(p: string) {
    p != "" && !IsSpace(p[0]) && !IsSpace(p[|p| - 1])
  }

  predicate IsPart(p: string) {
    Balanced(p) && Trimmed(p)
  }

  lemma TrimPart(p: string, before: string, after: string)
    requires Trimmed(p)
    requires (before == "" || before == " ") && (after == "" || after == " ")
    ensures Trim(before + p + after) == p
  {
    var s := before + p + after;
    if before == " " {
      assert s[1..] == p + after && s[0] == ' ';
    } else {
      assert s == p + after;
    }
    assert (p + after)[0] == p[0];
    assert TrimStart(s) == p + after;
    if after == " " {
      assert (p + after)[|p|] == ' ' && (p + after)[..|p|] == p;
      assert TrimEnd(p + after) == TrimEnd(p);
    } else {
      assert p + after == p;
    }
  }

  lemma {:induction false} SplitJoinFrom(ps: seq<string>, before: string)
    requires ps != [] && forall p | p in ps :: IsPart(p)
    requires before == "" || before == " "
    ensures SplitFrom(Join(ps), TOP, before) == ps
    decreases |ps|
  {
    var p := ps[0];
    assert IsPart(p);
    if |ps| == 1 {
      SplitSkips(p, "", TOP, before);
      assert p + "" == p && before + p + "" == before + p;
      TrimPart(p, before, "");
    } else {
      var rest := Join(ps[1..]);
      var tail := BAR + rest;
      assert Join(ps) == p + tail;
      SplitSkips(p, tail, TOP, before);
      CutAtBar(rest, before + p);
      TrimPart(p, before, " ");
      SplitJoinFrom(ps[1..], " ");
      assert ps == [p] + ps[1..];
    }
  }

  lemma CutAtBar(rest: string, current: string)
    ensures SplitFrom(BAR + rest, TOP, current) == [Trim(current + " ")] + SplitFrom(rest, TOP, " ")
  {
    var s := BAR + rest;
    assert s[0] == ' ' && s[1..] == "| " + rest;
    assert s[1..][1..] == " " + rest;
    assert (" " + rest)[1..] == rest && "" + " " == " ";
    assert SplitFrom(" " + rest, TOP, "") == SplitFrom(rest, TOP, " ");
  }

  /** Parts joined by ` | ` are recovered exactly when each is balanced and has no bar of its own. */
  lemma SplitJoin(ps: seq<string>)
    requires ps != [] && forall p | p in ps :: IsPart(p)
    ensures Split(Join(ps)) == ps
  {
    SplitJoinFrom(ps, "");
  }

  lemma {:induction false} JoinConcat(a: seq<string>, b: seq<string>)
    requires a != [] && b != []
    ensures Join(a + b) == Join(a) + BAR + Join(b)
  {
    if |a| == 1 {
      assert (a + b)[1..] == b;
    } else {
      assert (a + b)[1..] == a[1..] + b;
      JoinConcat(a[1..], b);
      assert a[0] + BAR + (Join(a[1..]) + BAR + Join(b)) == Join(a) + BAR + Join(b);
    }
  }

  // ----- What the scanner returns on a printed type -----

  /**
   * The scanner passes over each literal wherever it stands, and over each comment wherever a bracket
   * is open around it. Brackets and quotes that pair up are harmless; see StaysIff.
   */
  predicate Quiet(t: Ts) {
    match t
    case Word(_) => true
    case Quoted(s) => Stays("'" + s + "'", 1)
    case ArrayOf(e) => Quiet(e)
    case Shape(fs) => forall f | f in fs :: Stays(f.doc, 0) && Quiet(f.typ)
    case RecordOf(e) => Quiet(e)
    case Union(ms) => forall m | m in ms :: Quiet(m)
  }

  /** The parts of a record type are the parts of its element with the wrapping stuck on. */
  function Wrap(ps: seq<string>): (r: seq<string>)
    requires ps != []
    ensures |r| == |ps|
  {
    if |ps| == 1 then [RECORD + ps[0] + ">"]
    else [RECORD + ps[0]] + ps[1..|ps| - 1] + [ps[|ps| - 1] + ">"]
  }

  function Pieces(t: Ts): (ps: seq<string>)
    ensures ps != []
  {
    match t
    case Union(ms) => if ms == [] then [Print(t)] else MemberPieces(ms)
    case RecordOf(e) => Wrap(Pieces(e))
    case _ => [Print(t)]
  }

  function MemberPieces(ms: seq<Ts>): (ps: seq<string>)
    ensures ms != [] ==> ps != []
  {
    if ms == [] then [] else Pieces(ms[0]) + MemberPieces(ms[1..])
  }

  lemma BalancedConcat(p: string, q: string)
    requires Balanced(p) && Balanced(q)
    ensures Balanced(p + q)
  {
    ScanConcat(p, q, TOP);
  }

  /** The bars of a printed type stand inside brackets, those of a union or of a map to one at its top. */
  lemma {:induction false} PrintStays(t: Ts)
    requires Canonical(t) && Quiet(t)
    ensures Stays(Print(t), if Flat(t) then 1 else 0)
    decreases t, 0
  {
    match t {
      case Word(w) => StaysInert(w, 1);
      case Quoted(_) =>
      case ArrayOf(e) =>
        PrintStays(e);
        StaysList(Print(e), Flat(e));
      case Shape(fs) =>
        FieldsStay(fs);
        StaysBraces(PrintFields(fs));
      case RecordOf(e) =>
        PrintStays(e);
        StaysWrapped(RECORD, Print(e), ">", if Flat(e) then 1 else 0);
      case Union(ms) =>
        MembersStay(ms);
    }
  }

  lemma StaysList(p: string, flat: bool)
    requires Stays(p, if flat then 1 else 0)
    ensures Stays(if flat then p + "[]" else "(" + p + ")[]", 1)
  {
    StaysInert("", 0);
    StaysAround('[', "", ']');
    assert ['['] + "" + [']'] == "[]";
    if flat {
      StaysConcat(p, "[]", 1);
    } else {
      StaysAround('(', p, ')');
      StaysConcat("(" + p + ")", "[]", 1);
      assert "(" + p + ")" + "[]" == "(" + p + ")[]";
    }
  }

  lemma StaysBraces(p: string)
    requires Stays(p, 0)
    ensures Stays("{ " + p + " }", 1)
  {
    StaysInert(" ", 0);
    StaysConcat(" ", p, 0);
    StaysConcat(" " + p, " ", 0);
    StaysAround('{', " " + p + " ", '}');
    assert ['{'] + (" " + p + " ") + ['}'] == "{ " + p + " }";
  }

  lemma StaysWrapped(before: string, p: string, after: string, floor: int)
    requires IsInert(before) && IsInert(after) && Stays(p, floor)
    ensures Stays(before + p + after, floor)
  {
    StaysInert(before, floor);
    StaysInert(after, floor);
    StaysConcat(before, p, floor);
    StaysConcat(before + p, after, floor);
  }

  lemma StaysBar()
    ensures Stays(BAR, 0)
  {
    assert BAR[1..] == "| " && BAR[1..][1..] == " " && BAR[1..][1..][1..] == "";
  }

  lemma {:induction false} MembersStay(ms: seq<Ts>)
    requires forall t | t in ms :: Canonical(t) && Quiet(t)
    ensures Stays(PrintMembers(ms), 0)
    decreases ms, 1
  {
    if ms != [] {
      PrintStays(ms[0]);
      BarsWeaken(Print(ms[0]), TOP, if Flat(ms[0]) then 1 else 0, 0);
      if |ms| > 1 {
        MembersStay(ms[1..]);
        StaysBar();
        StaysConcat(Print(ms[0]), BAR, 0);
        StaysConcat(Print(ms[0]) + BAR, PrintMembers(ms[1..]), 0);
      }
    }
  }

  lemma {:induction false} FieldsStay(fs: seq<Field>)
    requires forall f | f in fs :: CanonicalField(f) && Stays(f.doc, 0) && Quiet(f.typ)
    ensures Stays(PrintFields(fs), 0)
    decreases fs, 1
  {
    if fs != [] {
      PrintStays(fs[0].typ);
      BarsWeaken(Print(fs[0].typ), TOP, if Flat(fs[0].typ) then 1 else 0, 0);
      FieldStays(fs[0]);
      if |fs| > 1 {
        FieldsStay(fs[1..]);
        StaysInert("; ", 0);
        StaysConcat(PrintField(fs[0]), "; ", 0);
        StaysConcat(PrintField(fs[0]) + "; ", PrintFields(fs[1..]), 0);
      }
    }
  }

  lemma FieldStays(f: Field)
    requires IsFieldName(f.name) && Stays(f.doc, 0) && Stays(Print(f.typ), 0)
    ensures Stays(PrintField(f), 0)
  {
    var doc, named := PrintDoc(f.doc), NamePart(f);
    DocStays(f.doc);
    StaysInert(named, 0);
    StaysConcat(doc, named, 0);
    StaysConcat(doc + named, Print(f.typ), 0);
    FieldParts(f);
  }

  /** A field's text between its comment and its type. */
  function NamePart(f: Field): string {
    f.name + (if f.optional then "?" else "") + ": "
  }

  lemma FieldParts(f: Field)
    ensures PrintField(f) == (PrintDoc(f.doc) + NamePart(f)) + Print(f.typ)
  {
    var doc, mark := PrintDoc(f.doc), if f.optional then "?" else "";
    Assoc(doc, f.name, mark);
    Assoc(doc, f.name + mark, ": ");
  }

  lemma DocStays(doc: string)
    requires Stays(doc, 0)
    ensures Stays(PrintDoc(doc), 0)
  {
    StaysWrapped(DOC_OPEN, doc, " */", 0);
  }

  /** So the scanner passes over it uncut inside any bracket, and at the top if it shows no bar there. */
  lemma ScanPrint(t: Ts, depth: nat)
    requires Canonical(t) && Quiet(t)
    requires depth > 0 || Flat(t)
    ensures Scan(Print(t), Mode(depth, false)) == (true, Mode(depth, false))
  {
    PrintStays(t);
    StaysScan(Print(t), if Flat(t) then 1 else 0, depth);
    assert UncutAt(Print(t), depth);
  }

  /** No printed type starts or ends with white space. */
  lemma {:induction false} TrimmedPrint(t: Ts)
    requires Canonical(t)
    ensures Trimmed(Print(t))
    decreases t, 0
  {
    match t {
      case Word(_) =>
      case Quoted(_) =>
      case Shape(_) =>
      case ArrayOf(e) => TrimmedPrint(e);
      case RecordOf(e) => TrimmedPrint(e);
      case Union(ms) => TrimmedMembers(ms);
    }
  }

  lemma {:induction false} TrimmedMembers(ms: seq<Ts>)
    requires ms != [] && forall m | m in ms :: Canonical(m)
    ensures Trimmed(PrintMembers(ms))
    decreases ms, 1
  {
    TrimmedPrint(ms[0]);
    if |ms| > 1 {
      TrimmedMembers(ms[1..]);
    }
  }

  lemma WrapParts(ps: seq<string>)
    requires ps != [] && forall p | p in ps :: IsPart(p)
    ensures forall p | p in Wrap(ps) :: IsPart(p)
  {
    var r, last := Wrap(ps), |ps| - 1;
    forall i | 0 <= i < |r| ensures IsPart(r[i]) {
      assert ps[i] in ps;
      WrapPart(ps[i]);
      assert |ps| > 1 && 0 < i < last ==> r[i] == ps[i];
    }
  }

  lemma JoinWrap(ps: seq<string>)
    requires ps != []
    ensures Join(Wrap(ps)) == RECORD + Join(ps) + ">"
  {
    var last := |ps| - 1;
    if |ps| > 1 {
      var mid, r := ps[1..last], Wrap(ps);
      assert ps[1..] == mid + [ps[last]];
      JoinLast(mid, ps[last], ">");
      assert r[1..] == mid + [ps[last] + ">"] && r[0] == RECORD + ps[0];
      JoinWrapped(ps[0], Join(ps[1..]));
    }
  }

  lemma JoinWrapped(first: string, rest: string)
    ensures (RECORD + first) + BAR + (rest + ">") == RECORD + (first + BAR + rest) + ">"
  {
  }

  lemma WrapPart(p: string)
    requires IsPart(p)
    ensures IsPart(RECORD + p) && IsPart(p + ">") && IsPart(RECORD + p + ">")
  {
    PartConcat(RECORD, p, true);
    PartConcat(p, ">", false);
    PartConcat(RECORD + p, ">", false);
  }

  lemma PartConcat(p: string, q: string, first: bool)
    requires IsInert(if first then p else q) && IsPart(if first then q else p)
    requires p != "" && !IsSpace(p[0]) && q != "" && !IsSpace(q[|q| - 1])
    ensures IsPart(p + q)
  {
    InertIsBalanced(if first then p else q);
    BalancedConcat(p, q);
    TrimmedConcat(p, q);
  }

  lemma InertIsBalanced(p: string)
    requires IsInert(p)
    ensures Balanced(p)
  {
    InertKeeps(p, TOP, 1);
    ScanWhole(p, TOP);
  }

  lemma TrimmedConcat(p: string, q: string)
    requires p != "" && !IsSpace(p[0])
    requires q != "" && !IsSpace(q[|q| - 1])
    ensures Trimmed(p + q)
  {
    assert (p + q)[0] == p[0] && (p + q)[|p + q| - 1] == q[|q| - 1];
  }

  lemma {:induction false} JoinLast(ps: seq<string>, last: string, more: string)
    ensures Join(ps + [last + more]) == Join(ps + [last]) + more
  {
    if ps == [] {
      assert ps + [last + more] == [last + more] && ps + [last] == [last];
    } else {
      assert (ps + [last + more])[1..] == ps[1..] + [last + more];
      assert (ps + [last])[1..] == ps[1..] + [last];
      JoinLast(ps[1..], last, more);
      var rest := Join(ps[1..] + [last]);
      assert ps[0] + BAR + (rest + more) == ps[0] + BAR + rest + more;
    }
  }

  /** Joining the pieces of a tree gives its text. */
  lemma {:induction false} JoinPieces(t: Ts)
    requires Canonical(t)
    ensures Join(Pieces(t)) == Print(t)
    ensures |Pieces(t)| == 1 <==> Flat(t)
    decreases t, 0
  {
    match t {
      case RecordOf(e) =>
        JoinPieces(e);
        JoinWrap(Pieces(e));
      case Union(ms) =>
        JoinMemberPieces(ms);
      case _ =>
    }
  }

  lemma {:induction false} JoinMemberPieces(ms: seq<Ts>)
    requires ms != [] && forall m | m in ms :: Canonical(m)
    ensures Join(MemberPieces(ms)) == PrintMembers(ms)
    ensures |MemberPieces(ms)| >= |ms|
    decreases ms, 1
  {
    JoinPieces(ms[0]);
    if |ms| > 1 {
      JoinMemberPieces(ms[1..]);
      JoinConcat(Pieces(ms[0]), MemberPieces(ms[1..]));
    } else {
      assert MemberPieces(ms) == Pieces(ms[0]);
    }
  }

  /** They are parts that the splitter leaves whole if the tree is quiet. */
  lemma {:induction false} PiecesSound(t: Ts)
    requires Canonical(t) && Quiet(t)
    ensures forall p | p in Pieces(t) :: IsPart(p)
    decreases t, 0
  {
    match t {
      case RecordOf(e) =>
        PiecesSound(e);
        WrapParts(Pieces(e));
      case Union(ms) =>
        MemberPiecesSound(ms);
      case _ =>
        ScanPrint(t, 0);
        TrimmedPrint(t);
    }
  }

  lemma {:induction false} MemberPiecesSound(ms: seq<Ts>)
    requires forall m | m in ms :: Canonical(m) && Quiet(m)
    ensures forall p | p in MemberPieces(ms) :: IsPart(p)
    decreases ms, 1
  {
    if ms != [] {
      PiecesSound(ms[0]);
      MemberPiecesSound(ms[1..]);
    }
  }

  /** The splitter returns the tree's pieces. */
  predicate CutsRight(t: Ts) {
    Split(Print(t)) == Pieces(t)
  }

  /** The splitter sees more than one part exactly if there is a bar outside brackets. */
  predicate CountsRight(t: Ts) {
    |Split(Print(t))| > 1 <==> !Flat(t)
  }

  /** On a quiet tree it does both; more trees can have that, such as those whose text has no bar. */
  lemma SplitPrint(t: Ts)
    requires Canonical(t) && Quiet(t)
    ensures CutsRight(t) && CountsRight(t)
  {
    PiecesSound(t);
    JoinPieces(t);
    SplitJoin(Pieces(t));
  }

  predicate BarFree(p: string) {
    forall i | 0 <= i < |p| :: p[i] != '|'
  }

  lemma {:induction false} BarFreeScans(p: string, m: Mode, floor: int)
    requires BarFree(p)
    ensures BarsFrom(p, m, floor) && Scan(p, m) == (true, End(p, m))
  {
    if p != "" {
      assert p[0] != '|' && forall i | 0 <= i < |p| - 1 :: p[1..][i] == p[i + 1];
      BarFreeScans(p[1..], After(p[0], m), floor);
    }
  }

  /** Text that is not cut comes back as it is. */
  lemma UncutSplit(p: string)
    requires Scan(p, TOP).0 && Trimmed(p)
    ensures Split(p) == [p]
  {
    SplitSkips(p, "", TOP, "");
    assert p + "" == p && "" + p == p && "" + p + "" == p;
    TrimPart(p, "", "");
  }

  lemma BarFreeCutsRight(t: Ts)
    requires Canonical(t) && BarFree(Print(t)) && !t.Union?
    ensures CutsRight(t)
  {
    BarFreeScans(Print(t), TOP, 1);
    TrimmedPrint(t);
    UncutSplit(Print(t));
    JoinPieces(t);
    if !Flat(t) {
      UnionHasBar(t);
    }
    assert |Pieces(t)| == 1;
  }

  lemma {:induction false} UnionHasBar(t: Ts)
    requires Canonical(t) && !Flat(t)
    ensures !BarFree(Print(t))
    decreases t
  {
    match t {
      case RecordOf(e) =>
        UnionHasBar(e);
        var i :| 0 <= i < |Print(e)| && Print(e)[i] == '|';
        assert Print(t)[|RECORD| + i] == '|';
      case Union(ms) =>
        var p := Print(ms[0]);
        assert Print(t) == p + BAR + PrintMembers(ms[1..]);
        assert Print(t)[|p| + 1] == BAR[1] == '|';
    }
  }
}

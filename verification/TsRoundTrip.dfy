/** Parsing undoes printing for every canonical tree, in every context a tree can stand in. */
module TsRoundTrip {
  import opened Wrappers
  import opened Basics
  import opened TsGrammar

  /** What may follow a word without being read as part of it. */
  ghost predicate Stops(k: string) {
    k == "" || (!IsWordChar(k[0]) && k[0] != '<')
  }

  /** What may follow a whole type. */
  ghost predicate Ends(k: string) {
    k == "" || k[0] == ')' || k[0] == '>' || k[0] == ';' || " }" <= k
  }

  lemma EndsNothingGoesOn(t: Ts, k: string)
    requires Ends(k)
    ensures Stops(k) && !(BAR <= k) && Suffixes(t, k) == (t, k)
  {
    if " }" <= k {
      assert k[1] == '}' && BAR[1] == '|';
    } else if k != "" {
      assert k[0] != BAR[0] && k[0] != "[]"[0];
    }
  }

  lemma {:induction false} SpanExact(w: string, k: string, p: char -> bool)
    requires forall i | 0 <= i < |w| :: p(w[i])
    requires k == "" || !p(k[0])
    ensures Span(w + k, p) == |w|
  {
    if w == "" {
      assert w + k == k;
    } else {
      assert (w + k)[1..] == w[1..] + k;
      SpanExact(w[1..], k, p);
    }
  }

  lemma {:induction false} CommentEndExact(doc: string, k: string)
    requires IsDocText(doc)
    ensures CommentEnd(doc + " */" + k) == Some(|doc| + 1)
  {
    var s := doc + " */" + k;
    if doc == "" {
      assert s[1..] == "*/" + k;
    } else {
      assert s[1..] == doc[1..] + " */" + k;
      CommentEndExact(doc[1..], k);
    }
  }

  lemma ReadDoc(doc: string, body: string, k: string)
    requires body == doc + " */" + k && CommentEnd(body) == Some(|doc| + 1)
    ensures ParseDoc(DOC_OPEN + body) == Some((doc, k))
  {
    assert (DOC_OPEN + body)[|DOC_OPEN|..] == body;
    assert body[|doc|] == ' ' && body[..|doc|] == doc && body[|doc| + 3..] == k;
  }

  lemma ParseDocExact(doc: string, k: string)
    requires IsDocText(doc)
    requires k != "" && IsIdentChar(k[0])
    ensures ParseDoc(PrintDoc(doc) + k) == Some((doc, k))
  {
    if doc == "" {
      assert PrintDoc(doc) + k == k && DOC_OPEN[0] == '/';
    } else {
      var body := doc + " */" + k;
      CommentEndExact(doc, k);
      ReadDoc(doc, body, k);
      assert PrintDoc(doc) + k == DOC_OPEN + body;
    }
  }

  // ----- One lemma for each form of type: what its parts read as, the whole reads as -----

  lemma ReadWord(w: string, k: string)
    requires IsWord(w) && Stops(k)
    ensures ParsePrimary(w + k) == Some((Word(w), k))
  {
    var s := w + k;
    assert s[0] == w[0] && IsWordChar(s[0]);
    RecordIsNoWord(w, k);
    SpanExact(w, k, IsWordChar);
    assert s[..|w|] == w && s[|w|..] == k;
  }

  lemma RecordIsNoWord(w: string, k: string)
    requires IsWord(w) && Stops(k)
    ensures !(RECORD <= w + k)
  {
    var n, s := |RECORD_WORD|, w + k;
    assert RECORD[..n] == RECORD_WORD && RECORD[n] == '<';
    if |w| > n {
      assert s[n] == w[n];
    } else if k != "" {
      assert s[|w|] == k[0] && (|w| < n ==> RECORD[|w|] == RECORD_WORD[|w|]);
    }
  }

  lemma ReadQuoted(q: string, k: string)
    requires forall i | 0 <= i < |q| :: IsQuotedChar(q[i])
    ensures ParsePrimary("'" + q + "'" + k) == Some((Quoted(q), k))
  {
    var s, rest := "'" + q + "'" + k, "'" + k;
    assert s[0] == '\'';
    assert s[1..] == q + rest;
    SpanExact(q, rest, IsQuotedChar);
    assert s[1 + |q|..] == rest && s[2 + |q|..] == k && s[1..1 + |q|] == q;
  }

  lemma ReadParens(p: string, t: Ts, k: string)
    requires ParseUnion(p + ")" + k) == Some((t, ")" + k))
    ensures ParsePrimary("(" + p + ")" + k) == Some((t, k))
  {
    var s := "(" + p + ")" + k;
    assert s[0] == '(';
    assert s[1..] == p + ")" + k && (")" + k)[1..] == k;
  }

  lemma ReadRecord(p: string, t: Ts, k: string)
    requires ParseUnion(p + ">" + k) == Some((t, ">" + k))
    ensures ParsePrimary(RECORD + p + ">" + k) == Some((RecordOf(t), k))
  {
    var s := RECORD + p + ">" + k;
    assert s == RECORD + (p + ">" + k);
    assert s[0] == 'R';
    assert s[|RECORD|..] == p + ">" + k && (">" + k)[1..] == k;
  }

  lemma ReadShape(p: string, fs: seq<Field>, k: string)
    requires ParseFields(p + " }" + k) == Some((fs, " }" + k))
    ensures ParsePrimary("{ " + p + " }" + k) == Some((Shape(fs), k))
  {
    ReadFields(p + " }" + k, fs, " }" + k);
    Assoc("{ ", p, " }");
    Assoc("{ ", p + " }", k);
    assert (" }" + k)[2..] == k;
  }

  lemma ReadFields(body: string, fs: seq<Field>, rest: string)
    requires ParseFields(body) == Some((fs, rest)) && " }" <= rest
    ensures ParsePrimary("{ " + body) == Some((Shape(fs), rest[2..]))
  {
    var s := "{ " + body;
    assert s[0] == '{' && s[2..] == body;
  }

  lemma ReadSuffix(t: Ts, k: string)
    ensures Suffixes(t, "[]" + k) == Suffixes(ArrayOf(t), k)
  {
    assert ("[]" + k)[2..] == k;
  }

  lemma ReadArray(e: Ts, k: string)
    requires Flat(e) ==> ParsePostfix(Print(e) + ("[]" + k)) == Some(Suffixes(e, "[]" + k))
    requires !Flat(e) ==> ParseUnion(Print(e) + (")" + ("[]" + k))) == Some((e, ")" + ("[]" + k)))
    ensures ParsePostfix(Print(ArrayOf(e)) + k) == Some(Suffixes(ArrayOf(e), k))
  {
    var p, rest := Print(e), "[]" + k;
    ReadSuffix(e, k);
    if Flat(e) {
      assert p + "[]" + k == p + rest;
    } else {
      assert p + ")" + rest == p + (")" + rest);
      ReadParens(p, e, rest);
      assert "(" + p + ")[]" + k == "(" + p + ")" + rest;
    }
  }

  lemma ReadMore(p: string, t: Ts, q: string, ms: seq<Ts>, k: string)
    requires ParsePostfix(p + (BAR + q)) == Some((t, BAR + q))
    requires ParseMembers(q) == Some((ms, k))
    ensures ParseMembers(p + BAR + q) == Some(([t] + ms, k))
  {
    assert p + (BAR + q) == p + BAR + q;
    assert (BAR + q)[|BAR|..] == q;
  }

  lemma BarStops(t: Ts, q: string)
    ensures Stops(BAR + q) && Suffixes(t, BAR + q) == (t, BAR + q)
  {
    assert (BAR + q)[0] == ' ';
  }

  // ----- The induction over trees -----

  lemma {:induction false} ParsePrintPostfix(t: Ts, k: string)
    requires Canonical(t) && !t.Union? && Stops(k)
    ensures ParsePostfix(Print(t) + k) == Some(Suffixes(t, k))
    decreases t, 0
  {
    match t {
      case Word(w) =>
        ReadWord(w, k);
      case Quoted(q) =>
        ReadQuoted(q, k);
      case ArrayOf(e) =>
        if Flat(e) {
          ParsePrintPostfix(e, "[]" + k);
        } else {
          ParsePrintUnion(e, ")" + ("[]" + k));
        }
        ReadArray(e, k);
      case Shape(fs) =>
        ParsePrintFields(fs, " }" + k);
        assert PrintFields(fs) + " }" + k == PrintFields(fs) + (" }" + k);
        ReadShape(PrintFields(fs), fs, k);
      case RecordOf(e) =>
        ParsePrintUnion(e, ">" + k);
        assert Print(e) + ">" + k == Print(e) + (">" + k);
        ReadRecord(Print(e), e, k);
    }
  }

  lemma {:induction false} ParsePrintMembers(ms: seq<Ts>, k: string)
    requires ms != [] && Ends(k)
    requires forall m | m in ms :: !m.Union? && Canonical(m)
    ensures ParseMembers(PrintMembers(ms) + k) == Some((ms, k))
    decreases ms, 1
  {
    if |ms| == 1 {
      EndsNothingGoesOn(ms[0], k);
      ParsePrintPostfix(ms[0], k);
      assert ms == [ms[0]];
    } else {
      var q := PrintMembers(ms[1..]) + k;
      assert PrintMembers(ms) + k == Print(ms[0]) + BAR + q;
      BarStops(ms[0], q);
      ParsePrintPostfix(ms[0], BAR + q);
      ParsePrintMembers(ms[1..], k);
      ReadMore(Print(ms[0]), ms[0], q, ms[1..], k);
      assert ms == [ms[0]] + ms[1..];
    }
  }

  lemma {:induction false} ParsePrintUnion(t: Ts, k: string)
    requires Canonical(t) && Ends(k)
    ensures ParseUnion(Print(t) + k) == Some((t, k))
    decreases t, 2
  {
    if t.Union? {
      ParsePrintMembers(t.members, k);
    } else {
      EndsNothingGoesOn(t, k);
      ParsePrintPostfix(t, k);
    }
  }

  lemma {:induction false} ParsePrintField(f: Field, k: string)
    requires CanonicalField(f) && Ends(k)
    ensures ParseField(PrintField(f) + k) == Some((f, k))
    decreases f, 3
  {
    ParsePrintUnion(f.typ, k);
    ReadField(f, Print(f.typ) + k, k);
    FieldText(f, k);
  }

  lemma FieldText(f: Field, k: string)
    ensures var marked := (if f.optional then "?" else "") + (": " + (Print(f.typ) + k));
            PrintField(f) + k == PrintDoc(f.doc) + (f.name + marked)
  {
    var doc, mark, typ := PrintDoc(f.doc), if f.optional then "?" else "", Print(f.typ);
    Assoc(doc + f.name + mark + ": ", typ, k);
    Assoc(doc + f.name + mark, ": ", typ + k);
    Assoc(doc + f.name, mark, ": " + (typ + k));
    Assoc(doc, f.name, mark + (": " + (typ + k)));
  }

  lemma ReadField(f: Field, body: string, k: string)
    requires IsDocText(f.doc) && IsFieldName(f.name)
    requires ParseUnion(body) == Some((f.typ, k))
    ensures var marked := (if f.optional then "?" else "") + (": " + body);
            ParseField(PrintDoc(f.doc) + (f.name + marked)) == Some((f, k))
  {
    var marked := (if f.optional then "?" else "") + (": " + body);
    ParseDocExact(f.doc, f.name + marked);
    ReadNamed(PrintDoc(f.doc) + (f.name + marked), f, body, k);
  }

  lemma ReadNamed(s: string, f: Field, body: string, k: string)
    requires IsFieldName(f.name) && ParseUnion(body) == Some((f.typ, k))
    requires var marked := (if f.optional then "?" else "") + (": " + body);
             ParseDoc(s) == Some((f.doc, f.name + marked))
    ensures ParseField(s) == Some((f, k))
  {
    var marked := (if f.optional then "?" else "") + (": " + body);
    var named := f.name + marked;
    ReadMark(f.optional, body);
    SpanExact(f.name, marked, IsIdentChar);
    assert named[..|f.name|] == f.name && named[|f.name|..] == marked;
  }

  lemma ReadMark(optional: bool, body: string)
    ensures var marked := (if optional then "?" else "") + (": " + body);
            && !IsIdentChar(marked[0]) && ("?" <= marked <==> optional)
            && (if optional then marked[1..] else marked) == ": " + body && (": " + body)[2..] == body
  {
    var marked := (if optional then "?" else "") + (": " + body);
    assert marked[0] == if optional then '?' else ':';
  }

  lemma {:induction false} ParsePrintFields(fs: seq<Field>, k: string)
    requires fs != [] && " }" <= k
    requires forall f | f in fs :: CanonicalField(f)
    ensures ParseFields(PrintFields(fs) + k) == Some((fs, k))
    decreases fs, 4
  {
    var f := fs[0];
    if |fs| == 1 {
      ParsePrintField(f, k);
      ReadLastField(PrintField(f) + k, f, k);
      assert fs == [f];
    } else {
      ParsePrintField(f, "; " + (PrintFields(fs[1..]) + k));
      ParsePrintFields(fs[1..], k);
      ReadFirstField(fs, k);
    }
  }

  lemma ReadFirstField(fs: seq<Field>, k: string)
    requires |fs| > 1
    requires var more := "; " + (PrintFields(fs[1..]) + k); ParseField(PrintField(fs[0]) + more) == Some((fs[0], more))
    requires ParseFields(PrintFields(fs[1..]) + k) == Some((fs[1..], k))
    ensures ParseFields(PrintFields(fs) + k) == Some((fs, k))
  {
    var q := PrintFields(fs[1..]) + k;
    FieldsText(fs, k);
    ReadMoreFields(PrintField(fs[0]) + ("; " + q), fs[0], q, fs[1..], k);
    assert fs == [fs[0]] + fs[1..];
  }

  lemma FieldsText(fs: seq<Field>, k: string)
    requires |fs| > 1
    ensures PrintFields(fs) + k == PrintField(fs[0]) + ("; " + (PrintFields(fs[1..]) + k))
  {
    Assoc(PrintField(fs[0]), "; ", PrintFields(fs[1..]));
    Assoc(PrintField(fs[0]), "; " + PrintFields(fs[1..]), k);
    Assoc("; ", PrintFields(fs[1..]), k);
  }

  lemma ReadLastField(s: string, f: Field, k: string)
    requires ParseField(s) == Some((f, k)) && " }" <= k
    ensures ParseFields(s) == Some(([f], k))
  {
    assert k[0] == ' ' && "; "[0] == ';';
  }

  lemma ReadMoreFields(s: string, f: Field, q: string, fs: seq<Field>, k: string)
    requires ParseField(s) == Some((f, "; " + q))
    requires ParseFields(q) == Some((fs, k))
    ensures ParseFields(s) == Some(([f] + fs, k))
  {
    assert ("; " + q)[2..] == q;
  }

  /** Every canonical tree is read back from its own text. */
  lemma ParsePrint(t: Ts)
    requires Canonical(t)
    ensures Parse(Print(t)) == Some(t)
  {
    ParsePrintUnion(t, "");
    assert Print(t) + "" == Print(t);
  }

  /** So two canonical trees with one text are one tree. */
  lemma PrintInjective(t: Ts, u: Ts)
    requires Canonical(t) && Canonical(u) && Print(t) == Print(u)
    ensures t == u
  {
    ParsePrint(t);
    ParsePrint(u);
  }

  // ----- And only canonical trees: whatever is parsed is legal -----

  lemma {:induction false} CanonicalMeans(t: Ts)
    ensures Canonical(t) <==> Shaped(t) && Legal(t)
  {
    match t {
      case ArrayOf(e) => CanonicalMeans(e);
      case RecordOf(e) => CanonicalMeans(e);
      case Shape(fs) =>
        forall f | f in fs ensures Canonical(f.typ) <==> Shaped(f.typ) && Legal(f.typ) {
          CanonicalMeans(f.typ);
        }
      case Union(ms) =>
        forall m | m in ms ensures Canonical(m) <==> Shaped(m) && Legal(m) {
          CanonicalMeans(m);
        }
      case _ =>
    }
  }

  lemma {:induction false} SpanHolds(s: string, p: char -> bool)
    ensures forall i | 0 <= i < Span(s, p) :: p(s[i])
  {
    if s != "" && p(s[0]) {
      SpanHolds(s[1..], p);
      assert forall i | 1 <= i < Span(s, p) :: s[i] == s[1..][i - 1];
    }
  }

  lemma {:induction false} CommentEndIsFirst(s: string, i: nat)
    requires CommentEnd(s).Some? && i < CommentEnd(s).value
    ensures !(s[i] == '*' && s[i + 1] == '/')
  {
    if i > 0 {
      CommentEndIsFirst(s[1..], i - 1);
    }
  }

  lemma ParsedDocIsLegal(s: string)
    requires ParseDoc(s).Some?
    ensures IsDocText(ParseDoc(s).value.0)
  {
    if DOC_OPEN <= s {
      var body := s[|DOC_OPEN|..];
      var n := CommentEnd(body).value;
      var doc := body[..n - 1];
      forall i | 0 <= i < |doc| - 1 ensures !(doc[i] == '*' && doc[i + 1] == '/') {
        CommentEndIsFirst(body, i);
      }
    }
  }

  lemma {:induction false} SuffixesAreLegal(t: Ts, s: string)
    requires Legal(t)
    ensures Legal(Suffixes(t, s).0)
    decreases |s|
  {
    if "[]" <= s {
      SuffixesAreLegal(ArrayOf(t), s[2..]);
    }
  }

  lemma {:induction false} PrimaryIsLegal(s: string)
    requires ParsePrimary(s).Some?
    ensures Legal(ParsePrimary(s).value.0)
    decreases |s|, 0
  {
    if "(" <= s {
      UnionIsLegal(s[1..]);
    } else if "{ " <= s {
      FieldsAreLegal(s[2..]);
    } else if "'" <= s {
      SpanHolds(s[1..], IsQuotedChar);
    } else if RECORD <= s {
      UnionIsLegal(s[|RECORD|..]);
    }
  }

  lemma {:induction false} MembersAreLegal(s: string)
    requires ParseMembers(s).Some?
    ensures forall m | m in ParseMembers(s).value.0 :: Legal(m)
    decreases |s|, 2
  {
    PrimaryIsLegal(s);
    var (t, k) := ParsePrimary(s).value;
    SuffixesAreLegal(t, k);
    var rest := ParsePostfix(s).value.1;
    if BAR <= rest {
      MembersAreLegal(rest[|BAR|..]);
    }
  }

  lemma {:induction false} UnionIsLegal(s: string)
    requires ParseUnion(s).Some?
    ensures Legal(ParseUnion(s).value.0)
    decreases |s|, 3
  {
    MembersAreLegal(s);
  }

  predicate LegalField(f: Field) {
    IsDocText(f.doc) && IsFieldName(f.name) && Legal(f.typ)
  }

  lemma {:induction false} FieldIsLegal(s: string)
    requires ParseField(s).Some?
    ensures LegalField(ParseField(s).value.0)
    decreases |s|, 4
  {
    ParsedDocIsLegal(s);
    var named := ParseDoc(s).value.1;
    var marked := named[Span(named, IsIdentChar)..];
    UnionIsLegal((if "?" <= marked then marked[1..] else marked)[2..]);
  }

  lemma {:induction false} FieldsAreLegal(s: string)
    requires ParseFields(s).Some?
    ensures forall f | f in ParseFields(s).value.0 :: LegalField(f)
    decreases |s|, 5
  {
    FieldIsLegal(s);
    var rest := ParseField(s).value.1;
    if "; " <= rest {
      FieldsAreLegal(rest[2..]);
    }
  }

  /**
   * A tree of the right shape is read back from its text exactly when all its words, literals, property
   * names and comments are legal.
   */
  lemma ReadsBackIff(t: Ts)
    requires Shaped(t)
    ensures Parse(Print(t)) == Some(t) <==> Legal(t)
  {
    CanonicalMeans(t);
    if Legal(t) {
      ParsePrint(t);
    }
    if Parse(Print(t)) == Some(t) {
      UnionIsLegal(Print(t));
    }
  }
}

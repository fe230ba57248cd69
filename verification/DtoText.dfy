/** The text the compiler writes is the text of the tree it means, on every renderable schema. */
module DtoText {
  import opened Wrappers
  import opened Basics
  import opened TsGrammar
  import TsRoundTrip
  import opened Splitter
  import opened DtoCompiler

  // ----- Deduplication -----

  lemma {:induction false} DedupConcat<T>(acc: seq<T>, xs: seq<T>, ys: seq<T>)
    ensures Dedup(acc, xs + ys) == Dedup(Dedup(acc, xs), ys)
    decreases |xs|
  {
    if xs == [] {
      assert xs + ys == ys;
    } else {
      assert (xs + ys)[1..] == xs[1..] + ys;
      DedupConcat(if xs[0] in acc then acc else acc + [xs[0]], xs[1..], ys);
    }
  }

  /** Each value is kept once. */
  lemma {:induction false} DedupKeepsAll<T>(acc: seq<T>, xs: seq<T>)
    requires Distinct(acc)
    ensures Distinct(Dedup(acc, xs)) && acc <= Dedup(acc, xs)
    ensures forall x :: x in Dedup(acc, xs) <==> x in acc || x in xs
    decreases |xs|
  {
    if xs != [] {
      var acc' := if xs[0] in acc then acc else acc + [xs[0]];
      DedupKeepsAll(acc', xs[1..]);
      assert forall x :: x in xs <==> x == xs[0] || x in xs[1..];
    }
  }

  /** Values kept stand in the order of their first occurrences. */
  lemma {:induction false} DedupKeepsOrder<T>(acc: seq<T>, xs: seq<T>, i: nat, j: nat, k: nat)
    requires Distinct(acc)
    requires |acc| <= i < j < |Dedup(acc, xs)|
    requires k < |xs| && xs[k] == Dedup(acc, xs)[j]
    ensures Dedup(acc, xs)[i] in xs[..k]
    decreases |xs|
  {
    var acc' := if xs[0] in acc then acc else acc + [xs[0]];
    var r := Dedup(acc, xs);
    DedupKeepsAll(acc', xs[1..]);
    var m :| 0 <= m < |acc'| && acc'[m] == xs[0];
    assert r[m] == xs[0] && m != j;
    assert xs[..k] == [xs[0]] + xs[1..][..k - 1];
    if i >= |acc'| {
      DedupKeepsOrder(acc', xs[1..], i, j, k - 1);
    }
  }

  lemma {:induction false} DedupFresh<T>(acc: seq<T>, xs: seq<T>)
    requires Distinct(xs) && forall x | x in xs :: x !in acc
    ensures Dedup(acc, xs) == acc + xs
    decreases |xs|
  {
    if xs == [] {
      assert acc + xs == acc;
    } else {
      assert forall x | x in xs[1..] :: x in xs && x != xs[0];
      DedupFresh(acc + [xs[0]], xs[1..]);
      assert acc + [xs[0]] + xs[1..] == acc + xs;
    }
  }

  function Texts(ts: seq<Ts>): (r: seq<string>)
    ensures |r| == |ts| && forall i | 0 <= i < |ts| :: r[i] == Print(ts[i])
  {
    if ts == [] then [] else [Print(ts[0])] + Texts(ts[1..])
  }

  lemma {:induction false} JoinTexts(ts: seq<Ts>)
    ensures Join(Texts(ts)) == PrintMembers(ts)
  {
    if ts != [] {
      assert Texts(ts)[1..] == Texts(ts[1..]);
      JoinTexts(ts[1..]);
    }
  }

  // ----- Unions -----

  lemma {:induction false} MemberPiecesConcat(ts: seq<Ts>, us: seq<Ts>)
    ensures MemberPieces(ts + us) == MemberPieces(ts) + MemberPieces(us)
  {
    if ts == [] {
      assert ts + us == us;
    } else {
      assert (ts + us)[1..] == ts[1..] + us;
      MemberPiecesConcat(ts[1..], us);
    }
  }

  lemma {:induction false} FlatPieces(ts: seq<Ts>)
    requires forall t | t in ts :: Canonical(t) && Flat(t)
    ensures MemberPieces(ts) == Texts(ts)
  {
    if ts != [] {
      assert Canonical(ts[0]);
      JoinPieces(ts[0]);
      FlatPieces(ts[1..]);
    }
  }

  lemma {:induction false} PiecesOfMember(ts: seq<Ts>, t: Ts)
    requires t in ts
    ensures forall p | p in Pieces(t) :: p in MemberPieces(ts)
  {
    if t != ts[0] {
      PiecesOfMember(ts[1..], t);
    }
  }

  lemma {:induction false} DedupSeen<T>(acc: seq<T>, xs: seq<T>)
    requires forall x | x in xs :: x in acc
    ensures Dedup(acc, xs) == acc
    decreases |xs|
  {
    if xs != [] {
      DedupSeen(acc, xs[1..]);
    }
  }

  lemma {:induction false} DedupPieces(acc: seq<Ts>, ts: seq<Ts>)
    requires Distinct(acc) && Distinct(MemberPieces(Dedup(acc, ts)))
    ensures Dedup(MemberPieces(acc), MemberPieces(ts)) == MemberPieces(Dedup(acc, ts))
    decreases |ts|
  {
    if ts != [] {
      var t := ts[0];
      var acc' := if t in acc then acc else acc + [t];
      DedupOne(acc, t, ts[1..]);
      DedupConcat(MemberPieces(acc), Pieces(t), MemberPieces(ts[1..]));
      DedupPieces(acc', ts[1..]);
    }
  }

  lemma DedupOne(acc: seq<Ts>, t: Ts, ts: seq<Ts>)
    requires Distinct(acc)
    requires Distinct(MemberPieces(Dedup(if t in acc then acc else acc + [t], ts)))
    ensures Dedup(MemberPieces(acc), Pieces(t)) == MemberPieces(if t in acc then acc else acc + [t])
  {
    if t in acc {
      PiecesOfMember(acc, t);
      DedupSeen(MemberPieces(acc), Pieces(t));
    } else {
      var acc' := acc + [t];
      DedupKeepsAll(acc', ts);
      DedupNew(acc, t, Dedup(acc', ts));
    }
  }

  lemma DedupNew(acc: seq<Ts>, t: Ts, all: seq<Ts>)
    requires acc + [t] <= all && Distinct(MemberPieces(all))
    ensures Dedup(MemberPieces(acc), Pieces(t)) == MemberPieces(acc + [t])
  {
    var rest := all[|acc| + 1..];
    var p, q, r := MemberPieces(acc), Pieces(t), MemberPieces(rest);
    assert all == (acc + [t]) + rest;
    MemberPiecesConcat(acc + [t], rest);
    MemberPiecesConcat(acc, [t]);
    assert MemberPieces([t]) == q + MemberPieces([]) == q;
    assert MemberPieces(all) == p + q + r;
    DistinctPrefix(p, q, r);
    DedupFresh(p, q);
  }

  lemma DistinctPrefix<T>(p: seq<T>, q: seq<T>, r: seq<T>)
    requires Distinct(p + q + r)
    ensures Distinct(q) && forall x | x in q :: x !in p
  {
    var s := p + q + r;
    assert forall i | 0 <= i < |p| :: p[i] == s[i];
    assert forall i | 0 <= i < |q| :: q[i] == s[|p| + i];
  }

  /** Splitting, deduplicating and joining again writes the union of the distinct members. */
  lemma MergeText(ts: seq<Ts>)
    requires ts != [] && forall t | t in ts :: Canonical(t) && !t.Union?
    ensures Separable(ts) ==> Join(Dedup([], MemberPieces(ts))) == Print(Merge(Dedup([], ts)))
    ensures Join(MemberPieces(Dedup([], ts))) == Print(Merge(Dedup([], ts)))
    ensures Canonical(Merge(Dedup([], ts)))
  {
    var us := Dedup([], ts);
    DedupKeepsAll([], ts);
    assert ts[0] in us;
    assert forall u | u in us :: u in ts;
    JoinMemberPieces(us);
    if Separable(ts) {
      DedupPieces([], ts);
    }
  }

  /** The condition is exact: it is the right text only if no piece belongs to two members. */
  lemma MergePrints(ts: seq<Ts>)
    requires ts != [] && forall t | t in ts :: Sound(t) && !t.Union?
    ensures Join(Dedup([], MemberPieces(ts))) == Print(Merge(Dedup([], ts))) <==> Separable(ts)
  {
    var us, ps := Dedup([], ts), Dedup([], MemberPieces(ts));
    MergeText(ts);
    DedupKeepsAll([], ts);
    assert ts[0] in us;
    assert forall u | u in us :: u in ts;
    if Join(ps) == Join(MemberPieces(us)) {
      MemberPiecesSound(us);
      MemberPiecesSound(ts);
      DedupKeepsAll([], MemberPieces(ts));
      JoinMemberPieces(ts);
      assert MemberPieces(ts)[0] in ps;
      SplitJoin(ps);
      SplitJoin(MemberPieces(us));
    }
  }

  /** Members that the splitter does not cut are separable. */
  lemma FlatIsSeparable(ts: seq<Ts>)
    requires forall t | t in ts :: Canonical(t) && Flat(t)
    ensures Separable(ts)
  {
    var us := Dedup([], ts);
    DedupKeepsAll([], ts);
    assert forall u | u in us :: u in ts;
    FlatPieces(us);
    forall i, j | 0 <= i < j < |us| ensures Print(us[i]) != Print(us[j]) {
      assert us[i] in ts && us[j] in ts;
      if Print(us[i]) == Print(us[j]) {
        TsRoundTrip.PrintInjective(us[i], us[j]);
      }
    }
  }

  lemma {:induction false} UnionLoop(ns: seq<Node>, members: seq<string>)
    requires forall n | n in ns :: RenderableNode(n) && (n.Sub? ==> CutsRight(NodeTree(n)))
    ensures UnionMembers(ns, members) == Ok(Dedup(members, MemberPieces(MemberTrees(ns))))
    ensures forall t | t in MemberTrees(ns) :: Canonical(t) && !t.Union?
    ensures (exists n | n in ns :: n.Sub?) ==> MemberTrees(ns) != []
    decreases ns, 1
  {
    if ns != [] {
      var n, ts := ns[0], MemberTrees(ns[1..]);
      if n.Bare? {
        UnionLoop(ns[1..], members);
        assert MemberTrees(ns) == ts;
      } else {
        NodePrints(n);
        var t := NodeTree(n);
        NullSplits();
        UnionLoop(ns[1..], Dedup(members, Pieces(t)));
        assert MemberPieces(MembersOf(t)) == Pieces(t) by {
          if !t.Union? {
            assert MemberPieces([t]) == Pieces(t) + MemberPieces([]);
          }
        }
        MemberPiecesConcat(MembersOf(t), ts);
        DedupConcat(members, Pieces(t), MemberPieces(ts));
      }
    }
  }

  /** The special case for `null` changes nothing. */
  lemma NullSplits()
    ensures Split("null") == ["null"]
  {
    var p := "null";
    assert BarFree(p) && Trimmed(p);
    BarFreeScans(p, TOP, 1);
    UncutSplit(p);
  }

  // ----- The induction over schemas -----

  lemma LiteralPrints(v: Scalar)
    requires LegalScalar(v)
    ensures Print(LiteralTree(v)) == Literal(v) && Canonical(LiteralTree(v)) && !LiteralTree(v).Union?
    ensures Flat(LiteralTree(v))
  {
    OwnWords();
  }

  lemma LiteralsPrint(vs: seq<Scalar>)
    requires vs != [] && forall v | v in vs :: LegalScalar(v)
    ensures Join(Literals(vs)) == Print(Merge(LiteralTrees(vs))) && Canonical(Merge(LiteralTrees(vs)))
  {
    var ts := LiteralTrees(vs);
    forall i | 0 <= i < |vs| ensures Print(ts[i]) == Literal(vs[i]) && Canonical(ts[i]) && !ts[i].Union? {
      LiteralPrints(vs[i]);
    }
    JoinTexts(ts);
    assert Texts(ts) == Literals(vs);
  }

  /** Deciding on parentheses by the number of parts gives the right text exactly if the splitter counts right. */
  lemma ArrayPrints(t: Ts)
    ensures ListText(Print(t), |Split(Print(t))| > 1) == Print(ArrayOf(t)) <==> CountsRight(t)
  {
    ListTexts(Print(t));
    assert Print(ArrayOf(t)) == ListText(Print(t), !Flat(t));
  }

  lemma ListTexts(p: string)
    ensures ListText(p, true) != ListText(p, false)
  {
    assert |ListText(p, true)| == |p| + 4 && |ListText(p, false)| == |p| + 2;
  }

  /** On a renderable schema the compiler succeeds and writes the text of the tree it means. */
  lemma {:induction false} TsTypePrints(s: Schema)
    requires Renderable(s)
    ensures TsType(s) == Ok(Print(TsTree(s))) && Canonical(TsTree(s))
    decreases s, 0
  {
    OwnWords();
    if s.ref.Some? {
    } else if s.anyOf.AnyOf? {
      var ns := s.anyOf.nodes;
      UnionLoop(ns, []);
      MergeText(MemberTrees(ns));
    } else if s.constant.Some? {
      LiteralPrints(s.constant.value);
    } else if s.choices.Some? {
      LiteralsPrint(s.choices.value);
    } else if Primitive(s.typ).Some? {
    } else if s.typ == Named("array") {
      NodePrints(s.items.value);
      ArrayPrints(NodeTree(s.items.value));
    } else if s.typ == Named("object") {
      if s.properties != [] {
        FieldsPrint(s.properties, s.required);
      } else if s.additional.Some? && s.additional.value.Sub? {
        NodePrints(s.additional.value);
      }
    }
  }

  lemma {:induction false} NodePrints(n: Node)
    requires RenderableNode(n)
    ensures NodeType(n) == Ok(Print(NodeTree(n))) && Canonical(NodeTree(n))
    decreases n, 0
  {
    OwnWords();
    if n.Sub? {
      TsTypePrints(n.schema);
    }
  }

  lemma {:induction false} FieldsPrint(ps: seq<Property>, required: seq<string>)
    requires forall p | p in ps :: RenderableNode(p.node)
    ensures FieldLines(ps, required) == Ok(PrintFields(FieldTrees(ps, required)))
    ensures forall i | 0 <= i < |ps| ::
              var f := FieldTrees(ps, required)[i];
              f.name == ps[i].name && f.doc == DocOf(ps[i].node) && Canonical(f.typ)
    decreases ps, 0
  {
    if ps != [] {
      var p := ps[0];
      NodePrints(p.node);
      FieldsPrint(ps[1..], required);
      var f := FieldTrees(ps, required)[0];
      var mark := if p.name in required then "" else "?";
      assert PrintField(f) == DocLine(p.node) + p.name + mark + ": " + NodeType(p.node).value;
      assert FieldTrees(ps, required)[1..] == FieldTrees(ps[1..], required);
    }
  }

  /** A list is written right exactly if the splitter counts the parts of its items right. */
  lemma ListPrintsIff(s: Schema)
    requires s.ref.None? && s.anyOf.NoAnyOf? && s.constant.None? && s.choices.None? && s.typ == Named("array")
    requires s.items.Some? && RenderableNode(s.items.value)
    ensures TsType(s) == Ok(Print(TsTree(s))) <==> CountsRight(NodeTree(s.items.value))
  {
    var t := NodeTree(s.items.value);
    NodePrints(s.items.value);
    ArrayPrints(t);
    ListType(s, Print(t));
  }

  lemma ListType(s: Schema, items: string)
    requires s.ref.None? && s.anyOf.NoAnyOf? && s.constant.None? && s.choices.None? && s.typ == Named("array")
    requires s.items.Some? && NodeType(s.items.value) == Ok(items)
    ensures TsType(s) == Ok(ListText(items, |Split(items)| > 1)) && TsTree(s) == ArrayOf(NodeTree(s.items.value))
  {
    assert Primitive(s.typ) == None && !IsInherited(s.typ);
  }

  // ----- A schema without harmful text is renderable -----

  lemma ChoicesQuiet(vs: seq<Scalar>)
    requires forall v | v in vs :: HarmlessScalar(v, true)
    ensures Quiet(Merge(LiteralTrees(vs)))
  {
    forall t | t in LiteralTrees(vs) ensures Quiet(t) {
      var i :| 0 <= i < |vs| && LiteralTrees(vs)[i] == t;
      assert HarmlessScalar(vs[i], true);
    }
  }

  lemma {:induction false} MembersQuiet(ns: seq<Node>)
    requires forall n | n in ns :: n.Sub? ==> Quiet(NodeTree(n))
    ensures forall t | t in MemberTrees(ns) :: Quiet(t)
    decreases |ns|
  {
    if ns != [] {
      MembersQuiet(ns[1..]);
    }
  }

  lemma {:induction false} FieldsQuiet(ps: seq<Property>, required: seq<string>)
    requires forall p | p in ps :: Stays(DocOf(p.node), 0) && Quiet(NodeTree(p.node))
    ensures Quiet(Shape(FieldTrees(ps, required)))
    decreases |ps|
  {
    if ps != [] {
      FieldsQuiet(ps[1..], required);
      assert FieldTrees(ps, required)[1..] == FieldTrees(ps[1..], required);
    }
  }

  lemma MergeQuiet(ts: seq<Ts>)
    requires forall t | t in ts :: Quiet(t)
    ensures Quiet(Merge(Dedup([], ts)))
  {
    DedupKeepsAll([], ts);
  }

  /** What the splitter reads at an alternative or an item it reads right. */
  lemma ReadsRight(n: Node)
    requires RenderableNode(n) && (Quiet(NodeTree(n)) || BarFree(Print(NodeTree(n))))
    ensures CutsRight(NodeTree(n)) && CountsRight(NodeTree(n))
  {
    var t := NodeTree(n);
    NodePrints(n);
    if Quiet(t) {
      SplitPrint(t);
    } else {
      if t.Union? {
        UnionHasBar(t);
      }
      BarFreeCutsRight(t);
      JoinPieces(t);
    }
  }

  lemma {:induction false} HarmlessIsRenderable(s: Schema, read: bool)
    requires Harmless(s, read)
    ensures Renderable(s) && (read ==> Quiet(TsTree(s)))
    decreases s, 0
  {
    if s.ref.Some? {
    } else if s.anyOf.AnyOf? {
      var ns := s.anyOf.nodes;
      forall n | n in ns
        ensures RenderableNode(n) && (n.Sub? ==> CutsRight(NodeTree(n)) && (read ==> Quiet(NodeTree(n))))
      {
        ReadNode(n);
        if read {
          HarmlessNodeIsRenderable(n, true);
        }
      }
      if read {
        MembersQuiet(ns);
        MergeQuiet(MemberTrees(ns));
      }
    } else if s.constant.Some? {
    } else if s.choices.Some? {
      if read {
        ChoicesQuiet(s.choices.value);
      }
    } else if Primitive(s.typ).Some? {
    } else if s.typ == Named("array") {
      ReadNode(s.items.value);
      if read {
        HarmlessNodeIsRenderable(s.items.value, true);
      }
    } else if s.typ == Named("object") {
      if s.properties != [] {
        forall p | p in s.properties ensures RenderableNode(p.node) && (read ==> Quiet(NodeTree(p.node))) {
          HarmlessNodeIsRenderable(p.node, read);
        }
        if read {
          FieldsQuiet(s.properties, s.required);
        }
      } else if s.additional.Some? {
        HarmlessNodeIsRenderable(s.additional.value, read);
      }
    }
  }

  lemma {:induction false} HarmlessNodeIsRenderable(n: Node, read: bool)
    requires HarmlessNode(n, read)
    ensures RenderableNode(n) && (read ==> Quiet(NodeTree(n)))
    decreases n, 0
  {
    if n.Sub? {
      HarmlessIsRenderable(n.schema, read);
    }
  }

  lemma {:induction false} ReadNode(n: Node)
    requires HarmlessNode(n, true) || (HarmlessNode(n, false) && NodeHasNoBar(n))
    ensures RenderableNode(n) && CutsRight(NodeTree(n)) && CountsRight(NodeTree(n))
    decreases n, 1
  {
    if HarmlessNode(n, true) {
      HarmlessNodeIsRenderable(n, true);
    } else {
      HarmlessNodeIsRenderable(n, false);
      NodeShowsNoBar(n);
    }
    ReadsRight(n);
  }

  lemma {:induction false} ShowsNoBar(s: Schema)
    requires Renderable(s) && HasNoBar(s)
    ensures BarFree(Print(TsTree(s)))
    decreases s, 0
  {
    TsTypePrints(s);
    if s.ref.Some? {
    } else if s.constant.Some? {
      LiteralPrints(s.constant.value);
    } else if s.choices.Some? {
      LiteralPrints(s.choices.value[0]);
    } else if s.typ == Named("array") {
      NodeShowsNoBar(s.items.value);
      ListHasNoBar(NodeTree(s.items.value));
    } else if s.typ == Named("object") {
      if s.properties != [] {
        FieldsShowNoBar(s.properties, s.required);
      } else if s.additional.Some? && s.additional.value.Sub? {
        NodeShowsNoBar(s.additional.value);
        MapHasNoBar(NodeTree(s.additional.value));
      }
    }
  }

  lemma {:induction false} NodeShowsNoBar(n: Node)
    requires RenderableNode(n) && NodeHasNoBar(n)
    ensures BarFree(Print(NodeTree(n)))
    decreases n, 0
  {
    if n.Sub? {
      ShowsNoBar(n.schema);
    }
  }

  lemma ListHasNoBar(t: Ts)
    requires BarFree(Print(t))
    ensures BarFree(Print(ArrayOf(t)))
  {
  }

  lemma MapHasNoBar(t: Ts)
    requires BarFree(Print(t))
    ensures BarFree(Print(RecordOf(t)))
  {
  }

  lemma {:induction false} FieldsShowNoBar(ps: seq<Property>, required: seq<string>)
    requires forall p | p in ps :: IsFieldName(p.name) && RenderableNode(p.node)
    requires forall p | p in ps :: BarFree(DocOf(p.node)) && NodeHasNoBar(p.node)
    ensures BarFree(PrintFields(FieldTrees(ps, required)))
    decreases ps, 0
  {
    if ps != [] {
      var fs := FieldTrees(ps, required);
      NodeShowsNoBar(ps[0].node);
      FieldsShowNoBar(ps[1..], required);
      assert fs[1..] == FieldTrees(ps[1..], required);
      FieldHasNoBar(fs[0]);
    }
  }

  lemma FieldHasNoBar(f: Field)
    requires IsFieldName(f.name) && BarFree(f.doc) && BarFree(Print(f.typ))
    ensures BarFree(PrintField(f))
  {
    assert BarFree(PrintDoc(f.doc)) && BarFree(f.name);
  }
}

/**
 * The lint rule that allows at most so many component or hook definitions in one `.tsx` file, and none
 * inside another function. The syntax tree is a sequence of nodes, each behind its parent; a node's
 * number is the place where it starts.
 */
module ComponentRule {
  import opened Wrappers

  datatype Kind = FunctionDeclaration | FunctionExpression | Arrow | VariableDeclarator | Property | Other

  /**
   * `id` is a function's own name, the identifier a variable declarator binds, or the identifier key of a
   * property, where there is one. `init` is what a declarator is initialised with.
   */
  datatype Node = Node(kind: Kind, id: Option<string>, parent: Option<nat>, init: Option<nat>)

  type Tree = seq<Node>

  datatype Report =
    | Nested(name: string, outer: string)
    | Exceed(name: string, index: nat, previous: Option<string>)

  const ANONYMOUS := "(anonymous)"

  predicate WellFormed(tree: Tree) {
    forall n | 0 <= n < |tree| ::
      (tree[n].parent.Some? ==> tree[n].parent.value < n)
      && (tree[n].init.Some? ==> n < tree[n].init.value < |tree|)
  }

  predicate FunctionLike(kind: Kind) {
    kind in {FunctionDeclaration, FunctionExpression, Arrow}
  }

  predicate IsUpper(c: char) { 'A' <= c <= 'Z' }

  /** `useX…` is a hook, `X…` a component. */
  predicate ComponentName(name: string) {
    (|name| > 3 && name[..3] == "use" && IsUpper(name[3])) || (name != "" && IsUpper(name[0]))
  }

  /** One capital letter of ASCII, at the start or behind `use`. */
  lemma ComponentNameIs(name: string)
    ensures ComponentName(name) <==>
            exists c: char, rest: string | 65 <= c as int <= 90 :: name == [c] + rest || name == "use" + [c] + rest
  {
    assert 'A' as int == 65 && 'Z' as int == 90;
    if name != "" && IsUpper(name[0]) {
      assert name == [name[0]] + name[1..];
    } else if ComponentName(name) {
      assert name == "use" + [name[3]] + name[4..];
    }
    if c: char, rest: string :| 65 <= c as int <= 90 && name == "use" + [c] + rest {
      assert name[..3] == "use" && name[3] == c;
    }
  }

  /** An integer of at least one is taken, anything else means one. */
  function Max(option: Option<int>): (max: nat)
    ensures max >= 1
    ensures option == Some(max) || (max == 1 && forall k | option == Some(k) :: k < 1)
  {
    if option.Some? && option.value >= 1 then option.value else 1
  }

  // ----- The enclosing function -----

  /** The nearest function strictly above a node. */
  function Enclosing(tree: Tree, n: nat): (outer: Option<nat>)
    requires WellFormed(tree) && n < |tree|
    ensures outer.Some? ==> outer.value < n && FunctionLike(tree[outer.value].kind)
    decreases n
  {
    if tree[n].parent.None? then None
    else
      var p := tree[n].parent.value;
      if FunctionLike(tree[p].kind) then Some(p) else Enclosing(tree, p)
  }

  /** An ancestor of a node: its parent, or an ancestor of that. */
  predicate Above(tree: Tree, a: nat, n: nat)
    requires WellFormed(tree) && n < |tree|
    decreases n
  {
    tree[n].parent.Some? && (a == tree[n].parent.value || Above(tree, a, tree[n].parent.value))
  }

  /** The enclosing function is the nearest of the functions above, and there is none exactly at module level. */
  lemma {:induction false} EnclosingIsNearest(tree: Tree, n: nat)
    requires WellFormed(tree) && n < |tree|
    ensures Enclosing(tree, n).None? <==> forall a: nat | a < |tree| && Above(tree, a, n) :: !FunctionLike(tree[a].kind)
    ensures Enclosing(tree, n).Some? ==> Above(tree, Enclosing(tree, n).value, n)
    ensures Enclosing(tree, n).Some? ==>
      forall a: nat | a < |tree| && Above(tree, a, n) && FunctionLike(tree[a].kind) :: a <= Enclosing(tree, n).value
    decreases n
  {
    if tree[n].parent.Some? {
      var p := tree[n].parent.value;
      EnclosingIsNearest(tree, p);
      AboveIsBefore(tree, p);
    }
  }

  lemma {:induction false} AboveIsBefore(tree: Tree, n: nat)
    requires WellFormed(tree) && n < |tree|
    ensures forall a: nat | Above(tree, a, n) :: a < n
    decreases n
  {
    if tree[n].parent.Some? {
      AboveIsBefore(tree, tree[n].parent.value);
    }
  }

  /** What an enclosing function is called in a report. */
  function DisplayName(tree: Tree, f: nat): string
    requires WellFormed(tree) && f < |tree|
  {
    if tree[f].kind != Arrow && tree[f].id.Some? then tree[f].id.value
    else if tree[f].parent.Some? then
      var owner := tree[tree[f].parent.value];
      if owner.kind in {VariableDeclarator, Property} && owner.id.Some? then owner.id.value else ANONYMOUS
    else ANONYMOUS
  }

  /** The function's own name unless it is an arrow, then that of the variable or property it is given to. */
  lemma DisplayNameIs(tree: Tree, f: nat, name: string)
    requires WellFormed(tree) && f < |tree|
    ensures DisplayName(tree, f) == name <==>
            if tree[f].kind != Arrow && tree[f].id != None then tree[f].id == Some(name)
            else if exists p: nat, key | p < |tree| && tree[f].parent == Some(p) ::
                tree[p].kind in {VariableDeclarator, Property} && tree[p].id == Some(key)
            then tree[tree[f].parent.value].id == Some(name)
            else name == "(anonymous)"
  {
  }

  method EnclosingFunctionName(tree: Tree, f: nat) returns (name: Option<string>)
    requires WellFormed(tree) && f < |tree|
    ensures name.Some? <==> Enclosing(tree, f).Some?
    ensures name.Some? ==> name.value == DisplayName(tree, Enclosing(tree, f).value)
  {
    var current: Option<nat> := tree[f].parent;
    while current.Some? && !FunctionLike(tree[current.value].kind)
      invariant current.Some? ==> current.value < |tree|
      invariant Enclosing(tree, f) ==
        if current.None? then None
        else if FunctionLike(tree[current.value].kind) then current
        else Enclosing(tree, current.value)
      decreases if current.Some? then current.value + 1 else 0
    {
      current := tree[current.value].parent;
    }
    if current.None? {
      return None;
    }
    return Some(DisplayName(tree, current.value));
  }

  // ----- Which functions are definitions -----

  /** What visiting a node collects: a name and the function it names. */
  function Visited(tree: Tree, n: nat): (r: Option<(string, nat)>)
    requires WellFormed(tree) && n < |tree|
    ensures r.Some? ==> r.value.1 < |tree|
  {
    var node := tree[n];
    if node.id.None? || !ComponentName(node.id.value) then None
    else if node.kind in {FunctionDeclaration, FunctionExpression} then Some((node.id.value, n))
    else if node.kind == VariableDeclarator && node.init.Some? && FunctionLike(tree[node.init.value].kind) then
      Some((node.id.value, node.init.value))
    else None
  }

  /** The functions that some visited node names as a component or hook. */
  function Definitions(tree: Tree, order: seq<nat>): set<nat>
    requires WellFormed(tree) && forall n <- order :: n < |tree|
  {
    set n <- order | Visited(tree, n).Some? :: Visited(tree, n).value.1
  }

  /**
   * A function is one of them exactly if a visited node names it so: itself, by its own name, or the
   * variable it initialises, by the variable's.
   */
  lemma DefinitionIff(tree: Tree, order: seq<nat>, f: nat)
    requires WellFormed(tree) && (forall n <- order :: n < |tree|) && f < |tree|
    ensures f in Definitions(tree, order) <==>
            FunctionLike(tree[f].kind) && exists n <- order, name ::
              && tree[n].id == Some(name) && ComponentName(name)
              && if tree[n].kind == VariableDeclarator then tree[n].init == Some(f) else n == f && tree[f].kind != Arrow
  {
    if f in Definitions(tree, order) {
      var n :| n in order && Visited(tree, n).Some? && Visited(tree, n).value.1 == f;
      assert tree[n].id == Some(tree[n].id.value);
    }
    if n, name :| n in order && tree[n].id == Some(name) && ComponentName(name) && FunctionLike(tree[f].kind)
                  && if tree[n].kind == VariableDeclarator then tree[n].init == Some(f)
                     else n == f && tree[f].kind != Arrow {
      assert Visited(tree, n) == Some((name, f));
    }
  }

  /** At most `max` definitions, and none inside a function. */
  predicate Clean(tree: Tree, order: seq<nat>, max: nat)
    requires WellFormed(tree) && forall n <- order :: n < |tree|
  {
    |Definitions(tree, order)| <= max
    && forall f <- Definitions(tree, order) :: f < |tree| && Enclosing(tree, f).None?
  }

  /** The definitions that stand inside a function. */
  function NestedDefinitions(tree: Tree, order: seq<nat>): set<nat>
    requires WellFormed(tree) && forall n <- order :: n < |tree|
  {
    set f <- Definitions(tree, order) | f < |tree| && Enclosing(tree, f).Some?
  }

  function NestedReports(reports: seq<Report>): nat {
    if reports == [] then 0
    else
      var k := |reports| - 1;
      NestedReports(reports[..k]) + if reports[k].Nested? then 1 else 0
  }

  /** The reports on one file, for the nodes in the order they are visited. */
  class Rule {
    const tree: Tree
    const max: nat
    var seen: set<nat>
    var count: nat
    var previous: Option<string>
    var reports: seq<Report>

    predicate Valid(order: seq<nat>)
      requires WellFormed(tree) && forall n <- order :: n < |tree|
      reads this
    {
      seen == Definitions(tree, order) && count == |seen|
      && (reports == [] <==> Clean(tree, order, max))
      && NestedReports(reports) == |NestedDefinitions(tree, order)|
    }

    constructor (tree: Tree, max: nat)
      requires WellFormed(tree)
      ensures this.tree == tree && this.max == max && Valid([])
    {
      this.tree, this.max := tree, max;
      seen, count, previous, reports := {}, 0, None, [];
    }

    method AddReport(r: Report)
      modifies `reports
      ensures reports == old(reports) + [r]
      ensures NestedReports(reports) == NestedReports(old(reports)) + if r.Nested? then 1 else 0
    {
      assert (reports + [r])[..|reports|] == reports;
      reports := reports + [r];
    }

    /** Count a function once; report it if it is nested, or else if it is one too many. */
    method Collect(name: string, f: nat)
      requires WellFormed(tree) && f < |tree| && count == |seen|
      modifies this
      ensures seen == old(seen) + {f} && count == |seen|
      ensures f in old(seen) ==> previous == old(previous) && reports == old(reports)
      ensures f !in old(seen) && Enclosing(tree, f).Some? ==>
        previous == old(previous)
        && reports == old(reports) + [Nested(name, DisplayName(tree, Enclosing(tree, f).value))]
      ensures f !in old(seen) && Enclosing(tree, f).None? ==>
        previous == Some(name)
        && reports == old(reports) + if count > max then [Exceed(name, count, old(previous))] else []
      ensures NestedReports(reports)
           == NestedReports(old(reports)) + if f !in old(seen) && Enclosing(tree, f).Some? then 1 else 0
    {
      if f in seen {
        assert seen + {f} == seen;
        return;
      }
      seen := seen + {f};
      count := count + 1;
      var outer := EnclosingFunctionName(tree, f);
      if outer.Some? {
        AddReport(Nested(name, outer.value));
        return;
      }
      if count > max {
        AddReport(Exceed(name, count, previous));
      }
      previous := Some(name);
    }

    method Visit(n: nat, ghost before: seq<nat>)
      requires WellFormed(tree) && n < |tree| && forall m <- before :: m < |tree|
      requires Valid(before)
      modifies this
      ensures Valid(before + [n])
    {
      var found := Visited(tree, n);
      DefinitionsSnoc(tree, before, n);
      if found.Some? {
        CleanSnoc(tree, before, n, max);
        NestedSnoc(tree, before, n);
        Collect(found.value.0, found.value.1);
      } else {
        assert Definitions(tree, before + [n]) == Definitions(tree, before);
        assert NestedDefinitions(tree, before + [n]) == NestedDefinitions(tree, before);
      }
    }
  }

  lemma DefinitionsSnoc(tree: Tree, order: seq<nat>, n: nat)
    requires WellFormed(tree) && n < |tree| && forall m <- order :: m < |tree|
    ensures forall m <- order + [n] :: m < |tree|
    ensures Definitions(tree, order + [n])
         == Definitions(tree, order) + if Visited(tree, n).Some? then {Visited(tree, n).value.1} else {}
  {
    var all := order + [n];
    forall f | f in Definitions(tree, order) ensures f in Definitions(tree, all) {
      var m :| m in order && Visited(tree, m).Some? && Visited(tree, m).value.1 == f;
      assert m in all;
    }
    assert n in all;
  }

  lemma CleanSnoc(tree: Tree, order: seq<nat>, n: nat, max: nat)
    requires WellFormed(tree) && n < |tree| && forall m <- order :: m < |tree|
    requires Visited(tree, n).Some?
    requires forall m <- order + [n] :: m < |tree|
    ensures var f, known := Visited(tree, n).value.1, Definitions(tree, order);
            Clean(tree, order + [n], max) <==>
              Clean(tree, order, max) && (f in known || (|known| < max && Enclosing(tree, f).None?))
  {
    DefinitionsSnoc(tree, order, n);
    var f, known := Visited(tree, n).value.1, Definitions(tree, order);
    if f in known {
      assert known + {f} == known;
    } else {
      assert |known + {f}| == |known| + 1;
    }
  }

  lemma NestedSnoc(tree: Tree, order: seq<nat>, n: nat)
    requires WellFormed(tree) && n < |tree| && forall m <- order :: m < |tree|
    requires Visited(tree, n).Some?
    requires forall m <- order + [n] :: m < |tree|
    ensures var f, known := Visited(tree, n).value.1, Definitions(tree, order);
            |NestedDefinitions(tree, order + [n])|
            == |NestedDefinitions(tree, order)| + if f !in known && Enclosing(tree, f).Some? then 1 else 0
  {
    DefinitionsSnoc(tree, order, n);
    var f, before := Visited(tree, n).value.1, NestedDefinitions(tree, order);
    if f !in Definitions(tree, order) && Enclosing(tree, f).Some? {
      assert NestedDefinitions(tree, order + [n]) == before + {f};
    } else {
      assert NestedDefinitions(tree, order + [n]) == before;
    }
  }

  /**
   * No report exactly on a clean file, and one report for each nested definition, in any order of visits
   * and however often a function is reached; a file of another kind is never looked at.
   */
  method Check(filename: string, option: Option<int>, tree: Tree, order: seq<nat>) returns (reports: seq<Report>)
    requires WellFormed(tree) && forall n <- order :: n < |tree|
    ensures reports == [] <==>
      !(|filename| >= 4 && filename[|filename| - 4..] == ".tsx") || Clean(tree, order, Max(option))
    ensures NestedReports(reports)
         == if |filename| >= 4 && filename[|filename| - 4..] == ".tsx" then |NestedDefinitions(tree, order)| else 0
  {
    if !(|filename| >= 4 && filename[|filename| - 4..] == ".tsx") {
      return [];
    }
    var rule := new Rule(tree, Max(option));
    for k := 0 to |order|
      invariant forall n <- order[..k] :: n < |rule.tree|
      invariant rule.tree == tree && rule.max == Max(option)
      invariant rule.Valid(order[..k])
    {
      assert order[k] in order && order[..k] + [order[k]] == order[..k + 1];
      rule.Visit(order[k], order[..k]);
    }
    assert order[..|order|] == order;
    return rule.reports;
  }
}

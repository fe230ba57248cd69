/**
 * Model-mapping rows hold a reference to an array of channel bindings. The transaction stand-in
 * copies rows shallowly, so a rolled-back body that pushed to the array in place leaves its pushes.
 */
module MappingBindings {
  datatype Binding = Binding(channel: int, upstream: string)

  datatype Op =
    | Ensure(id: int, channel: int, upstream: string)   // pushes in place unless bound
    | Replace(id: int, bindings: seq<Binding>)          // assigns a new array

  predicate Bound(items: seq<Binding>, channel: int) {
    exists b :: b in items && b.channel == channel
  }

  class BindingArray {
    var items: seq<Binding>

    constructor (items: seq<Binding>)
      ensures this.items == items
    {
      this.items := items;
    }
  }

  class MappingRow {
    const id: int
    var bindings: BindingArray

    constructor (id: int, bindings: BindingArray)
      ensures this.id == id && this.bindings == bindings
    {
      this.id, this.bindings := id, bindings;
    }
  }

  // ----- What a body does to one row, and what of it a rollback leaves -----

  function Pushed(items: seq<Binding>, op: Op): seq<Binding>
    requires op.Ensure?
  {
    if Bound(items, op.channel) then items else items + [Binding(op.channel, op.upstream)]
  }

  /** The bindings of the row with this id after the operations. */
  function After(items: seq<Binding>, ops: seq<Op>, id: int): seq<Binding>
    decreases |ops|
  {
    if ops == [] then items
    else if ops[0].id != id then After(items, ops[1..], id)
    else if ops[0].Ensure? then After(Pushed(items, ops[0]), ops[1..], id)
    else After(ops[0].bindings, ops[1..], id)
  }

  /** The contents of the array that the row started with: pushes reach it until the row gets a new one. */
  function Leaked(items: seq<Binding>, ops: seq<Op>, id: int): seq<Binding>
    decreases |ops|
  {
    if ops == [] then items
    else if ops[0].id != id then Leaked(items, ops[1..], id)
    else if ops[0].Ensure? then Leaked(Pushed(items, ops[0]), ops[1..], id)
    else items
  }

  lemma {:induction false} LeakedGrows(items: seq<Binding>, ops: seq<Op>, id: int)
    ensures items <= Leaked(items, ops, id)
    decreases |ops|
  {
    if ops != [] {
      if ops[0].id != id {
        LeakedGrows(items, ops[1..], id);
      } else if ops[0].Ensure? {
        LeakedGrows(Pushed(items, ops[0]), ops[1..], id);
      }
    }
  }

  /** The operations act in turn: each on what the ones before leave. */
  lemma {:induction false} AfterInTurn(items: seq<Binding>, op: Op, a: seq<Op>, b: seq<Op>, id: int)
    ensures After(items, [], id) == items
    ensures After(items, [op], id) ==
            if op.id != id then items
            else if op.Replace? then op.bindings
            else if exists b | b in items :: b.channel == op.channel then items
            else items + [Binding(op.channel, op.upstream)]
    ensures After(items, a + b, id) == After(After(items, a, id), b, id)
    decreases |a|
  {
    assert [op][1..] == [];
    if a == [] {
      assert a + b == b;
    } else {
      assert (a + b)[1..] == a[1..] + b;
      var next :=
        if a[0].id != id then items
        else if a[0].Ensure? then Pushed(items, a[0])
        else a[0].bindings;
      AfterInTurn(next, op, a[1..], b, id);
    }
  }

  /** The first k operations do not give the row a new array. */
  predicate KeepsArray(ops: seq<Op>, k: nat, id: int)
    requires k <= |ops|
  {
    forall j | 0 <= j < k :: !(ops[j].Replace? && ops[j].id == id)
  }

  /** What leaks is what the row has before the operation that gives it a new array, or at the end if none does. */
  lemma {:induction false} LeakedIs(items: seq<Binding>, ops: seq<Op>, k: nat, id: int)
    requires k <= |ops| && KeepsArray(ops, k, id)
    requires k < |ops| ==> !KeepsArray(ops, k + 1, id)
    ensures Leaked(items, ops, id) == After(items, ops[..k], id)
    decreases |ops|
  {
    if k > 0 {
      assert ops[..k][1..] == ops[1..][..k - 1];
      assert KeepsArray(ops[1..], k - 1, id);
      assert k < |ops| ==> ops[1..][k - 1] == ops[k];
      LeakedIs(if ops[0].id == id then Pushed(items, ops[0]) else items, ops[1..], k - 1, id);
    }
  }

  /** Operation k pushes to the row's first array a channel that the row did not have at the start. */
  predicate LeaksAt(items: seq<Binding>, ops: seq<Op>, k: nat, id: int) {
    k < |ops| && ops[k].Ensure? && ops[k].id == id && !Bound(items, ops[k].channel) && KeepsArray(ops, k, id)
  }

  lemma LeaksLater(items: seq<Binding>, ops: seq<Op>, k: nat, id: int)
    requires ops != []
    ensures LeaksAt(items, ops, k + 1, id) <==> KeepsArray(ops, 1, id) && LeaksAt(items, ops[1..], k, id)
  {
    var rest := ops[1..];
    assert forall j | 0 < j < |ops| :: ops[j] == rest[j - 1];
    assert forall j | 0 <= j < |rest| :: rest[j] == ops[j + 1];
  }

  /**
   * A rollback restores a row's bindings exactly when, before a replacement, nothing was pushed that the
   * row did not have.
   */
  lemma {:induction false} RollbackRestoresIff(items: seq<Binding>, ops: seq<Op>, id: int)
    ensures Leaked(items, ops, id) == items <==> forall k :: !LeaksAt(items, ops, k, id)
    decreases |ops|
  {
    if ops != [] {
      var rest := ops[1..];
      if ops[0].id != id || ops[0].Ensure? {
        RollbackRestoresIff(items, rest, id);
        LeakedGrows(if ops[0].id == id then Pushed(items, ops[0]) else items, rest, id);
        assert LeaksAt(items, ops, 0, id) <==> ops[0].id == id && !Bound(items, ops[0].channel);
        if k: nat :| LeaksAt(items, rest, k, id) {
          LeaksLater(items, ops, k, id);
        }
      }
      if k: nat :| LeaksAt(items, ops, k, id) && k > 0 {
        LeaksLater(items, ops, k - 1, id);
      }
    }
  }

  // ----- The store -----

  /** No two rows are one object, have one id or share an array. */
  ghost predicate Apart(rows: seq<MappingRow>)
    reads rows
  {
    forall i, j | 0 <= i < j < |rows| ::
      rows[i] != rows[j] && rows[i].id != rows[j].id && rows[i].bindings != rows[j].bindings
  }

  /** The seed has the row, and none with its id after it. */
  ghost predicate StandsLast(seed: seq<(int, seq<Binding>)>, id: int, items: seq<Binding>) {
    exists i | 0 <= i < |seed| :: seed[i] == (id, items) && forall j | i < j < |seed| :: seed[j].0 != id
  }

  ghost predicate HasRow(rows: seq<MappingRow>, id: int) {
    exists r | r in rows :: r.id == id
  }

  lemma StandsLastStill(seed: seq<(int, seq<Binding>)>, id: int, items: seq<Binding>, more: (int, seq<Binding>))
    requires StandsLast(seed, id, items) && more.0 != id
    ensures StandsLast(seed + [more], id, items)
  {
    var i :| 0 <= i < |seed| && seed[i] == (id, items) && forall j | i < j < |seed| :: seed[j].0 != id;
    assert (seed + [more])[i] == (id, items);
  }

  class Store {
    var rows: seq<MappingRow>

    ghost predicate Valid()
      reads this, rows
    {
      Apart(rows)
    }

    /** Every row gets an array of its own; a repeated id replaces the earlier row in its place. */
    constructor (seed: seq<(int, seq<Binding>)>)
      ensures Valid() && forall r | r in rows :: fresh(r) && fresh(r.bindings)
      ensures forall r | r in rows :: StandsLast(seed, r.id, r.bindings.items)
      ensures forall s | s in seed :: HasRow(rows, s.0)
    {
      rows := [];
      new;
      for k := 0 to |seed|
        invariant Valid() && forall r | r in rows :: fresh(r) && fresh(r.bindings)
        invariant forall r | r in rows :: StandsLast(seed[..k], r.id, r.bindings.items)
        invariant forall i | 0 <= i < k :: HasRow(rows, seed[i].0)
      {
        var row := SetRow(seed[k].0, seed[k].1);
        assert seed[..k] + [seed[k]] == seed[..k + 1];
        assert StandsLast(seed[..k + 1], row.id, row.bindings.items) by {
          assert seed[..k + 1][k] == seed[k];
        }
        forall r | r in rows && r != row ensures StandsLast(seed[..k + 1], r.id, r.bindings.items) {
          StandsLastStill(seed[..k], r.id, r.bindings.items, seed[k]);
        }
      }
      assert seed[..|seed|] == seed;
    }

    /** Map.set: a new row object, in the place of the row with its id if there is one. */
    method SetRow(id: int, items: seq<Binding>) returns (row: MappingRow)
      requires Valid()
      modifies this
      ensures Valid() && fresh(row) && fresh(row.bindings) && row.id == id && row.bindings.items == items
      ensures row in rows && forall r | r in rows && r != row :: r in old(rows) && r.id != id
      ensures forall r | r in old(rows) && r.id != id :: r in rows
    {
      var i := 0;
      while i < |rows| && rows[i].id != id
        invariant i <= |rows| && forall j | 0 <= j < i :: rows[j].id != id
      {
        i := i + 1;
      }
      var bindings := new BindingArray(items);
      row := new MappingRow(id, bindings);
      ghost var was := rows;
      rows := if i < |rows| then rows[i := row] else rows + [row];
      assert rows[i] == row && forall j | 0 <= j < |was| && j != i :: rows[j] == was[j];
    }

    ghost function Arrays(): set<BindingArray>
      reads this, rows
    {
      set r | r in rows :: r.bindings
    }

    method Perform(op: Op)
      requires Valid()
      modifies rows, Arrays()
      ensures Valid() && fresh(Arrays() - old(Arrays()))
      ensures forall r | r in rows ::
                if r.id != op.id then r.bindings == old(r.bindings) && r.bindings.items == old(r.bindings.items)
                else if op.Ensure? then
                  && r.bindings == old(r.bindings)
                  && r.bindings.items == Pushed(old(r.bindings.items), op)
                  && r.bindings.items == old(r.bindings.items)
                     + if exists b | b in old(r.bindings.items) :: b.channel == op.channel then []
                       else [Binding(op.channel, op.upstream)]
                else fresh(r.bindings) && r.bindings.items == op.bindings
      ensures op.Replace? ==> forall a | a in old(Arrays()) :: a.items == old(a.items)
    {
      var i := 0;
      while i < |rows| && rows[i].id != op.id
        invariant i <= |rows| && forall j | 0 <= j < i :: rows[j].id != op.id
      {
        i := i + 1;
      }
      if i < |rows| {
        ghost var target := rows[i];
        assert forall j | 0 <= j < |rows| && j != i ::
            rows[j] != target && rows[j].id != target.id && rows[j].bindings != target.bindings;
        match op {
          case Ensure(_, channel, upstream) =>
            if !Bound(rows[i].bindings.items, channel) {
              rows[i].bindings.items := rows[i].bindings.items + [Binding(channel, upstream)];
            }
          case Replace(_, bindings) =>
            rows[i].bindings := new BindingArray(bindings);
        }
      }
    }

    /** Runs the operations; r is any row, and `start` the array it starts with. */
    method Run(ops: seq<Op>, ghost r: MappingRow, ghost start: BindingArray)
      requires Valid() && r in rows && start == r.bindings
      modifies rows, Arrays()
      ensures Valid()
      ensures r.bindings.items == After(old(start.items), ops, r.id)
      ensures start.items == Leaked(old(start.items), ops, r.id)
    {
      ghost var items := start.items;
      for k := 0 to |ops|
        invariant Valid() && fresh(Arrays() - old(Arrays()))
        invariant forall q | q in rows && q.bindings == start :: q == r
        invariant After(items, ops, r.id) == After(r.bindings.items, ops[k..], r.id)
        invariant Leaked(items, ops, r.id) ==
                    if r.bindings == start then Leaked(start.items, ops[k..], r.id) else start.items
      {
        assert ops[k..][0] == ops[k] && ops[k..][1..] == ops[k + 1..];
        Perform(ops[k]);
      }
    }

    method Snapshot() returns (copies: seq<MappingRow>)
      requires Valid()
      ensures |copies| == |rows| && fresh(set q | q in copies)
      ensures forall j | 0 <= j < |rows| :: copies[j].id == rows[j].id && copies[j].bindings == rows[j].bindings
      ensures Apart(copies)
    {
      copies := [];
      for i := 0 to |rows|
        invariant |copies| == i && fresh(set q | q in copies)
        invariant forall j | 0 <= j < i :: copies[j].id == rows[j].id && copies[j].bindings == rows[j].bindings
        invariant forall j, k | 0 <= j < k < |copies| :: copies[j] != copies[k]
      {
        var copy := new MappingRow(rows[i].id, rows[i].bindings);
        copies := copies + [copy];
      }
    }

    /** A body over the mapping rows; i is any row's position, which the method itself never looks at. */
    method Transaction(ops: seq<Op>, fails: bool, ghost i: nat)
      requires Valid() && i < |rows|
      modifies this, rows, Arrays()
      ensures Valid() && |rows| == |old(rows)| && rows[i].id == old(rows[i].id)
      ensures fails ==>
                && rows[i].bindings == old(rows[i].bindings)
                && rows[i].bindings.items == Leaked(old(rows[i].bindings.items), ops, rows[i].id)
      ensures !fails ==>
                rows == old(rows) && rows[i].bindings.items == After(old(rows[i].bindings.items), ops, rows[i].id)
    {
      var copies := Snapshot();
      ghost var r, start := rows[i], rows[i].bindings;
      Run(ops, r, start);
      assert Apart(copies) && copies[i].id == r.id && copies[i].bindings == start;
      if fails {
        rows := copies;
      }
    }
  }
}

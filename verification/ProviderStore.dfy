/**
 * The in-memory provider store as it is written: a map of row objects that the operations change in
 * place, an id counter, and the transaction stand-in that copies the rows and puts the copies back
 * when the body throws. Each method is proved against ProviderTable.
 */
module ProviderStore {
  import opened Wrappers
  import opened ProviderTable

  class RowObject {
    const id: int
    const createdAt: int
    var name: string
    var protocol: string
    var vendor: Option<string>
    var baseUrl: string
    var status: int
    var deletedAt: Option<int>

    constructor (r: Record)
      ensures Value() == r
    {
      id, createdAt := r.id, r.createdAt;
      name, protocol, vendor, baseUrl := r.name, r.protocol, r.vendor, r.baseUrl;
      status, deletedAt := r.status, r.deletedAt;
    }

    function Value(): Record
      reads this
    {
      Record(id, name, protocol, vendor, baseUrl, status, deletedAt, createdAt)
    }

    /** Assigns the fields that the patch has, in place. */
    method Assign(p: Patch)
      modifies this
      ensures Value() == Patched(old(Value()), p)
    {
      if p.name.Some? {
        name := p.name.value;
      }
      if p.protocol.Some? {
        protocol := p.protocol.value;
      }
      if p.vendor.Some? {
        vendor := p.vendor.value;
      }
      if p.baseUrl.Some? {
        baseUrl := p.baseUrl.value;
      }
      if p.status.Some? {
        status := p.status.value;
      }
    }
  }

  function Values(rows: seq<RowObject>): (r: seq<Record>)
    reads rows
    ensures |r| == |rows| && forall i | 0 <= i < |rows| :: r[i] == rows[i].Value()
  {
    seq(|rows|, i requires 0 <= i < |rows| reads rows => rows[i].Value())
  }

  class Store {
    /** The map's values in insertion order; the key of a row is its id. */
    var rows: seq<RowObject>
    var nextId: int

    ghost predicate Valid()
      reads this
    {
      forall i, j | 0 <= i < j < |rows| :: rows[i] != rows[j]
    }

    ghost function Objects(): set<RowObject>
      reads this
    {
      set r | r in rows
    }

    function Contents(): Table
      reads this, rows
    {
      Table(Values(rows), nextId)
    }

    constructor (seed: seq<Record>)
      ensures Valid() && Contents() == Initial(seed) && fresh(Objects())
    {
      rows := [];
      nextId := 1;
      new;
      var max := 0;
      for k := 0 to |seed|
        invariant Valid() && fresh(Objects())
        invariant Seeded(Values(rows), seed[k..]) == Seeded([], seed)
        invariant MaxId(seed[k..], max) == MaxId(seed, 0)
      {
        assert seed[k..][0] == seed[k] && seed[k..][1..] == seed[k + 1..];
        SetRow(seed[k]);
        max := if seed[k].id > max then seed[k].id else max;
      }
      nextId := max + 1;
    }

    /** Map.set: a new row object, in the place of the row with its id if there is one. */
    method SetRow(r: Record)
      requires Valid()
      modifies this`rows
      ensures Valid() && fresh(Objects() - old(Objects()))
      ensures Values(rows) == Seeded(old(Values(rows)), [r])
    {
      var i := FindRow(r.id);
      var row := new RowObject(r);
      SeededOne(Values(rows), r);
      rows := if i < |rows| then rows[i := row] else rows + [row];
    }

    method FindRow(id: int) returns (i: nat)
      ensures i == Find(Values(rows), id)
    {
      i := 0;
      while i < |rows| && rows[i].id != id
        invariant i <= |rows| && forall j | 0 <= j < i :: rows[j].id != id
      {
        i := i + 1;
      }
      assert Values(rows)[..i] == Values(rows[..i]);
    }

    method RowByName(name: string) returns (i: nat)
      ensures i == ByName(Values(rows), name)
    {
      i := 0;
      while i < |rows| && !(rows[i].name == name && rows[i].deletedAt.None?)
        invariant i <= |rows|
        invariant forall j | 0 <= j < i :: !(rows[j].name == name && rows[j].deletedAt.None?)
      {
        i := i + 1;
      }
    }

    /** Performs one write. Rows that are not the target keep their values, and no row object is replaced. */
    method Write(op: Op) returns (reply: Reply)
      requires Valid()
      modifies this, Objects()
      ensures Valid()
      ensures (Contents(), reply) == Apply(old(Contents()), op)
      ensures old(rows) <= rows && fresh(Objects() - old(Objects()))
    {
      match op {
        case Insert(name, protocol, vendor, baseUrl, status, now) =>
          reply := Insert(name, protocol, vendor, baseUrl, status, now);
        case Update(id, patch) =>
          reply := Update(id, patch);
        case Retire(id) =>
          reply := SetFlags(op);
        case SoftDelete(id, now) =>
          reply := SetFlags(op);
        case Restore(id) =>
          reply := SetFlags(op);
      }
    }

    method Insert(name: string, protocol: string, vendor: Option<string>, baseUrl: string, status: int, now: int)
      returns (reply: Reply)
      requires Valid()
      modifies this
      ensures Valid()
      ensures (Contents(), reply)
           == ApplyInsert(old(Contents()), Op.Insert(name, protocol, vendor, baseUrl, status, now))
      ensures old(rows) <= rows && fresh(Objects() - old(Objects()))
    {
      var clash := RowByName(name);
      if clash < |rows| {
        return UniqueViolation;
      }
      var record := Record(nextId, name, protocol, vendor, baseUrl, status, None, now);
      var row := new RowObject(record);
      Append(row);
      reply := Row(record);
    }

    method Append(row: RowObject)
      requires Valid() && row !in rows
      modifies this
      ensures Valid() && rows == old(rows) + [row]
      ensures Contents() == Table(old(Contents()).rows + [row.Value()], old(nextId) + 1)
    {
      Appended(row);
      nextId := nextId + 1;
      rows := rows + [row];
    }

    lemma Appended(row: RowObject)
      ensures Values(rows + [row]) == Values(rows) + [row.Value()]
    {
    }

    method Update(id: int, patch: Patch) returns (reply: Reply)
      requires Valid()
      modifies Objects()
      ensures (Contents(), reply) == ApplyUpdate(old(Contents()), id, patch)
    {
      ghost var t := Contents();
      var i := FindRow(id);
      if i == |rows| || rows[i].deletedAt.Some? {
        return Missing;
      }
      var clashes := NameClashes(id, patch);
      if clashes {
        return UniqueViolation;
      }
      AssignAt(i, patch);
      assert Contents().rows == t.rows[i := Patched(t.rows[i], patch)];
      reply := Row(rows[i].Value());
    }

    method NameClashes(id: int, patch: Patch) returns (clashes: bool)
      ensures clashes == Clashes(Values(rows), id, patch)
    {
      if patch.name.None? {
        return false;
      }
      var clash := RowByName(patch.name.value);
      clashes := clash < |rows| && rows[clash].id != id;
    }

    /** Assigning to one row object leaves the others alone, because no two rows are one object. */
    method AssignAt(i: nat, patch: Patch)
      requires Valid() && i < |rows|
      modifies rows[i]
      ensures Values(rows) == old(Values(rows))[i := Patched(old(rows[i].Value()), patch)]
    {
      ghost var before := Values(rows);
      assert forall j | 0 <= j < |rows| && j != i :: rows[j] != rows[i];
      rows[i].Assign(patch);
      OneChanged(before, i);
    }

    method FlagAt(i: nat, op: Op)
      requires Valid() && i < |rows|
      modifies rows[i]
      ensures Values(rows) == old(Values(rows))[i := Flagged(old(rows[i].Value()), op)]
    {
      ghost var before := Values(rows);
      assert forall j | 0 <= j < |rows| && j != i :: rows[j] != rows[i];
      rows[i].status := 1;
      if op.SoftDelete? {
        rows[i].deletedAt := Some(op.now);
      } else if op.Restore? {
        rows[i].deletedAt := None;
      }
      OneChanged(before, i);
    }

    /** The three writes that only set `status` and `deletedAt`. */
    method SetFlags(op: Op) returns (reply: Reply)
      requires Valid() && (op.Retire? || op.SoftDelete? || op.Restore?)
      modifies Objects()
      ensures (Contents(), reply) == ApplyFlags(old(Contents()), op)
    {
      var i := FindRow(op.id);
      if i == |rows| || rows[i].deletedAt.Some? != op.Restore? {
        return Done(false);
      }
      FlagAt(i, op);
      reply := Done(true);
    }

    lemma OneChanged(before: seq<Record>, i: nat)
      requires i < |rows| && |before| == |rows|
      requires forall j | 0 <= j < |rows| && j != i :: rows[j].Value() == before[j]
      ensures Values(rows) == before[i := rows[i].Value()]
    {
    }

    /** Runs writes until one is refused and the body does not catch it. */
    method Run(ops: seq<Call>) returns (threw: bool)
      requires Valid()
      modifies this, Objects()
      ensures Valid()
      ensures (Contents(), threw) == RunOps(old(Contents()), ops)
      ensures fresh(Objects() - old(Objects()))
    {
      threw := false;
      for k := 0 to |ops|
        invariant Valid() && !threw
        invariant RunOps(Contents(), ops[k..]) == RunOps(old(Contents()), ops)
        invariant fresh(Objects() - old(Objects()))
      {
        assert ops[k..][0] == ops[k] && ops[k..][1..] == ops[k + 1..];
        var reply := Write(ops[k].op);
        if reply.UniqueViolation? && !ops[k].caught {
          return true;
        }
      }
    }

    /** A shallow copy of every row, taken when the transaction opens. */
    method Snapshot() returns (copies: seq<RowObject>)
      requires Valid()
      ensures Values(copies) == Values(rows)
      ensures fresh(set r | r in copies)
      ensures forall i, j | 0 <= i < j < |copies| :: copies[i] != copies[j]
    {
      copies := [];
      for i := 0 to |rows|
        invariant |copies| == i && forall j | 0 <= j < i :: copies[j].Value() == rows[j].Value()
        invariant forall r | r in copies :: fresh(r)
        invariant forall j, k | 0 <= j < k < |copies| :: copies[j] != copies[k]
      {
        var copy := new RowObject(rows[i].Value());
        copies := copies + [copy];
      }
    }

    /**
     * The transaction stand-in. A body that throws leaves every row with its initial values although
     * rows were changed in place, and leaves new objects in the map: a row object obtained before or
     * inside the body is no longer the stored one. A body that returns keeps its effects.
     */
    method Transaction(b: Body) returns (threw: bool)
      requires Valid()
      modifies this, Objects()
      ensures Valid()
      ensures threw == (RunOps(old(Contents()), b.ops).1 || b.fails)
      ensures Contents() == RunBody(old(Contents()), b)
      ensures Contents().nextId == RunOps(old(Contents()), b.ops).0.nextId
      ensures !threw ==> Contents() == RunOps(old(Contents()), b.ops).0
      ensures threw ==> Contents().rows == old(Contents().rows) && fresh(Objects())
    {
      ghost var before := Values(rows);
      var copies := Snapshot();
      var refused := Run(b.ops);
      threw := refused || b.fails;
      ghost var after := Contents();
      if threw {
        assert Values(copies) == before;
        rows := copies;
        assert Contents() == after.(rows := before);
      }
    }
  }
}

/**
 * The provider table as values: records in insertion order (a JavaScript Map iterates in it), the
 * five writing operations, and rolled-back and committed bodies of operations.
 */
module ProviderTable {
  import opened Wrappers

  datatype Record = Record(
    id: int,
    name: string,
    protocol: string,
    vendor: Option<string>,
    baseUrl: string,
    status: int,
    deletedAt: Option<int>,
    createdAt: int)

  datatype Patch = Patch(
    name: Option<string>,
    protocol: Option<string>,
    vendor: Option<Option<string>>,
    baseUrl: Option<string>,
    status: Option<int>)

  /** The writes; `now` is the clock's reading. */
  datatype Op =
    | Insert(name: string, protocol: string, vendor: Option<string>, baseUrl: string, status: int, now: int)
    | Update(id: int, patch: Patch)
    | Retire(id: int)
    | SoftDelete(id: int, now: int)
    | Restore(id: int)

  datatype Reply = Row(record: Record) | Missing | Done(found: bool) | UniqueViolation

  datatype Table = Table(rows: seq<Record>, nextId: int)

  predicate InService(r: Record) {
    r.deletedAt.None?
  }

  function Find(rows: seq<Record>, id: int): (i: nat)
    ensures i <= |rows|
    ensures i < |rows| ==> rows[i].id == id
    ensures forall j | 0 <= j < i :: rows[j].id != id
  {
    if rows == [] || rows[0].id == id then 0 else 1 + Find(rows[1..], id)
  }

  /** The first in-service row with the name. */
  function ByName(rows: seq<Record>, name: string): (i: nat)
    ensures i <= |rows|
    ensures i < |rows| ==> InService(rows[i]) && rows[i].name == name
    ensures forall j | 0 <= j < i :: !(InService(rows[j]) && rows[j].name == name)
  {
    if rows == [] || (InService(rows[0]) && rows[0].name == name) then 0 else 1 + ByName(rows[1..], name)
  }

  function Or<T>(o: Option<T>, default: T): T {
    if o.Some? then o.value else default
  }

  function Patched(r: Record, p: Patch): Record {
    r.(name := Or(p.name, r.name), protocol := Or(p.protocol, r.protocol), vendor := Or(p.vendor, r.vendor),
       baseUrl := Or(p.baseUrl, r.baseUrl), status := Or(p.status, r.status))
  }

  /** A patch may not take a name that another in-service row has. */
  predicate Clashes(rows: seq<Record>, id: int, p: Patch) {
    p.name.Some? &&
    var i := ByName(rows, p.name.value);
    i < |rows| && rows[i].id != id
  }

  function ApplyInsert(t: Table, op: Op): (Table, Reply)
    requires op.Insert?
  {
    if ByName(t.rows, op.name) < |t.rows| then (t, UniqueViolation)
    else
      var r := Record(t.nextId, op.name, op.protocol, op.vendor, op.baseUrl, op.status, None, op.now);
      (Table(t.rows + [r], t.nextId + 1), Row(r))
  }

  function ApplyUpdate(t: Table, id: int, patch: Patch): (Table, Reply) {
    var i := Find(t.rows, id);
    if i == |t.rows| || !InService(t.rows[i]) then (t, Missing)
    else if Clashes(t.rows, id, patch) then (t, UniqueViolation)
    else (t.(rows := t.rows[i := Patched(t.rows[i], patch)]), Row(Patched(t.rows[i], patch)))
  }

  /** Retiring, soft-deleting and restoring set flags of a row on the right side of the recycle bin. */
  function ApplyFlags(t: Table, op: Op): (Table, Reply)
    requires op.Retire? || op.SoftDelete? || op.Restore?
  {
    var i := Find(t.rows, op.id);
    if i == |t.rows| || InService(t.rows[i]) == op.Restore? then (t, Done(false))
    else (t.(rows := t.rows[i := Flagged(t.rows[i], op)]), Done(true))
  }

  function Flagged(r: Record, op: Op): Record {
    match op
    case SoftDelete(_, now) => r.(status := 1, deletedAt := Some(now))
    case Restore(_) => r.(status := 1, deletedAt := None)
    case _ => r.(status := 1)
  }

  function Apply(t: Table, op: Op): (Table, Reply) {
    match op
    case Insert(_, _, _, _, _, _) => ApplyInsert(t, op)
    case Update(id, patch) => ApplyUpdate(t, id, patch)
    case _ => ApplyFlags(t, op)
  }

  // ----- What one write does and undoes -----

  lemma {:induction false} FindByIds(a: seq<Record>, b: seq<Record>, id: int)
    requires |a| == |b| && forall i | 0 <= i < |a| :: a[i].id == b[i].id
    ensures Find(a, id) == Find(b, id)
  {
    if a != [] && a[0].id != id {
      FindByIds(a[1..], b[1..], id);
    }
  }

  /** Soft deletion followed by a restore amounts to retiring the row: the status is the one thing lost. */
  lemma RestoreUndoesDelete(t: Table, id: int, now: int)
    requires Apply(t, SoftDelete(id, now)).1 == Done(true)
    ensures Apply(Apply(t, SoftDelete(id, now)).0, Restore(id)) == (Apply(t, Retire(id)).0, Done(true))
  {
    var deleted := Apply(t, SoftDelete(id, now)).0;
    FindByIds(t.rows, deleted.rows, id);
    var i := Find(t.rows, id);
    assert Apply(deleted, Restore(id)).0.rows == t.rows[i := Flagged(t.rows[i], Retire(id))];
  }

  /** A write changes no row but the one it names; only an insert adds one, which its name then finds. */
  lemma OneRowChanges(t: Table, op: Op)
    ensures var rows := Apply(t, op).0.rows;
            |t.rows| <= |rows|
            && (forall j | 0 <= j < |t.rows| && (op.Insert? || t.rows[j].id != op.id) :: rows[j] == t.rows[j])
            && (op.Insert? && Apply(t, op).1.Row? ==> |rows| == |t.rows| + 1 && ByName(rows, op.name) == |t.rows|)
            && (!(op.Insert? && Apply(t, op).1.Row?) ==> |rows| == |t.rows|)
  {
    var rows := Apply(t, op).0.rows;
    if op.Insert? && Apply(t, op).1.Row? {
      assert rows[|t.rows|].name == op.name && InService(rows[|t.rows|]);
      NameFound(rows, op.name, |t.rows|);
    }
  }

  lemma {:induction false} NameFound(rows: seq<Record>, name: string, i: nat)
    requires i < |rows| && InService(rows[i]) && rows[i].name == name
    requires forall j | 0 <= j < i :: !(InService(rows[j]) && rows[j].name == name)
    ensures ByName(rows, name) == i
  {
    if i > 0 {
      NameFound(rows[1..], name, i - 1);
    }
  }

  // ----- The table a store starts from -----

  /** Filling the map with seed records in turn: a repeated id replaces the earlier record in its place. */
  function Seeded(rows: seq<Record>, seed: seq<Record>): seq<Record>
    decreases |seed|
  {
    if seed == [] then rows
    else
      var i := Find(rows, seed[0].id);
      Seeded(if i < |rows| then rows[i := seed[0]] else rows + [seed[0]], seed[1..])
  }

  lemma SeededOne(rows: seq<Record>, r: Record)
    ensures var i := Find(rows, r.id); Seeded(rows, [r]) == if i < |rows| then rows[i := r] else rows + [r]
  {
    assert [r][1..] == [];
  }

  function MaxId(seed: seq<Record>, m: int): int
    decreases |seed|
  {
    if seed == [] then m else MaxId(seed[1..], if seed[0].id > m then seed[0].id else m)
  }

  function Initial(seed: seq<Record>): Table {
    Table(Seeded([], seed), MaxId(seed, 0) + 1)
  }

  // ----- In-service names -----

  ghost predicate UniqueNames(rows: seq<Record>) {
    forall i, j | 0 <= i < j < |rows| && InService(rows[i]) && InService(rows[j]) :: rows[i].name != rows[j].name
  }

  /** Rows have distinct ids, all handed out already. */
  ghost predicate WellKeyed(t: Table) {
    && (forall i, j | 0 <= i < j < |t.rows| :: t.rows[i].id != t.rows[j].id)
    && forall r | r in t.rows :: r.id < t.nextId
  }

  lemma ApplyKeepsKeys(t: Table, op: Op)
    requires WellKeyed(t)
    ensures WellKeyed(Apply(t, op).0)
    ensures Apply(t, op).0.nextId == t.nextId + (if op.Insert? && Apply(t, op).1.Row? then 1 else 0)
  {
    if op.Insert? {
      assert forall r | r in Apply(t, op).0.rows :: r in t.rows || r.id == t.nextId;
    } else {
      var i := Find(t.rows, op.id);
      if Apply(t, op).0.rows != t.rows {
        KeysSurvive(t, i, Apply(t, op).0.rows[i]);
      }
    }
  }

  lemma KeysSurvive(t: Table, i: nat, r: Record)
    requires WellKeyed(t) && i < |t.rows| && r.id == t.rows[i].id
    ensures WellKeyed(t.(rows := t.rows[i := r]))
  {
    forall q | q in t.rows[i := r] ensures q.id < t.nextId {
      var j :| 0 <= j < |t.rows| && t.rows[i := r][j] == q;
      assert t.rows[j] in t.rows;
    }
  }

  lemma {:induction false} MaxIdBounds(seed: seq<Record>, m: int)
    ensures MaxId(seed, m) >= m && forall r | r in seed :: r.id <= MaxId(seed, m)
    decreases |seed|
  {
    if seed != [] {
      MaxIdBounds(seed[1..], if seed[0].id > m then seed[0].id else m);
      assert forall r | r in seed :: r == seed[0] || r in seed[1..];
    }
  }

  lemma {:induction false} SeededKeepsKeys(rows: seq<Record>, seed: seq<Record>, nextId: int)
    requires WellKeyed(Table(rows, nextId)) && forall r | r in seed :: r.id < nextId
    ensures WellKeyed(Table(Seeded(rows, seed), nextId))
    decreases |seed|
  {
    if seed != [] {
      var i := Find(rows, seed[0].id);
      assert seed[0] in seed && forall r | r in seed[1..] :: r in seed;
      if i < |rows| {
        KeysSurvive(Table(rows, nextId), i, seed[0]);
        SeededKeepsKeys(rows[i := seed[0]], seed[1..], nextId);
      } else {
        SeededKeepsKeys(rows + [seed[0]], seed[1..], nextId);
      }
    }
  }

  /** Whatever the seed, the store starts with distinct ids below its counter. */
  lemma InitialIsWellKeyed(seed: seq<Record>)
    ensures WellKeyed(Initial(seed))
  {
    MaxIdBounds(seed, 0);
    SeededKeepsKeys([], seed, MaxId(seed, 0) + 1);
  }

  lemma {:induction false} SeededSnoc(rows: seq<Record>, seed: seq<Record>, r: Record)
    ensures Seeded(rows, seed + [r]) == Seeded(Seeded(rows, seed), [r])
    decreases |seed|
  {
    if seed == [] {
      assert seed + [r] == [r];
    } else {
      assert (seed + [r])[1..] == seed[1..] + [r];
      var i := Find(rows, seed[0].id);
      SeededSnoc(if i < |rows| then rows[i := seed[0]] else rows + [seed[0]], seed[1..], r);
    }
  }

  /** The record stands in the seed, and none with its id after it. */
  ghost predicate StandsLast(seed: seq<Record>, r: Record) {
    exists i | 0 <= i < |seed| :: seed[i] == r && forall j | i < j < |seed| :: seed[j].id != r.id
  }

  /** Every row is the last seed record of its id, and the rows stand in the order of their ids' first records. */
  ghost predicate HoldsSeed(rows: seq<Record>, seed: seq<Record>) {
    && (forall r :: r in rows <==> StandsLast(seed, r))
    && forall i, j | 0 <= i < j < |rows| :: Find(seed, rows[i].id) < Find(seed, rows[j].id)
  }

  lemma StandsLastSnoc(seed: seq<Record>, r: Record, q: Record)
    ensures StandsLast(seed + [r], q) <==> q == r || (q.id != r.id && StandsLast(seed, q))
  {
    var all := seed + [r];
    if q == r {
      assert all[|seed|] == r;
    } else if q.id != r.id && StandsLast(seed, q) {
      var i :| 0 <= i < |seed| && seed[i] == q && forall j | i < j < |seed| :: seed[j].id != q.id;
      assert all[i] == q;
    }
    if StandsLast(all, q) && q != r {
      var i :| 0 <= i < |all| && all[i] == q && forall j | i < j < |all| :: all[j].id != q.id;
      assert i < |seed| && all[|seed|].id != q.id;
      assert seed[i] == q && forall j | i < j < |seed| :: seed[j] == all[j];
    }
  }

  /** A map's rows after one more record. */
  lemma RowsAfter(rows: seq<Record>, seed: seq<Record>, r: Record, q: Record)
    requires HoldsSeed(rows, seed)
    ensures q in Seeded(rows, [r]) <==> q == r || (q.id != r.id && q in rows)
  {
    SeededOne(rows, r);
    var i, next := Find(rows, r.id), Seeded(rows, [r]);
    assert next[i] == r;
    if q in rows && q.id != r.id {
      var j :| 0 <= j < |rows| && rows[j] == q;
      assert next[j] == q;
    }
    if q in next && q != r {
      var j :| 0 <= j < |next| && next[j] == q;
      assert j != i && rows[j] == q;
    }
  }

  lemma {:induction false} SomeStandsLast(seed: seq<Record>, k: nat)
    requires k < |seed|
    ensures exists q :: StandsLast(seed, q) && q.id == seed[k].id
    decreases |seed| - k
  {
    if j :| k < j < |seed| && seed[j].id == seed[k].id {
      SomeStandsLast(seed, j);
    } else {
      assert StandsLast(seed, seed[k]);
    }
  }

  lemma SeedStep(rows: seq<Record>, seed: seq<Record>, r: Record)
    requires HoldsSeed(rows, seed)
    ensures HoldsSeed(Seeded(rows, [r]), seed + [r])
  {
    forall q ensures q in Seeded(rows, [r]) <==> StandsLast(seed + [r], q) {
      StandsLastSnoc(seed, r, q);
      RowsAfter(rows, seed, r, q);
    }
    SeededOne(rows, r);
    forall j | 0 <= j < |rows| ensures Find(seed + [r], rows[j].id) == Find(seed, rows[j].id) < |seed| {
      assert rows[j] in rows && StandsLast(seed, rows[j]);
      FindStays(seed, r, rows[j].id);
    }
    if Find(seed, r.id) < |seed| {
      KnownId(rows, seed, r.id);
    } else {
      FindLast(seed, r);
    }
  }

  lemma KnownId(rows: seq<Record>, seed: seq<Record>, id: int)
    requires HoldsSeed(rows, seed) && Find(seed, id) < |seed|
    ensures Find(rows, id) < |rows|
  {
    SomeStandsLast(seed, Find(seed, id));
    var q :| StandsLast(seed, q) && q.id == id;
    assert q in rows;
  }

  lemma FindStays(seed: seq<Record>, r: Record, id: int)
    requires Find(seed, id) < |seed|
    ensures Find(seed + [r], id) == Find(seed, id)
  {
    assert (seed + [r])[Find(seed, id)] == seed[Find(seed, id)];
  }

  lemma FindLast(seed: seq<Record>, r: Record)
    requires Find(seed, r.id) == |seed|
    ensures Find(seed + [r], r.id) == |seed|
  {
    assert (seed + [r])[|seed|] == r;
  }

  lemma {:induction false} SeededHoldsSeed(seed: seq<Record>)
    ensures HoldsSeed(Seeded([], seed), seed)
  {
    if seed != [] {
      var init, r := seed[..|seed| - 1], seed[|seed| - 1];
      SeededHoldsSeed(init);
      SeededSnoc([], init, r);
      SeedStep(Seeded([], init), init, r);
      assert init + [r] == seed;
    }
  }

  lemma {:induction false} MaxIdReached(seed: seq<Record>, m: int)
    ensures MaxId(seed, m) == m || exists r | r in seed :: r.id == MaxId(seed, m)
    decreases |seed|
  {
    if seed != [] {
      assert seed[0] in seed && forall r | r in seed[1..] :: r in seed;
      MaxIdReached(seed[1..], if seed[0].id > m then seed[0].id else m);
    }
  }

  /** The store starts with the last record of every seed id, and counts on from the greatest, or from one. */
  lemma InitialTable(seed: seq<Record>)
    ensures HoldsSeed(Initial(seed).rows, seed)
    ensures Initial(seed).nextId >= 1 && forall r | r in seed :: r.id < Initial(seed).nextId
    ensures Initial(seed).nextId == 1 || exists r | r in seed :: r.id == Initial(seed).nextId - 1
  {
    SeededHoldsSeed(seed);
    MaxIdBounds(seed, 0);
    MaxIdReached(seed, 0);
  }

  // ----- The fields that a write gives to its row -----

  /** An insert takes the next id, unless an in-service row has the name. */
  lemma InsertedFields(t: Table, op: Op)
    requires op.Insert?
    ensures var (after, reply) := Apply(t, op);
            if exists r | r in t.rows :: r.deletedAt.None? && r.name == op.name then
              (after, reply) == (t, UniqueViolation)
            else
              && reply.Row? && after.rows == t.rows + [reply.record] && after.nextId == t.nextId + 1
              && var r := reply.record;
                 && r.id == t.nextId && r.deletedAt == None && r.createdAt == op.now
                 && r.name == op.name && r.protocol == op.protocol && r.vendor == op.vendor
                 && r.baseUrl == op.baseUrl && r.status == op.status
  {
    if r :| r in t.rows && r.deletedAt.None? && r.name == op.name {
      var j :| 0 <= j < |t.rows| && t.rows[j] == r;
    } else {
      assert forall j | 0 <= j < |t.rows| :: t.rows[j] in t.rows;
    }
  }

  /**
   * A patch that is accepted reaches exactly the fields it has, of the one row with the id. It is
   * refused when the first in-service row with the patch's name is another row.
   */
  lemma PatchedFields(t: Table, i: nat, p: Patch)
    requires WellKeyed(t) && i < |t.rows|
    ensures var (after, reply) := Apply(t, Update(t.rows[i].id, p));
            && (reply.Missing? <==> t.rows[i].deletedAt.Some?)
            && (reply.UniqueViolation? <==>
                t.rows[i].deletedAt.None? && p.name.Some?
                && exists k | 0 <= k < |t.rows| && k != i ::
                     t.rows[k].deletedAt.None? && t.rows[k].name == p.name.value
                     && forall j | 0 <= j < k :: t.rows[j].deletedAt.Some? || t.rows[j].name != p.name.value)
            && if !reply.Row? then (reply.Missing? || reply.UniqueViolation?) && after == t
               else
                 && after == t.(rows := t.rows[i := reply.record])
                 && var r, was := reply.record, t.rows[i];
                    && r.id == was.id && r.deletedAt == None && r.createdAt == was.createdAt
                    && (p.name == Some(r.name) || (p.name == None && r.name == was.name))
                    && (p.protocol == Some(r.protocol) || (p.protocol == None && r.protocol == was.protocol))
                    && (p.vendor == Some(r.vendor) || (p.vendor == None && r.vendor == was.vendor))
                    && (p.baseUrl == Some(r.baseUrl) || (p.baseUrl == None && r.baseUrl == was.baseUrl))
                    && (p.status == Some(r.status) || (p.status == None && r.status == was.status))
  {
    assert Find(t.rows, t.rows[i].id) == i;
    if p.name.Some? {
      var k := ByName(t.rows, p.name.value);
      assert k < |t.rows| && k != i ==> t.rows[k].id != t.rows[i].id;
    }
  }

  /**
   * Retiring and soft deletion find an in-service row, a restore a deleted one. The row gets the
   * retired status; only deletion and restore touch the mark of deletion.
   */
  lemma FlaggedFields(t: Table, i: nat, op: Op)
    requires WellKeyed(t) && i < |t.rows| && (op.Retire? || op.SoftDelete? || op.Restore?) && op.id == t.rows[i].id
    ensures var (after, reply) := Apply(t, op);
            && reply == Done(t.rows[i].deletedAt.Some? <==> op.Restore?)
            && if !reply.found then after == t
               else
                 && |after.rows| == |t.rows| && after == t.(rows := t.rows[i := after.rows[i]])
                 && var r, was := after.rows[i], t.rows[i];
                    && r.status == 1
                    && r.deletedAt == (if op.SoftDelete? then Some(op.now) else None)
                    && r.id == was.id && r.name == was.name && r.protocol == was.protocol
                    && r.vendor == was.vendor && r.baseUrl == was.baseUrl && r.createdAt == was.createdAt
  {
    assert Find(t.rows, t.rows[i].id) == i;
  }

  /** A write to an id that no row has does nothing and says so. */
  lemma UnknownId(t: Table, op: Op)
    requires !op.Insert? && forall r | r in t.rows :: r.id != op.id
    ensures Apply(t, op) == (t, if op.Update? then Missing else Done(false))
  {
    assert forall i | 0 <= i < |t.rows| :: t.rows[i] in t.rows;
  }

  /** The one write that can break uniqueness: restoring a row whose name is in service again. */
  predicate RestoresTakenName(t: Table, op: Op) {
    op.Restore? &&
    var i := Find(t.rows, op.id);
    i < |t.rows| && !InService(t.rows[i]) && ByName(t.rows, t.rows[i].name) < |t.rows|
  }

  /** Every write keeps in-service names unique, except exactly the restore of a taken name. */
  lemma ApplyKeepsNamesUnique(t: Table, op: Op)
    requires WellKeyed(t) && UniqueNames(t.rows)
    ensures UniqueNames(Apply(t, op).0.rows) <==> !RestoresTakenName(t, op)
  {
    var rows := Apply(t, op).0.rows;
    if op.Restore? && rows != t.rows {
      var i := Find(t.rows, op.id);
      var k := ByName(t.rows, t.rows[i].name);
      if k < |t.rows| {
        assert InService(rows[k]) && InService(rows[i]) && rows[k].name == rows[i].name && k != i;
      }
    }
    if op.Update? && rows != t.rows && op.patch.name.Some? {
      PatchKeepsNamesUnique(t, Find(t.rows, op.id), op.patch);
    }
  }

  lemma PatchKeepsNamesUnique(t: Table, i: nat, p: Patch)
    requires WellKeyed(t) && UniqueNames(t.rows) && i < |t.rows| && InService(t.rows[i])
    requires p.name.Some? && !Clashes(t.rows, t.rows[i].id, p)
    ensures UniqueNames(t.rows[i := Patched(t.rows[i], p)])
  {
    var k := ByName(t.rows, p.name.value);
    forall j | 0 <= j < |t.rows| && InService(t.rows[j]) && t.rows[j].name == p.name.value ensures j == i {
      assert k <= j;
    }
  }

  // ----- Bodies of operations -----

  /** A write in a body; a refusal is an exception, which the body may catch and go on. */
  datatype Call = Call(op: Op, caught: bool)

  /** A transaction body: its writes, and whether it throws after them. */
  datatype Body = Body(ops: seq<Call>, fails: bool)

  /** Whether the call ends its body. */
  predicate Escapes(t: Table, c: Call) {
    Apply(t, c.op).1.UniqueViolation? && !c.caught
  }

  /** The table after the writes, up to the first refusal that is not caught, and whether there was one. */
  function RunOps(t: Table, ops: seq<Call>): (Table, bool)
    decreases |ops|
  {
    if ops == [] then (t, false)
    else
      var next := Apply(t, ops[0].op).0;
      if Escapes(t, ops[0]) then (next, true) else RunOps(next, ops[1..])
  }

  /** A body of one write makes it; a body of two parts makes the second on what the first leaves, if it ends. */
  lemma {:induction false} RunInTurn(t: Table, c: Call, a: seq<Call>, b: seq<Call>)
    ensures RunOps(t, []) == (t, false)
    ensures RunOps(t, [c]) == (Apply(t, c.op).0, Apply(t, c.op).1 == UniqueViolation && !c.caught)
    ensures RunOps(t, a + b) == if RunOps(t, a).1 then RunOps(t, a) else RunOps(RunOps(t, a).0, b)
    decreases |a|
  {
    assert [c][1..] == [];
    if a == [] {
      assert a + b == b;
    } else {
      assert (a + b)[1..] == a[1..] + b;
      RunInTurn(Apply(t, a[0].op).0, c, a[1..], b);
    }
  }

  predicate Throws(t: Table, b: Body) {
    RunOps(t, b.ops).1 || b.fails
  }

  /** A body that throws leaves the rows as they were, but not the id counter. */
  function RunBody(t: Table, b: Body): Table {
    var after := RunOps(t, b.ops).0;
    if Throws(t, b) then after.(rows := t.rows) else after
  }

  function RunBodies(t: Table, bs: seq<Body>): Table
    decreases |bs|
  {
    if bs == [] then t else RunBodies(RunBody(t, bs[0]), bs[1..])
  }

  // ----- Ids -----

  /** The ids that a body hands out, in order, rolled back or not. */
  function Issued(t: Table, ops: seq<Call>): seq<int>
    decreases |ops|
  {
    if ops == [] then []
    else
      var (next, reply) := Apply(t, ops[0].op);
      (if reply.Row? && ops[0].op.Insert? then [reply.record.id] else [])
      + if Escapes(t, ops[0]) then [] else Issued(next, ops[1..])
  }

  function AllIssued(t: Table, bs: seq<Body>): seq<int>
    decreases |bs|
  {
    if bs == [] then [] else Issued(t, bs[0].ops) + AllIssued(RunBody(t, bs[0]), bs[1..])
  }

  /** The ids are the integers from `from`, in order, without a gap. */
  ghost predicate Counts(ids: seq<int>, from: int) {
    forall i | 0 <= i < |ids| :: ids[i] == from + i
  }

  lemma {:induction false} IssuedCount(t: Table, ops: seq<Call>)
    requires WellKeyed(t)
    ensures Counts(Issued(t, ops), t.nextId)
    ensures RunOps(t, ops).0.nextId == t.nextId + |Issued(t, ops)| && WellKeyed(RunOps(t, ops).0)
    decreases |ops|
  {
    if ops != [] {
      ApplyKeepsKeys(t, ops[0].op);
      if !Escapes(t, ops[0]) {
        IssuedCount(Apply(t, ops[0].op).0, ops[1..]);
      }
    }
  }

  /**
   * Over any sequence of bodies, committed or rolled back, every new id exceeds every id that was in
   * the table or handed out before it: an id of a rolled-back body is never used again.
   */
  lemma {:induction false} IdsAreNeverReused(t: Table, bs: seq<Body>)
    requires WellKeyed(t)
    ensures Counts(AllIssued(t, bs), t.nextId) && forall r | r in t.rows :: r.id < t.nextId
    ensures WellKeyed(RunBodies(t, bs)) && RunBodies(t, bs).nextId == t.nextId + |AllIssued(t, bs)|
    decreases |bs|
  {
    if bs != [] {
      IssuedCount(t, bs[0].ops);
      IdsAreNeverReused(RunBody(t, bs[0]), bs[1..]);
    }
  }

  // ----- Names over whole histories -----

  /** Some write of the body that takes effect restores a taken name. */
  predicate BodyRestoresTakenName(t: Table, ops: seq<Call>)
    decreases |ops|
  {
    ops != [] &&
    (RestoresTakenName(t, ops[0].op)
     || (!Escapes(t, ops[0]) && BodyRestoresTakenName(Apply(t, ops[0].op).0, ops[1..])))
  }

  /** Write k is reached, and restores a name in service. */
  ghost predicate RestoresAt(t: Table, ops: seq<Call>, k: nat)
    requires k < |ops|
  {
    var (before, threw) := RunOps(t, ops[..k]);
    !threw && ops[k].op.Restore?
    && exists i, j | 0 <= i < |before.rows| && 0 <= j < |before.rows| ::
         && i == Find(before.rows, ops[k].op.id) && before.rows[i].deletedAt.Some?
         && before.rows[j].deletedAt.None? && before.rows[j].name == before.rows[i].name
  }

  lemma {:induction false} BodyRestoresIff(t: Table, ops: seq<Call>)
    ensures BodyRestoresTakenName(t, ops) <==> exists k: nat :: k < |ops| && RestoresAt(t, ops, k)
    decreases |ops|
  {
    if ops != [] {
      RestoresAtHead(t, ops);
      var next := Apply(t, ops[0].op).0;
      BodyRestoresIff(next, ops[1..]);
      forall k: nat | k < |ops| - 1
        ensures RestoresAt(t, ops, k + 1) <==> !Escapes(t, ops[0]) && RestoresAt(next, ops[1..], k)
      {
        assert ops[..k + 1][0] == ops[0] && ops[..k + 1][1..] == ops[1..][..k];
      }
      if k: nat :| k < |ops| && RestoresAt(t, ops, k) && k > 0 {
        assert RestoresAt(next, ops[1..], k - 1);
      }
    }
  }

  lemma RestoresAtHead(t: Table, ops: seq<Call>)
    requires ops != []
    ensures RestoresAt(t, ops, 0) <==> RestoresTakenName(t, ops[0].op)
  {
    assert RunOps(t, ops[..0]) == (t, false);
    if RestoresTakenName(t, ops[0].op) {
      var i := Find(t.rows, ops[0].op.id);
      assert t.rows[ByName(t.rows, t.rows[i].name)].deletedAt.None?;
    }
  }

  lemma {:induction false} OpsKeepNamesUnique(t: Table, ops: seq<Call>)
    requires WellKeyed(t) && UniqueNames(t.rows) && !BodyRestoresTakenName(t, ops)
    ensures UniqueNames(RunOps(t, ops).0.rows)
    decreases |ops|
  {
    if ops != [] {
      ApplyKeepsKeys(t, ops[0].op);
      ApplyKeepsNamesUnique(t, ops[0].op);
      if !Escapes(t, ops[0]) {
        OpsKeepNamesUnique(Apply(t, ops[0].op).0, ops[1..]);
      }
    }
  }

  /** Names stay unique over any history whose committed bodies restore no taken name. */
  lemma {:induction false} NamesStayUnique(t: Table, bs: seq<Body>)
    requires WellKeyed(t) && UniqueNames(t.rows)
    requires forall i | 0 <= i < |bs| ::
               var before := RunBodies(t, bs[..i]); !Throws(before, bs[i]) ==> !BodyRestoresTakenName(before, bs[i].ops)
    ensures UniqueNames(RunBodies(t, bs).rows)
    decreases |bs|
  {
    if bs != [] {
      var b, next := bs[0], RunBody(t, bs[0]);
      IssuedCount(t, b.ops);
      assert RunBodies(t, bs[..0]) == t;
      if !Throws(t, b) {
        OpsKeepNamesUnique(t, b.ops);
      }
      forall i | 0 <= i < |bs| - 1
        ensures var before := RunBodies(next, bs[1..][..i]);
                !Throws(before, bs[1..][i]) ==> !BodyRestoresTakenName(before, bs[1..][i].ops)
      {
        assert bs[..i + 1] == [b] + bs[1..][..i];
        assert RunBodies(t, bs[..i + 1]) == RunBodies(next, bs[1..][..i]);
      }
      NamesStayUnique(next, bs[1..]);
    }
  }
}

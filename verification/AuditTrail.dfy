/**
 The audit interceptor of the Express service (express/src/prisma.ts), for one model and with
 operations run one at a time, alone or inside a transaction of the caller's. A table is a map from ids
 to rows; what Prisma does to it is a function of the table. An operation that the database rejects throws
 before anything is written. Rows are looked up, read again and the trail is written through the base client,
 which sees what is committed and is not part of the transaction.
 */
module AuditTrail {
  import opened Common

  type Id = s: string | s != "" witness "0"

  datatype Row<D> = Row(id: Id, data: D)

  type Table<D> = map<Id, Row<D>>

  datatype Action = INSERT | UPDATE | DELETE

  /** A JSON value of the trail: the id, if it is there, and the other fields of a row, or the summary that createMany leaves. */
  datatype Json<D> = Obj(id: Option<Id>, data: D) | Summary(rows: seq<Row<D>>, count: nat)

  /** None is Prisma.DbNull; the record id is empty where none was found. */
  datatype Entry<D> = Entry(recordId: string, action: Action, oldValue: Option<Json<D>>, newValue: Option<Json<D>>)

  /** A unique `where`: the id of the row it selects, if there is one, and the id it names itself. */
  datatype Where<!D> = Where(find: Table<D> -> Option<Id>, id: Option<Id>)

  /** What `select`, `omit` and `include` leave of a row that is returned. */
  datatype View<!D> = View(showsId: bool, fields: D -> D)

  /**
   An operation. `takes` says which of the matching rows the database picks when there is a `limit`; all
   of them when there is none.
   */
  datatype Op<!D> =
    | Create(row: Row<D>, view: View<D>)
    | Update(where: Where<D>, change: Row<D> -> Row<D>, view: View<D>)
    | Delete(where: Where<D>, view: View<D>)
    | Upsert(where: Where<D>, create: Row<D>, change: Row<D> -> Row<D>, view: View<D>)
    | CreateManyAndReturn(rows: seq<Row<D>>, view: View<D>)
    | UpdateMany(matches: Row<D> -> bool, takes: Row<D> -> bool, change: Row<D> -> Row<D>)
    | DeleteMany(matches: Row<D> -> bool, takes: Row<D> -> bool)
    | CreateMany(rows: seq<Row<D>>)

  predicate ValidTable<D(==)>(t: Table<D>) {
    forall id :: id in t ==> t[id].id == id
  }

  function Get<D>(t: Table<D>, id: string): Option<Row<D>> {
    if id in t then Some(t[id]) else None
  }

  /** findUnique */
  function Found<D>(t: Table<D>, where: Where<D>): Option<Row<D>> {
    match where.find(t)
    case None => None
    case Some(id) => if where.id.Some? && where.id.value != id then None else Get(t, id)
  }

  // ---------------------------------------------------------------- what the database does

  /** One row replaced by another, whose id must not be taken. */
  function Replace<D>(t: Table<D>, id: Id, row: Row<D>): Option<Table<D>> {
    if row.id == id then Some(t[id := row])
    else if row.id in t then None
    else Some((t - {id})[row.id := row])
  }

  function InsertOne<D>(t: Table<D>, row: Row<D>): Option<Table<D>> {
    if row.id in t then None else Some(t[row.id := row])
  }

  function InsertAll<D>(t: Table<D>, rows: seq<Row<D>>): Option<Table<D>>
    decreases |rows|
  {
    if rows == [] then Some(t)
    else match InsertOne(t, rows[0]) case None => None case Some(t') => InsertAll(t', rows[1..])
  }

  function Both<D>(a: Row<D> -> bool, b: Row<D> -> bool): Row<D> -> bool {
    row => a(row) && b(row)
  }

  /** What an updateMany makes of a row. */
  function Changed<D>(hit: Row<D> -> bool, change: Row<D> -> Row<D>, row: Row<D>): Row<D> {
    if hit(row) then change(row) else row
  }

  /** All hit rows changed at once, unless two rows would end up with the same id. */
  function ChangeAll<D>(t: Table<D>, hit: Row<D> -> bool, change: Row<D> -> Row<D>): Option<Table<D>> {
    if exists id, id' :: id in t && id' in t && id != id' && Changed(hit, change, t[id]).id == Changed(hit, change, t[id']).id
    then None
    else Some(map id | id in t :: Changed(hit, change, t[id]).id := Changed(hit, change, t[id]))
  }

  /** The table after the operation, or None if the database rejects it. */
  function Effect<D>(t: Table<D>, op: Op<D>): Option<Table<D>> {
    match op
    case Create(row, _) => InsertOne(t, row)
    case Update(where, change, _) =>
      (match Found(t, where)
       case None => None
       case Some(row) => Replace(t, row.id, change(row)))
    case Delete(where, _) =>
      (match Found(t, where)
       case None => None
       case Some(row) => Some(t - {row.id}))
    case Upsert(where, create, change, _) =>
      (match Found(t, where)
       case None => InsertOne(t, create)
       case Some(row) => Replace(t, row.id, change(row)))
    case CreateManyAndReturn(rows, _) => InsertAll(t, rows)
    case UpdateMany(matches, takes, change) => ChangeAll(t, Both(matches, takes), change)
    case DeleteMany(matches, takes) => Some(map id | id in t && !(matches(t[id]) && takes(t[id])) :: t[id])
    case CreateMany(rows) => InsertAll(t, rows)
  }

  /** The rows that a findMany with this condition returns, in whatever order. */
  ghost predicate Lists<D(!new)>(t: Table<D>, matches: Row<D> -> bool, olds: seq<Row<D>>) {
    (forall r :: r in olds <==> r.id in t && t[r.id] == r && matches(r)) &&
    forall i, j :: 0 <= i < j < |olds| ==> olds[i].id != olds[j].id
  }

  // ---------------------------------------------------------------- the interceptor

  function Whole<D>(row: Row<D>): Json<D> {
    Obj(Some(row.id), row.data)
  }

  /** serializeJson of a row that was looked up. */
  function Serialize<D>(row: Option<Row<D>>): Option<Json<D>> {
    if row.None? then None else Some(Whole(row.value))
  }

  /** What the operation returns of a row. */
  function Shown<D>(view: View<D>, row: Row<D>): Json<D> {
    Obj(if view.showsId then Some(row.id) else None, view.fields(row.data))
  }

  /** `String(result?.id ?? where?.id ?? '')` */
  function RecordId<D>(view: View<D>, row: Row<D>, named: Option<Id>): string {
    if view.showsId then row.id else match named case None => "" case Some(id) => id
  }

  function Inserted<D>(view: View<D>, row: Row<D>, named: Option<Id>): Entry<D> {
    Entry(RecordId(view, row, named), INSERT, None, Some(Shown(view, row)))
  }

  /** The old value is what the lookup has seen. */
  function Updated<D>(view: View<D>, seen: Option<Row<D>>, row: Row<D>, named: Option<Id>): Entry<D> {
    Entry(RecordId(view, row, named), UPDATE, Serialize(seen), Some(Shown(view, row)))
  }

  /** What the lookup has seen decides between UPDATE and INSERT. */
  function Upserted<D>(view: View<D>, seen: Option<Row<D>>, row: Row<D>, named: Option<Id>): Entry<D> {
    if seen.Some? then Updated(view, seen, row, named) else Inserted(view, row, named)
  }

  /** The result of a delete is the row that was deleted. */
  function Removed<D>(view: View<D>, seen: Option<Row<D>>, was: Row<D>, named: Option<Id>): Entry<D> {
    Entry(RecordId(view, was, named), DELETE, Serialize(seen), None)
  }

  function SummaryOf<D>(rows: seq<Row<D>>): Entry<D> {
    Entry("", INSERT, None, Some(Summary(rows, |rows|)))
  }

  function Inserts<D>(view: View<D>, rows: seq<Row<D>>): seq<Entry<D>> {
    seq(|rows|, i requires 0 <= i < |rows| => Inserted(view, rows[i], None))
  }

  function Changes<D>(olds: seq<Row<D>>, reread: Table<D>): seq<Entry<D>> {
    seq(|olds|, i requires 0 <= i < |olds| =>
      Entry(olds[i].id, UPDATE, Some(Whole(olds[i])), Serialize(Get(reread, olds[i].id))))
  }

  function Removals<D>(olds: seq<Row<D>>): seq<Entry<D>> {
    seq(|olds|, i requires 0 <= i < |olds| => Entry(olds[i].id, DELETE, Some(Whole(olds[i])), None))
  }

  /**
   The entries that an operation leaves which finds the table as it is `before`, when rows are looked up in
   one table and read again in another.
   */
  ghost predicate Leaves<D(!new)>(look: Table<D>, before: Table<D>, op: Op<D>, reread: Table<D>, es: seq<Entry<D>>) {
    match op
    case Create(row, view) => es == [Inserted(view, row, None)]
    case Update(where, change, view) =>
      Found(before, where).Some? && es == [Updated(view, Found(look, where), change(Found(before, where).value), where.id)]
    case Delete(where, view) =>
      Found(before, where).Some? && es == [Removed(view, Found(look, where), Found(before, where).value, where.id)]
    case Upsert(where, create, change, view) =>
      es == [Upserted(view, Found(look, where), Upsertion(Found(before, where), create, change), where.id)]
    case CreateManyAndReturn(rows, view) => es == Inserts(view, rows)
    case UpdateMany(matches, _, _) => exists olds :: Lists(look, matches, olds) && es == Changes(olds, reread)
    case DeleteMany(matches, _) => exists olds :: Lists(look, matches, olds) && es == Removals(olds)
    case CreateMany(rows) => es == [SummaryOf(rows)]
  }

  /** The row that an upsert leaves. */
  function Upsertion<D>(found: Option<Row<D>>, create: Row<D>, change: Row<D> -> Row<D>): Row<D> {
    if found.Some? then change(found.value) else create
  }

  /** What is committed and, while a transaction is open, the table as the transaction has made it. */
  datatype Db<D> = Db(committed: Table<D>, working: Option<Table<D>>) {
    /** The table that operations work on. */
    function Current(): Table<D> {
      if working.Some? then working.value else committed
    }

    function With(t: Table<D>): Db<D> {
      if working.Some? then Db(committed, Some(t)) else Db(t, None)
    }
  }

  predicate ValidDb<D(==)>(s: Db<D>) {
    ValidTable(s.committed) && ValidTable(s.Current())
  }

  datatype Event<!D> = Begin | Do(op: Op<D>) | Commit | Rollback

  /** One event and the entries it leaves. A rejected operation leaves none, and is the end of the transaction it is in. */
  ghost predicate Step<D(!new)>(s: Db<D>, event: Event<D>, s': Db<D>, es: seq<Entry<D>>) {
    match event
    case Begin => s.working.None? && s' == Db(s.committed, Some(s.committed)) && es == []
    case Commit => s.working.Some? && s' == Db(s.Current(), None) && es == []
    case Rollback => s.working.Some? && s' == Db(s.committed, None) && es == []
    case Do(op) =>
      match Effect(s.Current(), op)
      case None => s' == Db(s.committed, None) && es == []
      case Some(t) => s' == s.With(t) && Leaves(s.committed, s.Current(), op, s'.committed, es)
  }

  class AuditedClient<!D(==,!new)> {
    var db: Db<D>
    var trail: seq<Entry<D>>

    constructor (initial: Table<D>)
      requires ValidTable(initial)
      ensures db == Db(initial, None) && trail == []
    {
      db := Db(initial, None);
      trail := [];
    }

    method BeginTransaction()
      requires db.working.None?
      modifies this`db
      ensures Step(old(db), Event<D>.Begin, db, [])
    {
      db := Db(db.committed, Some(db.committed));
    }

    method CommitTransaction()
      requires db.working.Some?
      modifies this`db
      ensures Step(old(db), Event<D>.Commit, db, [])
    {
      db := Db(db.working.value, None);
    }

    /** The trail keeps what the transaction has logged. */
    method RollbackTransaction()
      requires db.working.Some?
      modifies this`db
      ensures Step(old(db), Event<D>.Rollback, db, [])
    {
      db := Db(db.committed, None);
    }

    method WriteAudit(recordId: string, action: Action, oldValue: Option<Json<D>>, newValue: Option<Json<D>>)
      modifies this`trail
      ensures trail == old(trail) + [Entry(recordId, action, oldValue, newValue)]
    {
      trail := trail + [Entry(recordId, action, oldValue, newValue)];
    }

    /** query(args): the operation itself, in the caller's transaction if there is one; false is an exception. */
    method Query(op: Op<D>) returns (ok: bool)
      modifies this`db
      ensures ok == Effect(old(db).Current(), op).Some?
      ensures db == if ok then old(db).With(Effect(old(db).Current(), op).value) else Db(old(db).committed, None)
    {
      var next := Effect(db.Current(), op);
      if next.None? {
        db := Db(db.committed, None);
        return false;
      }
      db := db.With(next.value);
      return true;
    }

    /** findMany through the base client: the committed rows that match, in an order of the database's own. */
    method LookupMatching(matches: Row<D> -> bool) returns (olds: seq<Row<D>>)
      requires ValidTable(db.committed)
      ensures Lists(db.committed, matches, olds)
    {
      olds := [];
      var table := db.committed;
      var ids: set<Id> := set id | id in table && matches(table[id]);
      while ids != {}
        invariant forall id :: id in ids ==> id in table && matches(table[id])
        invariant forall r :: r in olds ==> r.id in table && table[r.id] == r && matches(r) && r.id !in ids
        invariant forall id :: id in table && matches(table[id]) ==> id in ids || table[id] in olds
        invariant forall i, j :: 0 <= i < j < |olds| ==> olds[i].id != olds[j].id
        decreases |ids|
      {
        var id: Id :| id in ids;
        assert forall r :: r in olds ==> r.id != id;
        assert forall i :: 0 <= i < |olds| ==> olds[i] in olds;
        olds := olds + [table[id]];
        ids := ids - {id};
      }
    }

    /** A row of its own for each row that a createManyAndReturn returns. */
    method WriteInserts(view: View<D>, rows: seq<Row<D>>)
      modifies this`trail
      ensures trail == old(trail) + Inserts(view, rows)
    {
      hide RecordId, Shown;
      for i := 0 to |rows|
        invariant trail == old(trail) + Inserts(view, rows)[..i]
      {
        WriteAudit(RecordId(view, rows[i], None), INSERT, None, Some(Shown(view, rows[i])));
      }
      assert Inserts(view, rows)[..|rows|] == Inserts(view, rows);
    }

    method WriteRemovals(olds: seq<Row<D>>)
      modifies this`trail
      ensures trail == old(trail) + Removals(olds)
    {
      hide Whole;
      for i := 0 to |olds|
        invariant trail == old(trail) + Removals(olds)[..i]
      {
        WriteAudit(olds[i].id, DELETE, Some(Whole(olds[i])), None);
      }
      assert Removals(olds)[..|olds|] == Removals(olds);
    }

    /** The new values come from a map of the listed rows that were read again. */
    method WriteChanges(olds: seq<Row<D>>, reread: Table<D>)
      modifies this`trail
      ensures trail == old(trail) + Changes(olds, reread)
    {
      hide Get, Serialize, Whole;
      var ids: set<Id> := set r | r in olds :: r.id;
      var newById := map id | id in reread && id in ids :: reread[id];
      for i := 0 to |olds|
        invariant trail == old(trail) + Changes(olds, reread)[..i]
      {
        assert olds[i] in olds;
        SameGet(newById, reread, olds[i].id);
        WriteAudit(olds[i].id, UPDATE, Some(Whole(olds[i])), Serialize(Get(newById, olds[i].id)));
      }
      assert Changes(olds, reread)[..|olds|] == Changes(olds, reread);
    }

    /** runAudit: what is written for each operation. */
    method RunAudit(op: Op<D>) returns (ok: bool)
      requires ValidDb(db)
      modifies this
      ensures ok == Effect(old(db).Current(), op).Some?
      ensures old(trail) <= trail && Step(old(db), Do(op), db, trail[|old(trail)|..])
    {
      hide Effect, Lists, ValidTable, Found, Get, Serialize, Whole, Shown, RecordId, Inserts, Removals, Changes;
      var before := db.Current();
      match op {
        case CreateMany(rows) =>
          ok := Query(op);
          if !ok { return; }
          WriteAudit("", INSERT, None, Some(Summary(rows, |rows|)));
        case CreateManyAndReturn(rows, view) =>
          ok := Query(op);
          if !ok { return; }
          WriteInserts(view, rows);
        case DeleteMany(matches, _) =>
          var olds := LookupMatching(matches);
          ok := Query(op);
          if !ok { return; }
          WriteRemovals(olds);
        case UpdateMany(matches, _, _) =>
          var olds := LookupMatching(matches);
          ok := Query(op);
          if !ok { return; }
          WriteChanges(olds, db.committed);
        case Upsert(where, create, change, view) =>
          var existing := Found(db.committed, where);
          ok := Query(op);
          if !ok { return; }
          var result := Upsertion(Found(before, where), create, change);
          NothingIsNull<D>();
          WriteAudit(RecordId(view, result, where.id), if existing.Some? then UPDATE else INSERT, Serialize(existing), Some(Shown(view, result)));
        case Update(where, change, view) =>
          var oldValue := Found(db.committed, where);
          ok := Query(op);
          if !ok { return; }
          HasFound(before, op);
          var result := change(Found(before, where).value);
          WriteAudit(RecordId(view, result, where.id), UPDATE, Serialize(oldValue), Some(Shown(view, result)));
        case Delete(where, view) =>
          var oldValue := Found(db.committed, where);
          ok := Query(op);
          if !ok { return; }
          HasFound(before, op);
          var result := Found(before, where).value;
          WriteAudit(RecordId(view, result, where.id), DELETE, Serialize(oldValue), None);
        case Create(row, view) =>
          ok := Query(op);
          if !ok { return; }
          WriteAudit(RecordId(view, row, None), INSERT, None, Some(Shown(view, row)));
      }
    }
  }

  lemma NothingIsNull<D>()
    ensures Serialize<D>(None) == None
  {}

  lemma SameGet<D>(a: Table<D>, b: Table<D>, id: Id)
    requires (id in a <==> id in b) && (id in a ==> a[id] == b[id])
    ensures Get(a, id) == Get(b, id)
  {}

  /** An update or a delete that goes through has found its row. */
  lemma HasFound<D>(t: Table<D>, op: Op<D>)
    requires (op.Update? || op.Delete?) && Effect(t, op).Some?
    ensures Found(t, op.where).Some?
  {}

  // ---------------------------------------------------------------- reading the trail

  /** The row that an entry's value stands for; an id that is not in the value is taken from the entry. */
  function Meant<D>(recordId: Id, value: Option<Json<D>>): Option<Row<D>> {
    match value
    case Some(Obj(id, data)) => Some(Row(if id.Some? then id.value else recordId, data))
    case _ => None
  }

  /** The table with the row of an entry set to one of its values. An entry without a record id is about no row. */
  function Put<D>(t: Table<D>, recordId: string, value: Option<Json<D>>): Table<D> {
    if recordId == "" then t
    else
      match Meant(recordId, value)
      case None => t - {recordId}
      case Some(row) => t[recordId := row]
  }

  /** The trail read forwards, putting new values in. */
  function Replay<D>(t: Table<D>, es: seq<Entry<D>>): Table<D> {
    if es == [] then t else Put(Replay(t, es[..|es| - 1]), es[|es| - 1].recordId, es[|es| - 1].newValue)
  }

  /** The trail read backwards, putting old values back. */
  function Undo<D>(t: Table<D>, es: seq<Entry<D>>): Table<D>
    decreases |es|
  {
    if es == [] then t else Undo(Put(t, es[|es| - 1].recordId, es[|es| - 1].oldValue), es[..|es| - 1])
  }

  /** One of the first n entries is about id. */
  predicate Named<D>(es: seq<Entry<D>>, n: nat, id: Id)
    requires n <= |es|
  {
    exists i :: 0 <= i < n && es[i].recordId == id
  }

  /** The entries name every row that changes. */
  ghost predicate NameChanges<D(!new)>(before: Table<D>, after: Table<D>, es: seq<Entry<D>>) {
    forall id: Id :: Get(before, id) != Get(after, id) ==> Named(es, |es|, id)
  }

  /** The new values are what the rows that are named are after the change. */
  ghost predicate NewValuesHold<D(!new)>(after: Table<D>, es: seq<Entry<D>>) {
    forall i :: 0 <= i < |es| ==> es[i].recordId != "" && Meant(es[i].recordId, es[i].newValue) == Get(after, es[i].recordId)
  }

  /** The old values are what they were before it. */
  ghost predicate OldValuesHold<D(!new)>(before: Table<D>, es: seq<Entry<D>>) {
    forall i :: 0 <= i < |es| ==> es[i].recordId != "" && Meant(es[i].recordId, es[i].oldValue) == Get(before, es[i].recordId)
  }

  lemma {:induction false} ReplayAt<D(!new)>(before: Table<D>, after: Table<D>, es: seq<Entry<D>>, n: nat, id: Id)
    requires NewValuesHold(after, es) && n <= |es|
    ensures Get(Replay(before, es[..n]), id) == if Named(es, n, id) then Get(after, id) else Get(before, id)
  {
    if n > 0 {
      assert es[..n][..n - 1] == es[..n - 1];
      ReplayAt(before, after, es, n - 1, id);
      assert es[..n][n - 1] == es[n - 1];
      assert Named(es, n, id) <==> Named(es, n - 1, id) || es[n - 1].recordId == id;
    }
  }

  lemma {:induction false} UndoAt<D(!new)>(before: Table<D>, after: Table<D>, es: seq<Entry<D>>, t: Table<D>, n: nat, id: Id)
    requires OldValuesHold(before, es) && NameChanges(before, after, es) && n <= |es|
    requires forall x: Id :: Get(t, x) == Get(before, x) || (Get(t, x) == Get(after, x) && Named(es, n, x))
    ensures Get(Undo(t, es[..n]), id) == Get(before, id)
    decreases n
  {
    if n > 0 {
      var e := es[n - 1];
      assert es[..n][..n - 1] == es[..n - 1] && es[..n][n - 1] == e;
      var t' := Put(t, e.recordId, e.oldValue);
      forall x: Id ensures Get(t', x) == Get(before, x) || (Get(t', x) == Get(after, x) && Named(es, n - 1, x)) {
        assert Named(es, n, x) <==> Named(es, n - 1, x) || e.recordId == x;
      }
      UndoAt(before, after, es, t', n - 1, id);
    }
  }

  lemma SameTable<D(!new)>(a: Table<D>, b: Table<D>)
    requires forall id: Id :: Get(a, id) == Get(b, id)
    ensures a == b
  {
    assert forall id: Id :: id in a <==> Get(a, id).Some?;
    assert forall id: Id :: id in b <==> Get(b, id).Some?;
    assert a.Keys == b.Keys;
    forall id | id in a ensures a[id] == b[id] { assert Get(a, id) == Get(b, id); }
  }

  lemma {:induction false} Replays<D(!new)>(before: Table<D>, after: Table<D>, es: seq<Entry<D>>)
    requires NewValuesHold(after, es) && NameChanges(before, after, es)
    ensures Replay(before, es) == after
  {
    assert es[..|es|] == es;
    forall id: Id ensures Get(Replay(before, es), id) == Get(after, id) { ReplayAt(before, after, es, |es|, id); }
    SameTable(Replay(before, es), after);
  }

  lemma {:induction false} Undoes<D(!new)>(before: Table<D>, after: Table<D>, es: seq<Entry<D>>)
    requires OldValuesHold(before, es) && NameChanges(before, after, es)
    ensures Undo(after, es) == before
  {
    assert es[..|es|] == es;
    forall id: Id ensures Get(Undo(after, es), id) == Get(before, id) { UndoAt(before, after, es, after, |es|, id); }
    SameTable(Undo(after, es), before);
  }

  lemma {:induction false} ReplayConcat<D>(t: Table<D>, a: seq<Entry<D>>, b: seq<Entry<D>>)
    ensures Replay(t, a + b) == Replay(Replay(t, a), b)
  {
    if b == [] {
      assert a + b == a;
    } else {
      assert (a + b)[..|a + b| - 1] == a + b[..|b| - 1];
      ReplayConcat(t, a, b[..|b| - 1]);
    }
  }

  lemma {:induction false} UndoConcat<D>(t: Table<D>, a: seq<Entry<D>>, b: seq<Entry<D>>)
    ensures Undo(t, a + b) == Undo(Undo(t, b), a)
    decreases |b|
  {
    if b == [] {
      assert a + b == a;
    } else {
      assert (a + b)[..|a + b| - 1] == a + b[..|b| - 1];
      UndoConcat(Put(t, b[|b| - 1].recordId, b[|b| - 1].oldValue), a, b[..|b| - 1]);
    }
  }

  lemma OneEntry<D>(t: Table<D>, e: Entry<D>)
    ensures Replay(t, [e]) == Put(t, e.recordId, e.newValue) && Undo(t, [e]) == Put(t, e.recordId, e.oldValue)
  {
    assert [e][..0] == [];
  }

  /** Entries that are not about an id leave what is under it alone, both ways. */
  lemma {:induction false} NotAbout<D>(t: Table<D>, es: seq<Entry<D>>, x: Id)
    requires forall i :: 0 <= i < |es| ==> es[i].recordId != x
    ensures Get(Replay(t, es), x) == Get(t, x) && Get(Undo(t, es), x) == Get(t, x)
    decreases |es|
  {
    if es != [] {
      var rest := es[..|es| - 1];
      NotAbout(t, rest, x);
      NotAbout(Put(t, es[|es| - 1].recordId, es[|es| - 1].oldValue), rest, x);
    }
  }

  lemma NewIdIsLost<D>(t: Table<D>, after: Table<D>, es: seq<Entry<D>>, x: Id)
    requires x !in t && x in after && forall i :: 0 <= i < |es| ==> es[i].recordId != x
    ensures Replay(t, es) != after && Undo(after, es) != t
  {
    hide Replay, Undo;
    NotAbout(t, es, x);
    NotAbout(after, es, x);
  }

  // ---------------------------------------------------------------- when an operation is recorded

  /** The id that an entry is under: the one that is shown, or else the one that the where names. */
  predicate IdIs<D>(view: View<D>, row: Row<D>, named: Option<Id>, id: Id) {
    if view.showsId then row.id == id else named == Some(id)
  }

  predicate NoId<D>(view: View<D>, named: Option<Id>) {
    !view.showsId && named.None?
  }

  ghost predicate UpdateReplays<D(!new)>(view: View<D>, was: Row<D>, row: Row<D>, named: Option<Id>) {
    (IdIs(view, row, named, was.id) && was.id == row.id && view.fields(row.data) == row.data) || (NoId(view, named) && row == was)
  }

  ghost predicate UpdateUndoes<D(!new)>(view: View<D>, seen: Option<Row<D>>, was: Row<D>, row: Row<D>, named: Option<Id>) {
    (IdIs(view, row, named, was.id) && was.id == row.id && seen == Some(was)) || (NoId(view, named) && row == was)
  }

  predicate Listed<D>(look: Table<D>, matches: Row<D> -> bool, id: Id) {
    id in look && matches(look[id])
  }

  /** The table is as another one was, except for the listed rows, which are as they are in a third. */
  ghost predicate Merges<D(!new)>(t: Table<D>, rest: Table<D>, listed: Table<D>, look: Table<D>, matches: Row<D> -> bool) {
    forall id: Id :: Get(t, id) == if Listed(look, matches, id) then Get(listed, id) else Get(rest, id)
  }

  /**
   Will the operation leave entries that replay it? They need the id of a row that stays under it and all its
   fields; an updateMany may change only rows that are listed, into what is read again; a deleteMany
   must delete just what is listed; and no summary will do.
   */
  ghost predicate Replayable<D(!new)>(look: Table<D>, before: Table<D>, op: Op<D>, after: Table<D>, reread: Table<D>) {
    match op
    case Create(row, view) => view.showsId && view.fields(row.data) == row.data
    case Update(where, change, view) =>
      Found(before, where).Some? ==> UpdateReplays(view, Found(before, where).value, change(Found(before, where).value), where.id)
    case Delete(where, view) => Found(before, where).Some? ==> !NoId(view, where.id)
    case Upsert(where, create, change, view) =>
      if Found(before, where).Some? then UpdateReplays(view, Found(before, where).value, change(Found(before, where).value), where.id)
      else IdIs(view, create, where.id, create.id) && view.fields(create.data) == create.data
    case CreateManyAndReturn(rows, view) =>
      rows == [] || (view.showsId && forall i :: 0 <= i < |rows| ==> view.fields(rows[i].data) == rows[i].data)
    case UpdateMany(matches, _, _) => Merges(after, before, reread, look, matches)
    case DeleteMany(matches, _) => Merges(after, before, map[], look, matches)
    case CreateMany(rows) => rows == []
  }

  /** Will it leave entries that undo it? That needs not the fields that are returned, but that the lookup sees what the operation finds. */
  ghost predicate Undoable<D(!new)>(look: Table<D>, before: Table<D>, op: Op<D>, after: Table<D>) {
    match op
    case Create(row, view) => view.showsId
    case Update(where, change, view) =>
      Found(before, where).Some? ==>
      UpdateUndoes(view, Found(look, where), Found(before, where).value, change(Found(before, where).value), where.id)
    case Delete(where, view) =>
      Found(before, where).Some? ==>
      !NoId(view, where.id) && Found(look, where) == Found(before, where)
    case Upsert(where, create, change, view) =>
      if Found(before, where).Some?
      then UpdateUndoes(view, Found(look, where), Found(before, where).value, change(Found(before, where).value), where.id)
      else IdIs(view, create, where.id, create.id) && Found(look, where).None?
    case CreateManyAndReturn(rows, view) => rows == [] || view.showsId
    case UpdateMany(matches, _, _) => Merges(before, after, look, look, matches)
    case DeleteMany(matches, _) => Merges(before, after, look, look, matches)
    case CreateMany(rows) => rows == []
  }

  /** The entry of a create, or of an upsert that creates though the lookup may have seen a row. */
  lemma {:induction false} InsertIff<D(!new)>(t: Table<D>, view: View<D>, seen: Option<Row<D>>, row: Row<D>, named: Option<Id>)
    requires InsertOne(t, row).Some?
    ensures var after, es := InsertOne(t, row).value, [Upserted(view, seen, row, named)];
            (Replay(t, es) == after <==> IdIs(view, row, named, row.id) && view.fields(row.data) == row.data) &&
            (Undo(after, es) == t <==> IdIs(view, row, named, row.id) && seen.None?)
  {
    hide Replay, Undo;
    var after, e := InsertOne(t, row).value, Upserted(view, seen, row, named);
    if e.recordId == row.id {
      OneEntry(t, e);
      OneEntry(after, e);
      assert Put(t, e.recordId, e.newValue)[row.id] == Row(row.id, view.fields(row.data)) && after[row.id] == row;
      if seen.None? {
        assert Put(after, e.recordId, e.oldValue) == t;
      } else {
        assert row.id in Put(after, e.recordId, e.oldValue) && row.id !in t;
      }
    } else {
      NewIdIsLost(t, after, [e], row.id);
    }
  }

  /**
   The entry of an update, or of an upsert that updates, by the id or by other fields: its result shown in part
   or moved to another id, and the lookup having seen the same row, another one or none.
   */
  lemma {:induction false} UpdateIff<D(!new)>(t: Table<D>, view: View<D>, seen: Option<Row<D>>, was: Row<D>, row: Row<D>,
                                              named: Option<Id>, e: Entry<D>)
    requires Get(t, was.id) == Some(was) && Replace(t, was.id, row).Some? && (named.Some? ==> named.value == was.id)
    requires e == Updated(view, seen, row, named) || e == Upserted(view, seen, row, named)
    ensures var after := Replace(t, was.id, row).value;
            (Replay(t, [e]) == after <==> UpdateReplays(view, was, row, named)) &&
            (Undo(after, [e]) == t <==> UpdateUndoes(view, seen, was, row, named))
  {
    var after := Replace(t, was.id, row).value;
    OneEntry(t, e);
    OneEntry(after, e);
    hide Replay, Undo;
    var replayed, undone := Put(t, e.recordId, e.newValue), Put(after, e.recordId, e.oldValue);
    if row.id != was.id {
      assert row.id in after && row.id !in t && was.id in t && was.id !in after;
      assert row.id in undone || was.id !in undone;
      assert was.id in replayed || row.id !in replayed;
    } else if e.recordId == "" {
      assert after[was.id] == row && t[was.id] == was;
    } else {
      assert replayed[was.id] == Row(was.id, view.fields(row.data)) && after[was.id] == row;
      assert Get(undone, was.id) == seen;
      if seen == Some(was) { assert undone == t; }
    }
  }

  lemma {:induction false} DeleteIff<D(!new)>(t: Table<D>, view: View<D>, seen: Option<Row<D>>, was: Row<D>, named: Option<Id>)
    requires Get(t, was.id) == Some(was) && (named.Some? ==> named.value == was.id)
    ensures var after, es := t - {was.id}, [Removed(view, seen, was, named)];
            (Replay(t, es) == after <==> !NoId(view, named)) &&
            (Undo(after, es) == t <==> !NoId(view, named) && seen == Some(was))
  {
    var after, e := t - {was.id}, Removed(view, seen, was, named);
    OneEntry(t, e);
    OneEntry(after, e);
    hide Replay, Undo;
    assert was.id in t && was.id !in after;
    if e.recordId != "" {
      assert Get(Put(after, e.recordId, e.oldValue), was.id) == seen;
      if seen == Some(was) { assert Put(after, e.recordId, e.oldValue) == t; }
    }
  }

  /** createMany: the summary records the change if and only if no row was created. */
  lemma {:induction false} SummaryIff<D(!new)>(t: Table<D>, rows: seq<Row<D>>)
    requires InsertAll(t, rows).Some?
    ensures var after := InsertAll(t, rows).value;
            (Replay(t, [SummaryOf(rows)]) == after <==> rows == []) && (Undo(after, [SummaryOf(rows)]) == t <==> rows == [])
  {
    OneEntry(t, SummaryOf(rows));
    OneEntry(InsertAll(t, rows).value, SummaryOf(rows));
    InsertAllIs(t, rows);
    if rows != [] { assert rows[0].id !in t && Get(InsertAll(t, rows).value, rows[0].id) == Some(rows[0]); }
  }

  lemma {:induction false} InsertAllIs<D(!new)>(t: Table<D>, rows: seq<Row<D>>)
    requires InsertAll(t, rows).Some?
    ensures forall i :: 0 <= i < |rows| ==> rows[i].id !in t && Get(InsertAll(t, rows).value, rows[i].id) == Some(rows[i])
    ensures forall id: Id :: Get(InsertAll(t, rows).value, id) == Get(t, id) || exists i :: 0 <= i < |rows| && rows[i].id == id
    ensures ValidTable(t) ==> ValidTable(InsertAll(t, rows).value)
    decreases |rows|
  {
    if rows != [] {
      var t' := InsertOne(t, rows[0]).value;
      InsertAllIs(t', rows[1..]);
      forall i | 0 < i < |rows| ensures rows[i] == rows[1..][i - 1] {}
    }
  }

  /** The table as the entries of a createManyAndReturn show it. */
  function ShownTable<D>(t: Table<D>, after: Table<D>, view: View<D>): Table<D> {
    map id | id in after :: if id in t then after[id] else Row(id, view.fields(after[id].data))
  }

  lemma {:induction false} InsertsIff<D(!new)>(t: Table<D>, view: View<D>, rows: seq<Row<D>>)
    requires ValidTable(t) && InsertAll(t, rows).Some?
    ensures var after, es := InsertAll(t, rows).value, Inserts(view, rows);
            (Replay(t, es) == after <==>
               rows == [] || (view.showsId && forall i :: 0 <= i < |rows| ==> view.fields(rows[i].data) == rows[i].data)) &&
            (Undo(after, es) == t <==> rows == [] || view.showsId)
  {
    var after, es := InsertAll(t, rows).value, Inserts(view, rows);
    InsertAllIs(t, rows);
    if rows != [] {
      hide InsertAll, Replay, Undo;
      if view.showsId {
        InsertsName(t, view, rows, after);
        InsertsAreShown(t, view, rows, after);
        Replays(t, ShownTable(t, after, view), es);
        Undoes(t, after, es);
      } else {
        assert Get(after, rows[0].id) == Some(rows[0]);
        NewIdIsLost(t, after, es, rows[0].id);
      }
    }
  }

  lemma InsertsName<D(!new)>(t: Table<D>, view: View<D>, rows: seq<Row<D>>, after: Table<D>)
    requires view.showsId && forall id: Id :: Get(after, id) == Get(t, id) || exists i :: 0 <= i < |rows| && rows[i].id == id
    requires forall i :: 0 <= i < |rows| ==> rows[i].id !in t
    ensures NameChanges(t, after, Inserts(view, rows)) && OldValuesHold(t, Inserts(view, rows))
    ensures NameChanges(t, ShownTable(t, after, view), Inserts(view, rows))
  {
    var es := Inserts(view, rows);
    forall id: Id | Get(t, id) != Get(after, id) || Get(t, id) != Get(ShownTable(t, after, view), id) ensures Named(es, |es|, id) {
      assert Get(t, id) == Get(after, id) ==> Get(t, id) == Get(ShownTable(t, after, view), id);
      var i :| 0 <= i < |rows| && rows[i].id == id;
      assert es[i].recordId == id;
    }
  }

  lemma InsertsAreShown<D(!new)>(t: Table<D>, view: View<D>, rows: seq<Row<D>>, after: Table<D>)
    requires view.showsId && ValidTable(t) && forall i :: 0 <= i < |rows| ==> rows[i].id !in t && Get(after, rows[i].id) == Some(rows[i])
    requires forall id: Id :: Get(after, id) == Get(t, id) || exists i :: 0 <= i < |rows| && rows[i].id == id
    ensures NewValuesHold(ShownTable(t, after, view), Inserts(view, rows))
    ensures ShownTable(t, after, view) == after <==> forall i :: 0 <= i < |rows| ==> view.fields(rows[i].data) == rows[i].data
  {
    var shown := ShownTable(t, after, view);
    forall i | 0 <= i < |rows| ensures shown[rows[i].id] == Row(rows[i].id, view.fields(rows[i].data)) && after[rows[i].id] == rows[i] {}
    if forall i :: 0 <= i < |rows| ==> view.fields(rows[i].data) == rows[i].data {
      forall id | id in after ensures shown[id] == after[id] {
        if id !in t {
          assert Get(after, id) != Get(t, id);
          var i :| 0 <= i < |rows| && rows[i].id == id;
        }
      }
    }
  }

  lemma ChangedRows<D(!new)>(t: Table<D>, hit: Row<D> -> bool, change: Row<D> -> Row<D>, x: Id)
    requires ValidTable(t) && ChangeAll(t, hit, change).Some?
    ensures var after := ChangeAll(t, hit, change).value;
            (x in after <==> exists id :: id in t && Changed(hit, change, t[id]).id == x) &&
            (x in t && !hit(t[x]) ==> Get(after, x) == Some(t[x]))
  {
    if x in t && !hit(t[x]) { assert Changed(hit, change, t[x]) == t[x]; }
  }

  /** One table, with the listed rows as they are in another. */
  function Overlay<D>(rest: Table<D>, listed: Table<D>, look: Table<D>, matches: Row<D> -> bool): (t: Table<D>)
    ensures forall id: Id :: Get(t, id) == if Listed(look, matches, id) then Get(listed, id) else Get(rest, id)
  {
    map id | id in rest.Keys + listed.Keys && (if Listed(look, matches, id) then id in listed else id in rest) ::
      if Listed(look, matches, id) then listed[id] else rest[id]
  }

  lemma MergesIsOverlay<D(!new)>(t: Table<D>, rest: Table<D>, listed: Table<D>, look: Table<D>, matches: Row<D> -> bool)
    ensures Merges(t, rest, listed, look, matches) <==> t == Overlay(rest, listed, look, matches)
  {
    if Merges(t, rest, listed, look, matches) { SameTable(t, Overlay(rest, listed, look, matches)); }
  }

  /** The entries of a list of rows name just the rows that are listed. */
  lemma {:induction false} NamedIffListed<D(!new)>(look: Table<D>, matches: Row<D> -> bool, olds: seq<Row<D>>, es: seq<Entry<D>>, id: Id)
    requires ValidTable(look) && Lists(look, matches, olds)
    requires |es| == |olds| && forall i :: 0 <= i < |es| ==> es[i].recordId == olds[i].id
    ensures Named(es, |es|, id) <==> Listed(look, matches, id)
  {
    if Listed(look, matches, id) {
      assert look[id] in olds;
      var i :| 0 <= i < |olds| && olds[i] == look[id];
      assert es[i].recordId == id;
    }
    if Named(es, |es|, id) {
      var i :| 0 <= i < |es| && es[i].recordId == id;
      assert olds[i] in olds;
    }
  }

  /** Entries of listed rows replay to the table with these rows as the entries show them, and undo to that with the rows that were listed. */
  lemma {:induction false} ListedEntries<D(!new)>(look: Table<D>, matches: Row<D> -> bool, olds: seq<Row<D>>, es: seq<Entry<D>>,
                                                 shown: Table<D>, before: Table<D>, after: Table<D>)
    requires ValidTable(look) && Lists(look, matches, olds) && |es| == |olds|
    requires forall i :: 0 <= i < |es| ==> es[i].recordId == olds[i].id && es[i].oldValue == Some(Whole(olds[i]))
    requires forall i :: 0 <= i < |es| ==> Meant(olds[i].id, es[i].newValue) == Get(shown, olds[i].id)
    ensures Replay(before, es) == after <==> Merges(after, before, shown, look, matches)
    ensures Undo(after, es) == before <==> Merges(before, after, look, look, matches)
  {
    hide Replay, Undo, Lists, Overlay, Merges;
    var forth, back := Overlay(before, shown, look, matches), Overlay(after, look, look, matches);
    forall id: Id ensures Named(es, |es|, id) <==> Listed(look, matches, id) { NamedIffListed(look, matches, olds, es, id); }
    forall i | 0 <= i < |es| ensures Listed(look, matches, es[i].recordId) && Get(look, es[i].recordId) == Some(olds[i]) {
      assert Named(es, |es|, es[i].recordId);
      IsListed(look, matches, olds, i);
    }
    Replays(before, forth, es);
    Undoes(back, after, es);
    MergesIsOverlay(after, before, shown, look, matches);
    MergesIsOverlay(before, after, look, look, matches);
  }

  lemma IsListed<D(!new)>(look: Table<D>, matches: Row<D> -> bool, olds: seq<Row<D>>, i: nat)
    requires Lists(look, matches, olds) && i < |olds|
    ensures Get(look, olds[i].id) == Some(olds[i]) && matches(olds[i])
  {
    assert olds[i] in olds;
  }

  /** updateMany, whatever tables the rows were looked up and read again in. */
  lemma {:induction false} UpdatesIff<D(!new)>(look: Table<D>, before: Table<D>, matches: Row<D> -> bool, olds: seq<Row<D>>,
                                              after: Table<D>, reread: Table<D>)
    requires ValidTable(look) && ValidTable(reread) && Lists(look, matches, olds)
    ensures Replay(before, Changes(olds, reread)) == after <==> Merges(after, before, reread, look, matches)
    ensures Undo(after, Changes(olds, reread)) == before <==> Merges(before, after, look, look, matches)
  {
    hide Lists, Merges, Replay, Undo;
    ListedEntries(look, matches, olds, Changes(olds, reread), reread, before, after);
  }

  lemma {:induction false} RemovalsIff<D(!new)>(look: Table<D>, before: Table<D>, matches: Row<D> -> bool, olds: seq<Row<D>>, after: Table<D>)
    requires ValidTable(look) && Lists(look, matches, olds)
    ensures Replay(before, Removals(olds)) == after <==> Merges(after, before, map[], look, matches)
    ensures Undo(after, Removals(olds)) == before <==> Merges(before, after, look, look, matches)
  {
    hide Lists, Merges, Replay, Undo;
    ListedEntries(look, matches, olds, Removals(olds), map[], before, after);
  }

  /** An updateMany that only hands ids around among the rows that match. */
  ghost predicate KeepsIds<D(!new)>(t: Table<D>, matches: Row<D> -> bool, takes: Row<D> -> bool, change: Row<D> -> Row<D>) {
    forall id :: id in t && matches(t[id]) && takes(t[id]) ==> change(t[id]).id in t && matches(t[change(t[id]).id])
  }

  /** When the ids are handed around among the rows that match, nothing else changes. */
  lemma OnlyMatchesChange<D(!new)>(t: Table<D>, matches: Row<D> -> bool, takes: Row<D> -> bool, change: Row<D> -> Row<D>, x: Id)
    requires ValidTable(t) && ChangeAll(t, Both(matches, takes), change).Some? && KeepsIds(t, matches, takes, change)
    requires Get(t, x) != Get(ChangeAll(t, Both(matches, takes), change).value, x)
    ensures x in t && matches(t[x])
  {
    ChangedRows(t, Both(matches, takes), change, x);
  }

  lemma {:induction false} NewIdIsFree<D(!new)>(t: Table<D>, matches: Row<D> -> bool, takes: Row<D> -> bool, change: Row<D> -> Row<D>, id: Id)
    requires ValidTable(t) && ChangeAll(t, Both(matches, takes), change).Some?
    requires id in t && matches(t[id]) && takes(t[id]) && !(change(t[id]).id in t && matches(t[change(t[id]).id]))
    ensures change(t[id]).id !in t && change(t[id]).id in ChangeAll(t, Both(matches, takes), change).value
  {
    var hit := Both(matches, takes);
    assert Changed(hit, change, t[id]).id == change(t[id]).id;
    assert forall x :: x in t && !hit(t[x]) ==> Changed(hit, change, t[x]).id == x;
  }

  /** Outside a transaction an updateMany is recorded, both ways, if and only if it hands ids around only among the rows that match. */
  lemma {:induction false} UpdatesOutsideIff<D(!new)>(t: Table<D>, matches: Row<D> -> bool, takes: Row<D> -> bool, change: Row<D> -> Row<D>)
    requires ValidTable(t) && ChangeAll(t, Both(matches, takes), change).Some?
    ensures var op, after := UpdateMany(matches, takes, change), ChangeAll(t, Both(matches, takes), change).value;
            (Replayable(t, t, op, after, after) <==> KeepsIds(t, matches, takes, change)) &&
            (Undoable(t, t, op, after) <==> KeepsIds(t, matches, takes, change))
  {
    hide ChangeAll;
    var after := ChangeAll(t, Both(matches, takes), change).value;
    if KeepsIds(t, matches, takes, change) {
      forall x: Id | Get(t, x) != Get(after, x) ensures Listed(t, matches, x) { OnlyMatchesChange(t, matches, takes, change, x); }
    } else {
      var id :| id in t && matches(t[id]) && takes(t[id]) && !(change(t[id]).id in t && matches(t[change(t[id]).id]));
      NewIdIsFree(t, matches, takes, change, id);
      assert Get(after, change(t[id]).id) != Get(t, change(t[id]).id);
    }
  }

  /** Outside a transaction the entries of a deleteMany replay it if and only if all rows that match are taken, and undo it anyway. */
  lemma {:induction false} RemovalsOutsideIff<D(!new)>(t: Table<D>, matches: Row<D> -> bool, takes: Row<D> -> bool)
    requires ValidTable(t)
    ensures var op := DeleteMany(matches, takes);
            var after := Effect(t, op).value;
            (Replayable(t, t, op, after, after) <==> forall id :: id in t && matches(t[id]) ==> takes(t[id])) &&
            Undoable(t, t, op, after)
  {
    var after := Effect(t, Op.DeleteMany(matches, takes)).value;
    if id :| id in t && matches(t[id]) && !takes(t[id]) {
      assert Listed(t, matches, id) && Get(after, id) == Some(t[id]);
    }
  }

  lemma EffectIsValid<D(!new)>(t: Table<D>, op: Op<D>)
    requires ValidTable(t) && Effect(t, op).Some?
    ensures ValidTable(Effect(t, op).value)
  {
    if op.CreateMany? || op.CreateManyAndReturn? { InsertAllIs(t, op.rows); }
  }

  lemma FoundIsRow<D>(t: Table<D>, where: Where<D>)
    requires ValidTable(t) && Found(t, where).Some?
    ensures Get(t, Found(t, where).value.id) == Found(t, where)
    ensures where.id.Some? ==> where.id.value == Found(t, where).value.id
  {}

  /**
   Exactly when an operation that goes through is recorded: its entries replay it, and undo it, if and only if
   it is of that kind, whatever the tables are in which rows are looked up and read again.
   */
  lemma {:induction false} StepRecordsIff<D(!new)>(look: Table<D>, before: Table<D>, op: Op<D>, after: Table<D>, reread: Table<D>, es: seq<Entry<D>>)
    requires ValidTable(look) && ValidTable(before) && ValidTable(reread)
    requires Effect(before, op) == Some(after) && Leaves(look, before, op, reread, es)
    ensures Replay(before, es) == after <==> Replayable(look, before, op, after, reread)
    ensures Undo(after, es) == before <==> Undoable(look, before, op, after)
  {
    hide Replay, Undo, Lists, ChangeAll, Replace, InsertOne, InsertAll, RecordId, UpdateReplays, UpdateUndoes, Merges, ValidTable, Changes, Removals,
         Updated, Inserted, Removed;
    match op {
      case Create(row, view) => InsertIff(before, view, None, row, None); CreateShows(view, row);
      case Update(where, change, view) =>
        FoundIsRow(before, where);
        UpdateIff(before, view, Found(look, where), Found(before, where).value, change(Found(before, where).value), where.id, es[0]);
      case Delete(where, view) =>
        FoundIsRow(before, where);
        DeleteIff(before, view, Found(look, where), Found(before, where).value, where.id);
      case Upsert(where, create, change, view) =>
        if Found(before, where).Some? {
          FoundIsRow(before, where);
          UpdateIff(before, view, Found(look, where), Found(before, where).value, change(Found(before, where).value), where.id, es[0]);
        } else {
          InsertIff(before, view, Found(look, where), create, where.id);
        }
      case CreateManyAndReturn(rows, view) => InsertsIff(before, view, rows);
      case UpdateMany(matches, _, _) =>
        var olds :| Lists(look, matches, olds) && es == Changes(olds, reread);
        UpdatesIff(look, before, matches, olds, after, reread);
      case DeleteMany(matches, _) =>
        var olds :| Lists(look, matches, olds) && es == Removals(olds);
        RemovalsIff(look, before, matches, olds, after);
      case CreateMany(rows) => SummaryIff(before, rows);
    }
  }

  /** The action of every entry is that of its operation; of an upsert it depends on what the lookup has seen. */
  lemma {:induction false} ActionsAreNamed<D(!new)>(look: Table<D>, before: Table<D>, op: Op<D>, reread: Table<D>, es: seq<Entry<D>>)
    requires Leaves(look, before, op, reread, es)
    ensures op.Create? || op.CreateManyAndReturn? || op.CreateMany? ==> forall e :: e in es ==> e.action == INSERT && e.oldValue.None?
    ensures op.Update? || op.UpdateMany? ==> forall e :: e in es ==> e.action == UPDATE
    ensures op.Delete? || op.DeleteMany? ==> forall e :: e in es ==> e.action == DELETE && e.newValue.None?
    ensures op.Upsert? ==> |es| == 1 && (es[0].action == INSERT <==> Found(look, op.where).None?) && es[0].action != DELETE
    ensures op.Create? || op.Update? || op.Delete? || op.CreateMany? ==> |es| == 1
    ensures op.CreateManyAndReturn? ==> |es| == |op.rows|
    ensures op.CreateMany? ==> es[0].newValue == Some(Summary(op.rows, |op.rows|)) && es[0].recordId == ""
  {}

  /** The row that an operation on one row returns. */
  ghost predicate Returns<D(!new)>(before: Table<D>, op: Op<D>, row: Row<D>) {
    match op
    case Create(created, _) => row == created
    case Update(where, change, _) => Found(before, where).Some? && row == change(Found(before, where).value)
    case Delete(where, _) => Found(before, where) == Some(row)
    case Upsert(where, create, change, _) => row == (match Found(before, where) case None => create case Some(was) => change(was))
    case _ => false
  }

  /** What the entry of an operation on one row holds: the id, what the lookup has seen, and what is shown of the row that is returned. */
  lemma {:induction false} EntryHolds<D(!new)>(look: Table<D>, before: Table<D>, op: Op<D>, reread: Table<D>, es: seq<Entry<D>>, row: Row<D>)
    requires Leaves(look, before, op, reread, es) && Returns(before, op, row)
    ensures |es| == 1
    ensures es[0].recordId == if op.view.showsId then row.id else if !op.Create? && op.where.id.Some? then op.where.id.value else ""
    ensures es[0].newValue == if op.Delete? then None else Some(Obj(if op.view.showsId then Some(row.id) else None, op.view.fields(row.data)))
    ensures es[0].oldValue == if op.Create? || Found(look, op.where).None? then None
                              else Some(Obj(Some(Found(look, op.where).value.id), Found(look, op.where).value.data))
  {}

  /** findUnique: the row under the id that the where selects, unless it names another id. */
  lemma {:induction false} FoundIff<D>(t: Table<D>, where: Where<D>, row: Row<D>)
    requires ValidTable(t)
    ensures Found(t, where) == Some(row) <==>
            where.find(t) == Some(row.id) && (where.id.Some? ==> where.id == Some(row.id)) && row.id in t && t[row.id] == row
  {}

  lemma CreateShows<D>(view: View<D>, row: Row<D>)
    ensures IdIs(view, row, None, row.id) <==> view.showsId
  {}

  // ---------------------------------------------------------------- what an operation does to the table

  predicate Has<D(==)>(t: Table<D>, row: Row<D>) {
    row.id in t && t[row.id] == row
  }

  /** Row by row, what an operation leaves in the table. */
  ghost predicate Keeps<D(!new)>(t: Table<D>, op: Op<D>, row: Row<D>) {
    match op
    case Create(created, _) => Has(t, row) || row == created
    case Update(where, change, _) => exists was :: Found(t, where) == Some(was) && ((Has(t, row) && row != was) || row == change(was))
    case Delete(where, _) => Has(t, row) && Found(t, where) != Some(row)
    case Upsert(where, create, change, _) =>
      if Found(t, where).None? then Has(t, row) || row == create
      else exists was :: Found(t, where) == Some(was) && ((Has(t, row) && row != was) || row == change(was))
    case CreateManyAndReturn(rows, _) => Has(t, row) || row in rows
    case UpdateMany(matches, takes, change) =>
      (Has(t, row) && !(matches(row) && takes(row))) || exists was :: Has(t, was) && matches(was) && takes(was) && row == change(was)
    case DeleteMany(matches, takes) => Has(t, row) && !(matches(row) && takes(row))
    case CreateMany(rows) => Has(t, row) || row in rows
  }

  lemma {:induction false} InsertAllHas<D(!new)>(t: Table<D>, rows: seq<Row<D>>, row: Row<D>)
    requires InsertAll(t, rows).Some?
    ensures Has(InsertAll(t, rows).value, row) <==> Has(t, row) || row in rows
    decreases |rows|
  {
    if rows != [] {
      var t' := InsertOne(t, rows[0]).value;
      InsertAllHas(t', rows[1..], row);
      assert rows == [rows[0]] + rows[1..];
      assert row in rows <==> row == rows[0] || row in rows[1..];
    }
  }

  lemma {:induction false} ChangeAllHas<D(!new)>(t: Table<D>, hit: Row<D> -> bool, change: Row<D> -> Row<D>, row: Row<D>)
    requires ValidTable(t) && ChangeAll(t, hit, change).Some?
    ensures Has(ChangeAll(t, hit, change).value, row) <==>
            (Has(t, row) && !hit(row)) || exists was :: Has(t, was) && hit(was) && row == change(was)
  {
    var after := ChangeAll(t, hit, change).value;
    if Has(after, row) {
      var id :| id in t && Changed(hit, change, t[id]).id == row.id && Changed(hit, change, t[id]) == row;
      assert Has(t, t[id]);
    }
    forall was | Has(t, was) ensures Has(after, Changed(hit, change, was)) { assert was.id in t; }
    if Has(t, row) && !hit(row) { assert Changed(hit, change, row) == row; }
  }

  /** An operation that goes through does to the rows just what it says. */
  lemma {:induction false} EffectKeeps<D(!new)>(t: Table<D>, op: Op<D>, row: Row<D>)
    requires ValidTable(t) && Effect(t, op).Some?
    ensures Has(Effect(t, op).value, row) <==> Keeps(t, op, row)
  {
    match op
    case CreateManyAndReturn(rows, _) => InsertAllHas(t, rows, row);
    case CreateMany(rows) => InsertAllHas(t, rows, row);
    case UpdateMany(matches, takes, change) => ChangeAllHas(t, Both(matches, takes), change, row);
    case _ =>
  }

  /** No row under the id, or only the one that leaves it. */
  predicate IdIsFree<D>(t: Table<D>, row: Row<D>, was: Id) {
    row.id == was || row.id !in t
  }

  /** Two rows would have the same id. */
  ghost predicate Clash<D(!new)>(t: Table<D>, rows: seq<Row<D>>) {
    (exists i :: 0 <= i < |rows| && rows[i].id in t) || exists i, j :: 0 <= i < j < |rows| && rows[i].id == rows[j].id
  }

  lemma {:induction false} InsertAllFailsIff<D(!new)>(t: Table<D>, rows: seq<Row<D>>)
    ensures InsertAll(t, rows).None? <==> Clash(t, rows)
    decreases |rows|
  {
    if rows != [] && rows[0].id !in t {
      var t', rest := InsertOne(t, rows[0]).value, rows[1..];
      InsertAllFailsIff(t', rest);
      if Clash(t', rest) {
        if i :| 0 <= i < |rest| && rest[i].id in t' {
          assert rest[i] == rows[i + 1];
          assert rows[i + 1].id in t || rows[0].id == rows[i + 1].id;
        } else {
          var i, j :| 0 <= i < j < |rest| && rest[i].id == rest[j].id;
          assert rows[i + 1].id == rows[j + 1].id;
        }
      }
      if Clash(t, rows) {
        if i :| 0 <= i < |rows| && rows[i].id in t {
          assert rest[i - 1].id in t';
        } else {
          var i, j :| 0 <= i < j < |rows| && rows[i].id == rows[j].id;
          assert rest[j - 1].id == rows[j].id;
          if i == 0 { assert rest[j - 1].id in t'; } else { assert rest[i - 1].id == rest[j - 1].id; }
        }
      }
    }
  }

  /** A row that is changed gets the id of another one, which may be changed too. */
  predicate Collide<D(==)>(t: Table<D>, matches: Row<D> -> bool, takes: Row<D> -> bool, change: Row<D> -> Row<D>, was: Row<D>, other: Row<D>) {
    Has(t, was) && Has(t, other) && was != other && matches(was) && takes(was) &&
    change(was).id == if matches(other) && takes(other) then change(other).id else other.id
  }

  /** Exactly when the database rejects an operation: no row to work on, or an id that is taken. */
  lemma {:induction false} RejectedIff<D(!new)>(t: Table<D>, op: Op<D>)
    requires ValidTable(t)
    ensures Effect(t, op).None? <==>
            match op
            case Create(row, _) => row.id in t
            case Update(where, change, _) => Found(t, where).None? || !IdIsFree(t, change(Found(t, where).value), Found(t, where).value.id)
            case Delete(where, _) => Found(t, where).None?
            case Upsert(where, create, change, _) =>
              if Found(t, where).None? then create.id in t else !IdIsFree(t, change(Found(t, where).value), Found(t, where).value.id)
            case UpdateMany(matches, takes, change) =>
              exists was, other :: Collide(t, matches, takes, change, was, other)
            case DeleteMany(_, _) => false
            case _ => Clash(t, op.rows)
  {
    match op
    case CreateManyAndReturn(rows, _) => InsertAllFailsIff(t, rows);
    case CreateMany(rows) => InsertAllFailsIff(t, rows);
    case UpdateMany(matches, takes, change) => ChangeAllFailsIff(t, matches, takes, change);
    case _ =>
  }

  lemma {:induction false} ChangeAllFailsIff<D(!new)>(t: Table<D>, matches: Row<D> -> bool, takes: Row<D> -> bool, change: Row<D> -> Row<D>)
    requires ValidTable(t)
    ensures ChangeAll(t, Both(matches, takes), change).None? <==>
            exists was, other :: Collide(t, matches, takes, change, was, other)
  {
    var hit := Both(matches, takes);
    if ChangeAll(t, hit, change).None? {
      var id, id' :| id in t && id' in t && id != id' && Changed(hit, change, t[id]).id == Changed(hit, change, t[id']).id;
      if hit(t[id]) {
        assert Collide(t, matches, takes, change, t[id], t[id']);
      } else {
        assert Collide(t, matches, takes, change, t[id'], t[id]);
      }
    }
    forall was, other | Collide(t, matches, takes, change, was, other) ensures ChangeAll(t, hit, change).None? {
      assert was.id in t && other.id in t && was.id != other.id;
      assert Changed(hit, change, t[was.id]).id == Changed(hit, change, t[other.id]).id;
    }
  }

  /** In a transaction operations change the working table only, until it is committed; one that is rejected gives it up. */
  lemma {:induction false} TransactionsHold<D(!new)>(s: Db<D>, event: Event<D>, s': Db<D>, es: seq<Entry<D>>)
    requires Step(s, event, s', es)
    ensures event.Begin? ==> s' == Db(s.committed, Some(s.committed))
    ensures event.Commit? ==> s.working == Some(s'.committed) && s'.working.None?
    ensures event.Rollback? ==> s'.committed == s.committed && s'.working.None?
    ensures event.Do? && s.working.Some? ==> s'.committed == s.committed && s'.working == Effect(s.working.value, event.op)
    ensures event.Do? && s.working.None? ==>
              s'.working.None? && Some(s'.committed) == if Effect(s.committed, event.op).None? then Some(s.committed) else Effect(s.committed, event.op)
  {}

  // ---------------------------------------------------------------- runs

  function Flatten<D>(ess: seq<seq<Entry<D>>>): seq<Entry<D>> {
    if ess == [] then [] else Flatten(ess[..|ess| - 1]) + ess[|ess| - 1]
  }

  /** Any sequence of events: the states it goes through, and the entries each event leaves. */
  ghost predicate IsRun<D(!new)>(states: seq<Db<D>>, events: seq<Event<D>>, ess: seq<seq<Entry<D>>>) {
    |states| == |events| + 1 == |ess| + 1 && ValidDb(states[0]) &&
    forall i :: 0 <= i < |events| ==> Step(states[i], events[i], states[i + 1], ess[i])
  }

  /** Nothing is thrown away that the trail holds: no transaction ends without commit unless it has changed nothing. */
  predicate NothingLost<D(==)>(s: Db<D>) {
    s.Current() == s.committed
  }

  /** Does the trail follow the event? */
  ghost predicate Forward<D(!new)>(s: Db<D>, event: Event<D>, s': Db<D>) {
    match event
    case Begin => true
    case Commit => true
    case Rollback => NothingLost(s)
    case Do(op) =>
      if Effect(s.Current(), op).None? then NothingLost(s)
      else Replayable(s.committed, s.Current(), op, s'.Current(), s'.committed)
  }

  /** Does the trail lead back over it? */
  ghost predicate Backward<D(!new)>(s: Db<D>, event: Event<D>, s': Db<D>) {
    match event
    case Begin => true
    case Commit => true
    case Rollback => NothingLost(s)
    case Do(op) =>
      if Effect(s.Current(), op).None? then NothingLost(s)
      else Undoable(s.committed, s.Current(), op, s'.Current())
  }

  lemma {:induction false} EventRecordsIff<D(!new)>(s: Db<D>, event: Event<D>, s': Db<D>, es: seq<Entry<D>>)
    requires ValidDb(s) && Step(s, event, s', es)
    ensures ValidDb(s')
    ensures Replay(s.Current(), es) == s'.Current() <==> Forward(s, event, s')
    ensures Undo(s'.Current(), es) == s.Current() <==> Backward(s, event, s')
  {
    hide Replayable, Undoable, Leaves, Effect, ValidTable;
    if event.Do? && Effect(s.Current(), event.op).Some? {
      hide Replay, Undo;
      EffectIsValid(s.Current(), event.op);
      StepRecordsIff(s.committed, s.Current(), event.op, s'.Current(), s'.committed, es);
    }
  }

  lemma {:induction false} RunIsValid<D(!new)>(states: seq<Db<D>>, events: seq<Event<D>>, ess: seq<seq<Entry<D>>>, n: nat)
    requires IsRun(states, events, ess) && n <= |events|
    ensures ValidDb(states[n])
  {
    hide Step, Forward, Backward, ValidDb;
    if n > 0 {
      RunIsValid(states, events, ess, n - 1);
      EventRecordsIff(states[n - 1], events[n - 1], states[n], ess[n - 1]);
    }
  }

  lemma RunShape<D(!new)>(states: seq<Db<D>>, events: seq<Event<D>>, ess: seq<seq<Entry<D>>>)
    requires IsRun(states, events, ess)
    ensures |states| == |events| + 1 == |ess| + 1
  {}

  /** Event number i is one that the trail follows. */
  ghost predicate Follows<D(!new)>(states: seq<Db<D>>, events: seq<Event<D>>, i: nat)
    requires i < |events| == |states| - 1
  {
    Forward(states[i], events[i], states[i + 1])
  }

  /** Event number i is one that the trail leads back over. */
  ghost predicate Reverts<D(!new)>(states: seq<Db<D>>, events: seq<Event<D>>, i: nat)
    requires i < |events| == |states| - 1
  {
    Backward(states[i], events[i], states[i + 1])
  }

  /** The trail up to point k leads from the first table to the one at k. */
  ghost predicate LeadsTo<D(!new)>(states: seq<Db<D>>, ess: seq<seq<Entry<D>>>, k: nat)
    requires k <= |ess| == |states| - 1
  {
    Replay(states[0].Current(), Flatten(ess[..k])) == states[k].Current()
  }

  lemma {:induction false} OneEventOn<D(!new)>(states: seq<Db<D>>, events: seq<Event<D>>, ess: seq<seq<Entry<D>>>, n: nat)
    requires IsRun(states, events, ess) && n < |events| && LeadsTo(states, ess, n)
    ensures LeadsTo(states, ess, n + 1) <==> Follows(states, events, n)
  {
    hide Step, Backward, Forward, ValidDb, Replay;
    assert ess[..n + 1][..n] == ess[..n] && ess[..n + 1][n] == ess[n];
    RunIsValid(states, events, ess, n);
    EventRecordsIff(states[n], events[n], states[n + 1], ess[n]);
    ReplayConcat(states[0].Current(), Flatten(ess[..n]), ess[n]);
  }

  /**
   A run, with transactions that are committed, rolled back or broken off: at every point the trail so far leads from
   the first table to the present one if and only if it follows every event.
   */
  lemma {:induction false} RunReplaysIff<D(!new)>(states: seq<Db<D>>, events: seq<Event<D>>, ess: seq<seq<Entry<D>>>, n: nat)
    requires IsRun(states, events, ess) && n <= |events|
    ensures (forall k :: 0 <= k <= n ==> LeadsTo(states, ess, k)) <==>
            (forall i :: 0 <= i < n ==> Follows(states, events, i))
  {
    hide *;
    RunShape(states, events, ess);
    if n == 0 {
      AtTheEnds(states, ess);
    } else {
      RunReplaysIff(states, events, ess, n - 1);
      if LeadsTo(states, ess, n - 1) { OneEventOn(states, events, ess, n - 1); }
    }
  }

  lemma {:induction false} FlattenCons<D>(es: seq<Entry<D>>, ess: seq<seq<Entry<D>>>)
    ensures Flatten([es] + ess) == es + Flatten(ess)
  {
    if ess != [] {
      var last := |ess| - 1;
      FlattenCons(es, ess[..last]);
      assert ([es] + ess)[..last + 1] == [es] + ess[..last];
    } else {
      assert ([es] + ess)[..0] == [];
    }
  }

  /** The trail from point k on leads from the last table back to the one at k. */
  ghost predicate LeadsBack<D(!new)>(states: seq<Db<D>>, ess: seq<seq<Entry<D>>>, k: nat)
    requires k <= |ess| == |states| - 1
  {
    Undo(states[|ess|].Current(), Flatten(ess[k..])) == states[k].Current()
  }

  lemma AtTheEnds<D(!new)>(states: seq<Db<D>>, ess: seq<seq<Entry<D>>>)
    requires |ess| == |states| - 1
    ensures LeadsTo(states, ess, 0) && LeadsBack(states, ess, |ess|)
  {
    assert ess[..0] == [] && ess[|ess|..] == [];
  }

  lemma {:induction false} OneEventBack<D(!new)>(states: seq<Db<D>>, events: seq<Event<D>>, ess: seq<seq<Entry<D>>>, n: nat)
    requires IsRun(states, events, ess) && n < |events| && LeadsBack(states, ess, n + 1)
    ensures LeadsBack(states, ess, n) <==> Reverts(states, events, n)
  {
    hide Step, Backward, Forward, ValidDb, Undo, Flatten;
    assert ess[n..] == [ess[n]] + ess[n + 1..];
    FlattenCons(ess[n], ess[n + 1..]);
    RunIsValid(states, events, ess, n);
    EventRecordsIff(states[n], events[n], states[n + 1], ess[n]);
    UndoConcat(states[|events|].Current(), ess[n], Flatten(ess[n + 1..]));
  }

  /** And back: the trail leads from the last table to each earlier one if and only if it leads back over every event between. */
  lemma {:induction false} RunUndoesIff<D(!new)>(states: seq<Db<D>>, events: seq<Event<D>>, ess: seq<seq<Entry<D>>>, n: nat)
    requires IsRun(states, events, ess) && n <= |events|
    ensures (forall k :: n <= k <= |events| ==> LeadsBack(states, ess, k)) <==>
            (forall i :: n <= i < |events| ==> Reverts(states, events, i))
    decreases |events| - n
  {
    hide *;
    RunShape(states, events, ess);
    if n == |events| {
      AtTheEnds(states, ess);
    } else {
      RunUndoesIff(states, events, ess, n + 1);
      if LeadsBack(states, ess, n + 1) { OneEventBack(states, events, ess, n); }
    }
  }

  // ---------------------------------------------------------------- where the trail does not replay

  /** A create that returns neither the id nor all fields leaves an entry about no row, which neither replays nor undoes it. */
  lemma {:induction false} SelectLosesCreate<D(!new)>(s: Db<D>, row: Row<D>, fields: D -> D, s': Db<D>, es: seq<Entry<D>>)
    requires ValidDb(s) && Step(s, Do(Op.Create(row, View(false, fields))), s', es) && row.id !in s.Current()
    ensures es == [Entry("", INSERT, None, Some(Obj(None, fields(row.data))))]
    ensures Replay(s.Current(), es) != s'.Current() && Undo(s'.Current(), es) != s.Current()
  {
    EventRecordsIff(s, Do(Op.Create(row, View(false, fields))), s', es);
  }

  /** A row that matches a deleteMany and that a limit leaves in the table is logged as deleted. */
  lemma {:induction false} LimitLogsTooMuch<D(!new)>(t: Table<D>, matches: Row<D> -> bool, takes: Row<D> -> bool, r: Row<D>,
                                                     s': Db<D>, es: seq<Entry<D>>)
    requires ValidTable(t) && Get(t, r.id) == Some(r) && matches(r) && !takes(r)
    requires Step(Db(t, None), Do(Op.DeleteMany(matches, takes)), s', es)
    ensures Get(s'.committed, r.id) == Some(r) && (exists e :: e in es && e.action == DELETE && e.recordId == r.id)
    ensures Replay(t, es) != s'.committed && Undo(s'.committed, es) == t
  {
    RemovalsOutsideIff(t, matches, takes);
    EventRecordsIff(Db(t, None), Do(Op.DeleteMany(matches, takes)), s', es);
    var olds :| Lists(t, matches, olds) && es == Removals(olds);
    assert r in olds;
    var i :| 0 <= i < |olds| && olds[i] == r;
    assert es[i] in es && es[i].recordId == r.id;
  }

  /** A create in a transaction that is rolled back: the trail keeps a row that the table does not have. */
  lemma {:induction false} RollbackLeavesInsert<D(!new)>(t: Table<D>, row: Row<D>, fields: D -> D, s1: Db<D>, s2: Db<D>, s3: Db<D>,
                                                         es: seq<Entry<D>>)
    requires ValidTable(t) && row.id !in t
    requires Step(Db(t, None), Begin, s1, []) && Step(s1, Do(Op.Create(row, View(true, fields))), s2, es) && Step(s2, Rollback, s3, [])
    ensures s3 == Db(t, None) && row.id in Replay(t, es) && Replay(t, es) != s3.committed
  {
    OneEntry(t, es[0]);
  }

  /** The entries of an updateMany inside a transaction show the committed rows as old and as new values: they replay to no change at all. */
  lemma {:induction false} TransactionLogsNoChange<D(!new)>(t: Table<D>, op: Op<D>, s1: Db<D>, s2: Db<D>, s3: Db<D>, es: seq<Entry<D>>)
    requires ValidTable(t) && op.UpdateMany? && Effect(t, op).Some?
    requires Step(Db(t, None), Begin, s1, []) && Step(s1, Do(op), s2, es) && Step(s2, Commit, s3, [])
    ensures s3.committed == Effect(t, op).value && (forall e :: e in es ==> e.newValue == e.oldValue) && Replay(t, es) == t
  {
    hide Replay, Undo;
    var olds :| Lists(t, op.matches, olds) && es == Changes(olds, t);
    forall i | 0 <= i < |olds| ensures es[i].newValue == es[i].oldValue { IsListed(t, op.matches, olds, i); }
    UpdatesIff(t, t, op.matches, olds, t, t);
  }
}

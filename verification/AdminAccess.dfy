/**
 Who may write through the admin panel (admin-panel/internal/web/handlers.go, internal/auth/store.go,
 internal/browser/query.go, with the tables of internal/db/migrations/0001_init.sql). Requests are
 handled one at a time, each as a whole, or in two steps, the checks and the write, with anything in between.
 Times are in seconds.
 */
module AdminAccess {
  import opened Common
  import N = Strconv

  const READ_WRITE := "read_write"
  const READ_ONLY := "read_only"
  const WRITE_MODE_TTL := 1800
  const SESSION_TTL := 43200

  datatype Session = Session(adminId: int, expiresAt: int, writeUntil: Option<int>)

  /** admin_users (the role of each id) and admin_sessions. */
  datatype State = State(now: int, roles: map<int, string>, sessions: map<string, Session>)

  datatype Table = Table(schema: string, name: string, keyType: string)

  /** A value bound to a primary key: a number where the key column is an integer and Go reads the text as one. */
  datatype Key = IntKey(n: int) | TextKey(s: string)

  function CoercePK(t: Table, id: string): Key {
    if "int" <= t.keyType && N.ParseInt(id).Some? then IntKey(N.ParseInt(id).value) else TextKey(id)
  }

  predicate IsAdminUsers(t: Table) {
    t.schema == "admin_panel" && t.name == "admin_users"
  }

  predicate IsAdminSessions(t: Table) {
    t.schema == "admin_panel" && t.name == "admin_sessions"
  }

  /** admin_users.id is a BIGINT. */
  predicate WellTyped(t: Table) {
    IsAdminUsers(t) ==> t.keyType == "int8"
  }

  predicate IsOwnAdminUserRow(t: Table, id: string, user: int) {
    IsAdminUsers(t) && N.ParseInt(id) == Some(user)
  }

  /** How the database reads a text that is bound to a BIGINT; None is an error. */
  type Convert = string -> Option<int>

  /** The database reads as Go does whatever Go can read. It may read more: blanks around a number, say. */
  ghost predicate Agrees(db: Convert) {
    forall s :: N.ParseInt(s).Some? ==> db(s) == N.ParseInt(s)
  }

  /** The id that a bound key stands for. */
  function KeyValue(db: Convert, k: Key): Option<int> {
    match k
    case IntKey(n) => Some(n)
    case TextKey(s) => db(s)
  }

  /** Does the key select the row of admin_users with this id? */
  predicate Selects(db: Convert, k: Key, id: int) {
    KeyValue(db, k) == Some(id)
  }

  lemma CoercedValue(db: Convert, t: Table, id: string)
    requires Agrees(db) && WellTyped(t) && IsAdminUsers(t)
    ensures KeyValue(db, CoercePK(t, id)) == db(id)
  {
    assert "int8"[..3] == "int";
  }

  /** An id that Go reads is bound as that number, and any other one as it is; in a table with another key all are. */
  lemma {:induction false} KeyIsBound(t: Table, id: string)
    ensures IsAdminUsers(t) && WellTyped(t) ==> CoercePK(t, id) == match N.ParseInt(id) case Some(n) => IntKey(n) case None => TextKey(id)
    ensures t.keyType == "uuid" ==> CoercePK(t, id) == TextKey(id)
  {
    assert "int8"[..3] == "int" && "uuid"[0] == 'u';
  }

  /**
   The own-row test agrees with the row that the bound key selects if and only if Go reads the id, or
   the database does not read it as the actor's.
   */
  lemma {:induction false} OwnRowTestIsExactIff(db: Convert, t: Table, id: string, user: int)
    requires Agrees(db) && WellTyped(t) && IsAdminUsers(t)
    ensures (IsOwnAdminUserRow(t, id, user) <==> Selects(db, CoercePK(t, id), user)) <==>
            (N.ParseInt(id).Some? || db(id) != Some(user))
  {
    CoercedValue(db, t, id);
  }

  // ---------------------------------------------------------------- sessions

  /** What LoadSession finds: the user's id and role now, and whether the write window is open. */
  datatype Actor = Actor(id: int, role: string, inWriteMode: bool)

  function LoadSession(s: State, token: string): Option<Actor> {
    if token == "" || token !in s.sessions then None
    else
      var x := s.sessions[token];
      if x.expiresAt <= s.now || x.adminId !in s.roles then None
      else
        var role := s.roles[x.adminId];
        Some(Actor(x.adminId, role, role == READ_WRITE && x.writeUntil.Some? && x.writeUntil.value > s.now))
  }

  datatype Failure = NotSignedIn | ReadOnlyRole | WriteModeOff | OwnAccount | NoSuchRow | Rejected

  function SetWriteMode(s: State, token: string, on: bool): Result<State, Failure> {
    if !on then
      Ok(if token in s.sessions then s.(sessions := s.sessions[token := s.sessions[token].(writeUntil := None)]) else s)
    else
      match LoadSession(s, token)
      case None => Err(NotSignedIn)
      case Some(actor) =>
        if actor.role != READ_WRITE then Err(ReadOnlyRole)
        else Ok(s.(sessions := s.sessions[token := s.sessions[token].(writeUntil := Some(s.now + WRITE_MODE_TTL))]))
  }

  // ---------------------------------------------------------------- writing rows

  /** The CHECK constraint on admin_users.role. */
  predicate ValidRole(role: string) {
    role == READ_ONLY || role == READ_WRITE
  }

  /**
   Repo.Update on admin_users, `data` being what the form has for columns of the table: the key column
   is never set, and without any column to set nothing happens.
   */
  function UpdateUser(db: Convert, s: State, key: Key, data: map<string, string>, rejected: bool): Result<State, Failure> {
    if data.Keys - {"id"} == {} then Ok(s)
    else
      match KeyValue(db, key)
      case None => Err(Rejected)
      case Some(n) =>
        if rejected then Err(Rejected)
        else if n !in s.roles then Err(NoSuchRow)
        else if "role" !in data then Ok(s)
        else if !ValidRole(data["role"]) then Err(Rejected)
        else Ok(s.(roles := s.roles[n := data["role"]]))
  }

  /** Repo.Delete on admin_users; sessions go with their user, and rows of the audit log may forbid it. */
  function DeleteUser(db: Convert, s: State, key: Key, rejected: bool): Result<State, Failure> {
    match KeyValue(db, key)
    case None => Err(Rejected)
    case Some(n) =>
      if rejected then Err(Rejected)
      else if n !in s.roles then Err(NoSuchRow)
      else Ok(State(s.now, s.roles - {n}, map t | t in s.sessions && s.sessions[t].adminId != n :: s.sessions[t]))
  }

  /** What a request asks for. The choices of the database that the panel does not control are part of it. */
  datatype Request =
    | Tick(to: int)
    | Login(adminId: int, token: string)
    | Toggle(token: string, on: bool)
    | Logout(token: string)
    | Update(token: string, table: Table, id: string, data: map<string, string>, rejected: bool, sessions: map<string, Session>)
    | Delete(token: string, table: Table, id: string, rejected: bool, sessions: map<string, Session>)
    | Insert(token: string, table: Table, newId: int, role: string, rejected: bool, sessions: map<string, Session>)
    | Bootstrap(newId: int)

  /** requireAuth and resolveWritable. */
  function Writer(s: State, token: string): Result<Actor, Failure> {
    match LoadSession(s, token)
    case None => Err(NotSignedIn)
    case Some(actor) => if actor.inWriteMode then Ok(actor) else Err(WriteModeOff)
  }

  /** A write to admin_sessions may leave any sessions; a write to any other table leaves them alone. */
  function ElsewhereWritten(s: State, t: Table, sessions: map<string, Session>): State {
    if IsAdminSessions(t) then s.(sessions := sessions) else s
  }

  /** The effect of a request once its actor is known and allowed to write. */
  function Act(db: Convert, s: State, actor: Actor, r: Request): Result<State, Failure> {
    match r
    case Update(_, t, id, data, rejected, sessions) =>
      if !IsAdminUsers(t) then Ok(ElsewhereWritten(s, t, sessions))
      else UpdateUser(db, s, CoercePK(t, id), if IsOwnAdminUserRow(t, id, actor.id) then data - {"role"} else data, rejected)
    case Delete(_, t, id, rejected, sessions) =>
      if IsOwnAdminUserRow(t, id, actor.id) then Err(OwnAccount)
      else if !IsAdminUsers(t) then Ok(ElsewhereWritten(s, t, sessions))
      else
        (match DeleteUser(db, s, CoercePK(t, id), rejected)
         case Err(NoSuchRow) => Ok(s)
         case done => done)
    case Insert(_, t, newId, role, rejected, sessions) =>
      if !IsAdminUsers(t) then Ok(ElsewhereWritten(s, t, sessions))
      else if rejected || newId in s.roles || !ValidRole(role) then Err(Rejected)
      else Ok(s.(roles := s.roles[newId := role]))
    case _ => Ok(s)
  }

  function Handle(db: Convert, s: State, r: Request): Result<State, Failure> {
    match r
    case Tick(to) => Ok(if to >= s.now then s.(now := to) else s)
    case Login(adminId, token) =>
      if adminId !in s.roles || token in s.sessions then Err(NotSignedIn)
      else Ok(s.(sessions := s.sessions[token := Session(adminId, s.now + SESSION_TTL, None)]))
    case Toggle(token, on) => SetWriteMode(s, token, on)
    case Logout(token) => Ok(s.(sessions := s.sessions - {token}))
    case Bootstrap(newId) => if s.roles == map[] then Ok(s.(roles := map[newId := READ_WRITE])) else Ok(s)
    case _ =>
      match Writer(s, r.token)
      case Err(e) => Err(e)
      case Ok(actor) => Act(db, s, actor, r)
  }

  /** The handlers, step by step on the tables. */
  class AdminPanel {
    const db: Convert
    var state: State

    constructor (db: Convert, state: State)
      ensures this.db == db && this.state == state
    {
      this.db := db;
      this.state := state;
    }

    method UpdateRow(token: string, table: Table, id: string, data: map<string, string>, rejected: bool,
                     sessions: map<string, Session>) returns (r: Result<(), Failure>)
      modifies this
      ensures match Handle(db, old(state), Update(token, table, id, data, rejected, sessions))
              case Err(e) => r == Err(e) && state == old(state)
              case Ok(next) => r == Ok(()) && state == next
    {
      var session := LoadSession(state, token);
      if session.None? { return Err(NotSignedIn); }
      if !session.value.inWriteMode { return Err(WriteModeOff); }
      var form := data;
      if IsOwnAdminUserRow(table, id, session.value.id) { form := form - {"role"}; }
      if IsAdminUsers(table) {
        var done := UpdateUser(db, state, CoercePK(table, id), form, rejected);
        if done.Err? { return Err(done.error); }
        state := done.value;
      } else {
        state := ElsewhereWritten(state, table, sessions);
      }
      return Ok(());
    }

    method DeleteRow(token: string, table: Table, id: string, rejected: bool, sessions: map<string, Session>)
      returns (r: Result<(), Failure>)
      modifies this
      ensures match Handle(db, old(state), Delete(token, table, id, rejected, sessions))
              case Err(e) => r == Err(e) && state == old(state)
              case Ok(next) => r == Ok(()) && state == next
    {
      var session := LoadSession(state, token);
      if session.None? { return Err(NotSignedIn); }
      if !session.value.inWriteMode { return Err(WriteModeOff); }
      if IsOwnAdminUserRow(table, id, session.value.id) { return Err(OwnAccount); }
      if IsAdminUsers(table) {
        var done := DeleteUser(db, state, CoercePK(table, id), rejected);
        if done.Err? && !done.error.NoSuchRow? { return Err(done.error); }
        if done.Ok? { state := done.value; }
      } else {
        state := ElsewhereWritten(state, table, sessions);
      }
      return Ok(());
    }
  }

  // ---------------------------------------------------------------- some admin can always write

  predicate HasWriter(s: State) {
    exists id :: id in s.roles && s.roles[id] == READ_WRITE
  }

  /** Every table a request names has the types of the schema. */
  predicate WellFormed(r: Request) {
    (r.Update? || r.Delete? || r.Insert?) ==> WellTyped(r.table)
  }

  function After(db: Convert, s: State, r: Request): State {
    match Handle(db, s, r) case Err(_) => s case Ok(next) => next
  }

  /** Is this a change of the actor's own row that the own-row test does not notice? */
  predicate Unnoticed(db: Convert, actor: Actor, r: Request) {
    (r.Update? || r.Delete?) && IsAdminUsers(r.table) && N.ParseInt(r.id).None? && db(r.id) == Some(actor.id)
  }

  predicate OnlyWriter(s: State, id: int) {
    forall x :: x in s.roles && s.roles[x] == READ_WRITE ==> x == id
  }

  /** An unnoticed change by which the only read_write admin gives up the role or the row. */
  predicate GivesUp(db: Convert, s: State, r: Request) {
    (r.Update? || r.Delete?) && Writer(s, r.token).Ok? &&
    var actor := Writer(s, r.token).value;
    Unnoticed(db, actor, r) && OnlyWriter(s, actor.id) && !r.rejected &&
    (r.Update? ==> "role" in r.data && r.data["role"] == READ_ONLY)
  }

  /** The actor of a write keeps row and role, unless the own-row test does not notice whose row it is. */
  lemma {:induction false} ActorKeepsRole(db: Convert, s: State, actor: Actor, r: Request)
    requires Agrees(db) && WellFormed(r) && !Unnoticed(db, actor, r)
    requires actor.id in s.roles && s.roles[actor.id] == READ_WRITE && Act(db, s, actor, r).Ok?
    ensures var s' := Act(db, s, actor, r).value;
            actor.id in s'.roles && s'.roles[actor.id] == READ_WRITE
  {
    if (r.Update? || r.Delete?) && IsAdminUsers(r.table) { CoercedValue(db, r.table, r.id); }
  }

  /** What an unnoticed change does: it is an ordinary one, to the actor's row. */
  lemma UnnoticedHits(db: Convert, s: State, r: Request)
    requires Agrees(db) && WellFormed(r) && (r.Update? || r.Delete?) && Writer(s, r.token).Ok?
    requires Unnoticed(db, Writer(s, r.token).value, r)
    ensures var id := Writer(s, r.token).value.id;
            id in s.roles && s.roles[id] == READ_WRITE &&
            (r.Delete? ==> After(db, s, r).roles == (if r.rejected then s.roles else s.roles - {id})) &&
            (r.Update? ==>
               var kept := r.rejected || "role" !in r.data || !ValidRole(r.data["role"]);
               After(db, s, r).roles == (if kept then s.roles else s.roles[id := r.data["role"]]))
  {
    CoercedValue(db, r.table, r.id);
    if r.Update? && "role" in r.data { assert "role" in r.data.Keys - {"id"}; }
  }

  /** Exactly when a request leaves a read_write admin: unless the only one gives up role or row unnoticed. */
  lemma {:induction false} StepKeepsWriterIff(db: Convert, s: State, r: Request)
    requires Agrees(db) && WellFormed(r) && HasWriter(s)
    ensures HasWriter(After(db, s, r)) <==> !GivesUp(db, s, r)
  {
    if (r.Update? || r.Delete? || r.Insert?) && Writer(s, r.token).Ok? {
      var actor := Writer(s, r.token).value;
      if Unnoticed(db, actor, r) {
        hide Handle, Agrees;
        UnnoticedHits(db, s, r);
        var roles := After(db, s, r).roles;
        if !OnlyWriter(s, actor.id) {
          var x :| x in s.roles && s.roles[x] == READ_WRITE && x != actor.id;
          assert x in roles && roles[x] == READ_WRITE;
        } else {
          assert |READ_ONLY| != |READ_WRITE|;
          assert forall x :: x in roles && x != actor.id ==> x in s.roles && s.roles[x] != READ_WRITE;
          assert actor.id in roles && roles[actor.id] == READ_WRITE <==> !GivesUp(db, s, r);
        }
      } else if Act(db, s, actor, r).Ok? {
        ActorKeepsRole(db, s, actor, r);
      }
    } else {
      assert s.roles != map[];
      assert After(db, s, r).roles == s.roles;
    }
  }

  function AfterAll(db: Convert, s: State, rs: seq<Request>): State {
    if rs == [] then s else After(db, AfterAll(db, s, rs[..|rs| - 1]), rs[|rs| - 1])
  }

  /** There is a read_write admin at every point of a run if and only if at none of them the only one gives up unnoticed. */
  lemma {:induction false} RunKeepsWriterIff(db: Convert, s: State, rs: seq<Request>, n: nat)
    requires Agrees(db) && HasWriter(s) && n <= |rs| && forall i :: 0 <= i < |rs| ==> WellFormed(rs[i])
    ensures (forall i :: 0 <= i <= n ==> HasWriter(AfterAll(db, s, rs[..i]))) <==>
            (forall i :: 0 <= i < n ==> !GivesUp(db, AfterAll(db, s, rs[..i]), rs[i]))
  {
    hide HasWriter, GivesUp, WellFormed, Agrees, After;
    if n == 0 {
      assert rs[..0] == [];
    } else {
      RunKeepsWriterIff(db, s, rs, n - 1);
      OneMore(db, s, rs, n);
      hide AfterAll;
      var before := AfterAll(db, s, rs[..n - 1]);
      if HasWriter(before) { StepKeepsWriterIff(db, before, rs[n - 1]); }
    }
  }

  lemma OneMore(db: Convert, s: State, rs: seq<Request>, n: nat)
    requires 0 < n <= |rs|
    ensures AfterAll(db, s, rs[..n]) == After(db, AfterAll(db, s, rs[..n - 1]), rs[n - 1])
  {
    assert rs[..n][..n - 1] == rs[..n - 1];
  }

  /** Starting with a read_write admin, every sequence of requests whose own-row tests notice whose row it is leaves one. */
  lemma {:induction false} SomeAdminCanAlwaysWrite(db: Convert, s: State, rs: seq<Request>)
    requires Agrees(db) && HasWriter(s) && forall i :: 0 <= i < |rs| ==> WellFormed(rs[i])
    requires forall i :: 0 <= i < |rs| && (rs[i].Update? || rs[i].Delete?) && IsAdminUsers(rs[i].table) ==>
               N.ParseInt(rs[i].id).Some? || db(rs[i].id).None? ||
               var w := Writer(AfterAll(db, s, rs[..i]), rs[i].token); w.Err? || db(rs[i].id) != Some(w.value.id)
    ensures HasWriter(AfterAll(db, s, rs))
  {
    hide HasWriter, WellFormed, Agrees, AfterAll;
    RunKeepsWriterIff(db, s, rs, |rs|);
    assert rs[..|rs|] == rs;
  }

  /** Where Go does not read an id that the database reads, the admin with that id can be the last one and give up the role. */
  lemma {:induction false} TextKeyDemotesLast(db: Convert, id: string, user: int) returns (s: State, r: Request)
    requires Agrees(db) && N.ParseInt(id).None? && db(id) == Some(user)
    ensures WellFormed(r) && HasWriter(s) && r.Update? && r.id == id && !HasWriter(After(db, s, r))
  {
    s := State(0, map[user := READ_WRITE], map["token" := Session(user, 2, Some(1))]);
    r := Update("token", Table("admin_panel", "admin_users", "int8"), id, map["role" := READ_ONLY], false, map[]);
    assert user in s.roles && s.roles[user] == READ_WRITE;
    assert Writer(s, "token") == Ok(Actor(user, READ_WRITE, true));
    StepKeepsWriterIff(db, s, r);
  }

  /** A blank before the number is enough, since the database skips it and Go does not. */
  lemma {:induction false} BlankIdDemotesLast(db: Convert) returns (s: State, r: Request)
    requires Agrees(db) && db(" 1") == Some(1)
    ensures WellFormed(r) && HasWriter(s) && r.Update? && r.id == " 1" && !HasWriter(After(db, s, r))
  {
    assert !N.IsDigit(" 1"[0]);
    s, r := TextKeyDemotesLast(db, " 1", 1);
  }

  /** Some read_write admin always remains, whatever is requested, if and only if the database reads no id that Go does not read. */
  lemma {:induction false} SomeAdminAlwaysIff(db: Convert)
    requires Agrees(db)
    ensures (forall s: State, r: Request :: HasWriter(s) && WellFormed(r) ==> HasWriter(After(db, s, r))) <==>
            (forall id: string :: N.ParseInt(id).None? ==> db(id).None?)
  {
    hide HasWriter, After, N.ParseInt, Agrees;
    if id: string :| N.ParseInt(id).None? && db(id).Some? {
      var s, r := TextKeyDemotesLast(db, id, db(id).value);
    } else {
      forall s: State, r: Request | HasWriter(s) && WellFormed(r) ensures HasWriter(After(db, s, r)) {
        StepKeepsWriterIff(db, s, r);
      }
    }
  }

  /** The admins change only at the hands of one with a live write window and the role read_write, or when there were none. */
  lemma {:induction false} ChangesNeedWriteMode(db: Convert, s: State, r: Request)
    requires After(db, s, r).roles != s.roles
    ensures (r.Bootstrap? && s.roles == map[]) ||
            ((r.Update? || r.Delete? || r.Insert?) && r.token in s.sessions &&
             var x := s.sessions[r.token];
             s.now < x.expiresAt && x.writeUntil.Some? && s.now < x.writeUntil.value &&
             x.adminId in s.roles && s.roles[x.adminId] == READ_WRITE)
  {}

  /** An update through the panel never changes who exists: no key is set. */
  lemma {:induction false} UpdatesKeepKeys(db: Convert, s: State, r: Request)
    requires r.Update?
    ensures After(db, s, r).roles.Keys == s.roles.Keys
  {}

  // ---------------------------------------------------------------- what requests do

  /** There is a live session under the token. */
  predicate SignedIn(s: State, token: string) {
    token != "" && token in s.sessions && s.now < s.sessions[token].expiresAt && s.sessions[token].adminId in s.roles
  }

  /** Its admin may write now. */
  predicate MayWrite(s: State, token: string) {
    SignedIn(s, token) && s.roles[s.sessions[token].adminId] == "read_write" &&
    s.sessions[token].writeUntil.Some? && s.now < s.sessions[token].writeUntil.value
  }

  predicate OnAdmins(r: Request)
    requires r.Update? || r.Delete? || r.Insert?
  {
    r.table.schema == "admin_panel" && r.table.name == "admin_users"
  }

  /** The row that a request names as its own, as Go reads ids. */
  predicate NamesSelf(s: State, r: Request)
    requires (r.Update? || r.Delete?) && r.token in s.sessions
  {
    OnAdmins(r) && N.ParseInt(r.id) == Some(s.sessions[r.token].adminId)
  }

  /** The columns that an update sets: not the key, and not the role of the actor's own row. */
  function SetBy(s: State, r: Request): set<string>
    requires r.Update? && r.token in s.sessions
  {
    set c | c in r.data && c != "id" && !(NamesSelf(s, r) && c == "role")
  }

  /** The role that an update asks for, if it is one the schema has. */
  predicate BadRole(s: State, r: Request)
    requires r.Update? && r.token in s.sessions
  {
    "role" in SetBy(s, r) && r.data["role"] != "read_only" && r.data["role"] != "read_write"
  }

  /** Why an update or a delete is refused, for each reason. */
  lemma {:induction false} RefusedIff(db: Convert, s: State, r: Request)
    requires Agrees(db) && WellFormed(r) && (r.Update? || r.Delete?)
    ensures Handle(db, s, r) == Err(NotSignedIn) <==> !SignedIn(s, r.token)
    ensures Handle(db, s, r) != Err(ReadOnlyRole)
    ensures Handle(db, s, r) == Err(WriteModeOff) <==> SignedIn(s, r.token) && !MayWrite(s, r.token)
    ensures Handle(db, s, r) == Err(OwnAccount) <==> MayWrite(s, r.token) && r.Delete? && NamesSelf(s, r)
    ensures Handle(db, s, r) == Err(NoSuchRow) <==>
            MayWrite(s, r.token) && r.Update? && OnAdmins(r) && SetBy(s, r) != {} && !r.rejected && db(r.id).Some? && db(r.id).value !in s.roles
    ensures Handle(db, s, r) == Err(Rejected) <==>
            MayWrite(s, r.token) && OnAdmins(r) && !(r.Delete? && NamesSelf(s, r)) && (r.Update? ==> SetBy(s, r) != {}) &&
            (db(r.id).None? || r.rejected || (r.Update? && db(r.id).value in s.roles && BadRole(s, r)))
  {
    if MayWrite(s, r.token) && OnAdmins(r) {
      CoercedValue(db, r.table, r.id);
      if r.Update? {
        var form := if NamesSelf(s, r) then r.data - {"role"} else r.data;
        assert form.Keys - {"id"} == SetBy(s, r);
        assert "role" in form <==> "role" in SetBy(s, r);
      }
    }
  }

  /** What an update or a delete does when it is not refused. */
  lemma {:induction false} CarriedOut(db: Convert, s: State, r: Request)
    requires Agrees(db) && WellFormed(r) && (r.Update? || r.Delete?) && Handle(db, s, r).Ok?
    ensures r.token in s.sessions
    ensures var s', id := Handle(db, s, r).value, db(r.id);
            s'.now == s.now &&
            (!OnAdmins(r) ==>
               s'.roles == s.roles &&
               s'.sessions == if r.table.schema == "admin_panel" && r.table.name == "admin_sessions" then r.sessions else s.sessions) &&
            (OnAdmins(r) && r.Update? ==>
               s'.sessions == s.sessions &&
               ("role" in SetBy(s, r) ==> id.Some?) &&
               s'.roles == if "role" in SetBy(s, r) then s.roles[id.value := r.data["role"]] else s.roles) &&
            (OnAdmins(r) && r.Delete? ==>
               id.Some? && s'.roles == s.roles - {id.value} &&
               forall t, x :: t in s'.sessions && s'.sessions[t] == x <==>
                 t in s.sessions && s.sessions[t] == x && !(x.adminId == id.value && id.value in s.roles))
  {
    RefusedIff(db, s, r);
    if OnAdmins(r) {
      CoercedValue(db, r.table, r.id);
      if r.Delete? && db(r.id).value !in s.roles { assert s.roles - {db(r.id).value} == s.roles; }
      if r.Update? {
        var form := if NamesSelf(s, r) then r.data - {"role"} else r.data;
        assert form.Keys - {"id"} == SetBy(s, r);
        assert "role" in form <==> "role" in SetBy(s, r);
      }
    }
  }

  /** An insert through the panel adds an admin with a role of the schema. */
  lemma {:induction false} InsertAdds(db: Convert, s: State, r: Request)
    requires r.Insert? && MayWrite(s, r.token)
    ensures var s' := After(db, s, r);
            s'.now == s.now &&
            (OnAdmins(r) ==>
               s'.sessions == s.sessions &&
               s'.roles == if !r.rejected && r.newId !in s.roles && (r.role == "read_only" || r.role == "read_write")
                           then s.roles[r.newId := r.role] else s.roles) &&
            (!OnAdmins(r) ==>
               s'.roles == s.roles &&
               s'.sessions == if r.table.schema == "admin_panel" && r.table.name == "admin_sessions" then r.sessions else s.sessions)
  {}

  /** A session that a sign-in opens lasts twelve hours, and is not in write mode; a sign-out ends it. */
  lemma {:induction false} SessionLasts(db: Convert, s: State, adminId: int, token: string, t: int)
    requires adminId in s.roles && token != "" && token !in s.sessions
    ensures var s' := After(db, s, Login(adminId, token)).(now := t);
            s'.roles == s.roles && s'.sessions - {token} == s.sessions && !MayWrite(s', token) &&
            (LoadSession(s', token).Some? <==> t < s.now + 12 * 60 * 60) && (LoadSession(s', token).Some? <==> SignedIn(s', token)) &&
            After(db, s', Logout(token)).sessions == s.sessions && After(db, s', Logout(token)).roles == s.roles
    ensures forall other :: other !in s.roles ==> After(db, s, Login(other, token)) == s
  {
    var s' := After(db, s, Login(adminId, token));
    assert s'.sessions - {token} == s.sessions;
  }

  /** Write mode, switched on by an admin with the role, lasts half an hour, or as long as the session; nobody else can switch it on. */
  lemma {:induction false} WriteModeLasts(db: Convert, s: State, token: string, t: int)
    requires t >= s.now
    ensures var s' := After(db, s, Toggle(token, true));
            if SignedIn(s, token) && s.roles[s.sessions[token].adminId] == "read_write"
            then (MayWrite(s'.(now := t), token) <==> t < s.now + 30 * 60 && t < s.sessions[token].expiresAt) &&
                 s'.roles == s.roles && s'.sessions - {token} == s.sessions - {token}
            else s' == s
    ensures var s' := After(db, s, Toggle(token, false));
            !MayWrite(s'.(now := t), token) && s'.roles == s.roles && s'.sessions - {token} == s.sessions - {token} &&
            (SignedIn(s'.(now := t), token) <==> SignedIn(s.(now := t), token))
    ensures (Writer(s, token).Ok? <==> MayWrite(s, token)) &&
            (MayWrite(s, token) ==> Writer(s, token).value.id == s.sessions[token].adminId)
  {}

  /** Time only moves on, and the first admin is made, with the role, only where there is none. */
  lemma {:induction false} TimeAndBootstrap(db: Convert, s: State, to: int, id: int)
    ensures After(db, s, Tick(to)) == State(if to > s.now then to else s.now, s.roles, s.sessions)
    ensures After(db, s, Bootstrap(id)) == State(s.now, if s.roles == map[] then map[id := "read_write"] else s.roles, s.sessions)
  {}

  // ---------------------------------------------------------------- requests in two steps

  /** Requests that have passed their checks and have not written yet: each with the actor that LoadSession found then. */
  datatype Panel = Panel(state: State, waiting: map<nat, (Actor, Request)>)

  datatype Event = Whole(request: Request) | Check(tag: nat, request: Request) | Write(tag: nat)

  /** The write of a request whose actor was loaded earlier; the own-row test has only that actor to go by. */
  function Written(db: Convert, s: State, actor: Actor, r: Request): State {
    match Act(db, s, actor, r) case Err(_) => s case Ok(next) => next
  }

  function Next(db: Convert, p: Panel, e: Event): Panel {
    match e
    case Whole(r) => p.(state := After(db, p.state, r))
    case Check(tag, r) =>
      if (r.Update? || r.Delete? || r.Insert?) && Writer(p.state, r.token).Ok?
      then p.(waiting := p.waiting[tag := (Writer(p.state, r.token).value, r)]) else p
    case Write(tag) =>
      if tag in p.waiting then Panel(Written(db, p.state, p.waiting[tag].0, p.waiting[tag].1), p.waiting - {tag}) else p
  }

  predicate WellFormedPanel(p: Panel) {
    forall tag :: tag in p.waiting ==> WellFormed(p.waiting[tag].1)
  }

  predicate WellFormedEvent(e: Event) {
    e.Write? || WellFormed(e.request)
  }

  /** A write that takes the row, or the role, of the only read_write admin, and not as the actor's own. */
  ghost predicate TakesLast(db: Convert, s: State, actor: Actor, r: Request) {
    (r.Update? || r.Delete?) && IsAdminUsers(r.table) && !r.rejected && N.ParseInt(r.id) != Some(actor.id) &&
    (exists id :: db(r.id) == Some(id) && OnlyWriter(s, id)) &&
    (r.Update? ==> "role" in r.data && r.data["role"] == READ_ONLY)
  }

  ghost predicate Loses(db: Convert, p: Panel, e: Event) {
    match e
    case Whole(r) => GivesUp(db, p.state, r)
    case Check(_, _) => false
    case Write(tag) => tag in p.waiting && TakesLast(db, p.state, p.waiting[tag].0, p.waiting[tag].1)
  }

  /** What a write does to the admins, whoever the actor was. */
  lemma {:induction false} WriteHits(db: Convert, s: State, actor: Actor, r: Request)
    requires Agrees(db) && WellFormed(r) && (r.Update? || r.Delete?) && IsAdminUsers(r.table)
    ensures var hit := db(r.id).Some? && db(r.id).value in s.roles && !r.rejected && N.ParseInt(r.id) != Some(actor.id);
            Written(db, s, actor, r).roles ==
              if r.Delete? then (if hit then s.roles - {db(r.id).value} else s.roles)
              else if hit && "role" in r.data && ValidRole(r.data["role"]) then s.roles[db(r.id).value := r.data["role"]]
              else s.roles
  {
    CoercedValue(db, r.table, r.id);
    if r.Update? && "role" in r.data { assert "role" in r.data.Keys - {"id"}; }
  }

  /** Exactly when a write leaves a read_write admin, at whatever state it comes to take effect. */
  lemma {:induction false} WriteKeepsWriterIff(db: Convert, s: State, actor: Actor, r: Request)
    requires Agrees(db) && WellFormed(r) && HasWriter(s)
    ensures HasWriter(Written(db, s, actor, r)) <==> !TakesLast(db, s, actor, r)
  {
    var w :| w in s.roles && s.roles[w] == READ_WRITE;
    var roles := Written(db, s, actor, r).roles;
    if (r.Update? || r.Delete?) && IsAdminUsers(r.table) {
      WriteHits(db, s, actor, r);
      hide Written, Agrees, WellFormed;
      assert |READ_ONLY| != |READ_WRITE|;
      if TakesLast(db, s, actor, r) {
        var id :| db(r.id) == Some(id) && OnlyWriter(s, id);
        assert w == id;
      } else if roles != s.roles {
        var id := db(r.id).value;
        if OnlyWriter(s, id) {
          assert roles[id] == READ_WRITE;
        } else {
          var x :| x in s.roles && s.roles[x] == READ_WRITE && x != id;
          assert x in roles && roles[x] == READ_WRITE;
        }
      } else {
        assert w in roles && roles[w] == READ_WRITE;
      }
    } else {
      assert w in roles && roles[w] == READ_WRITE;
    }
  }

  lemma {:induction false} EventKeepsWriterIff(db: Convert, p: Panel, e: Event)
    requires Agrees(db) && WellFormedPanel(p) && WellFormedEvent(e) && HasWriter(p.state)
    ensures WellFormedPanel(Next(db, p, e))
    ensures HasWriter(Next(db, p, e).state) <==> !Loses(db, p, e)
  {
    hide HasWriter, GivesUp, TakesLast, Agrees, After, Written, Writer, WellFormed;
    match e {
      case Whole(r) => StepKeepsWriterIff(db, p.state, r);
      case Check(_, _) =>
      case Write(tag) =>
        if tag in p.waiting { WriteKeepsWriterIff(db, p.state, p.waiting[tag].0, p.waiting[tag].1); }
    }
  }

  /** A write whose actor is still read_write when it takes effect leaves one, unless the own-row test does not notice whose row it is. */
  lemma {:induction false} LostOnlyByFormerWriter(db: Convert, s: State, actor: Actor, r: Request)
    requires Agrees(db) && WellFormed(r) && TakesLast(db, s, actor, r) && !Unnoticed(db, actor, r)
    ensures !(actor.id in s.roles && s.roles[actor.id] == READ_WRITE)
  {
    var id :| db(r.id) == Some(id) && OnlyWriter(s, id);
    assert N.ParseInt(r.id).Some? ==> N.ParseInt(r.id) == Some(id);
  }

  function NextAll(db: Convert, p: Panel, es: seq<Event>): Panel {
    if es == [] then p else Next(db, NextAll(db, p, es[..|es| - 1]), es[|es| - 1])
  }

  lemma OneMoreEvent(db: Convert, p: Panel, es: seq<Event>, n: nat)
    requires 0 < n <= |es|
    ensures NextAll(db, p, es[..n]) == Next(db, NextAll(db, p, es[..n - 1]), es[n - 1])
  {
    assert es[..n][..n - 1] == es[..n - 1];
  }

  /** There is a read_write admin at every point of an interleaving if and only if no event of it takes the last one. */
  lemma {:induction false} InterleavingKeepsWriterIff(db: Convert, p: Panel, es: seq<Event>, n: nat)
    requires Agrees(db) && WellFormedPanel(p) && HasWriter(p.state) && n <= |es| && forall i :: 0 <= i < |es| ==> WellFormedEvent(es[i])
    ensures (forall i :: 0 <= i <= n ==> HasWriter(NextAll(db, p, es[..i]).state)) <==>
            (forall i :: 0 <= i < n ==> !Loses(db, NextAll(db, p, es[..i]), es[i]))
    ensures (forall i :: 0 <= i <= n ==> HasWriter(NextAll(db, p, es[..i]).state)) ==> WellFormedPanel(NextAll(db, p, es[..n]))
  {
    hide HasWriter, Loses, WellFormedPanel, WellFormedEvent, Agrees, Next;
    if n == 0 {
      assert es[..0] == [];
    } else {
      InterleavingKeepsWriterIff(db, p, es, n - 1);
      OneMoreEvent(db, p, es, n);
      hide NextAll;
      var before := NextAll(db, p, es[..n - 1]);
      if forall i :: 0 <= i <= n - 1 ==> HasWriter(NextAll(db, p, es[..i]).state) { EventKeepsWriterIff(db, before, es[n - 1]); }
    }
  }

  /** Two admins that both pass their checks before either deletes can delete each other: the second write is no longer a writer's. */
  lemma {:induction false} UnatomicDeletesLoseAll(db: Convert, t: Table, a: Request, b: Request, s: State)
    requires Agrees(db) && WellTyped(t) && IsAdminUsers(t)
    requires s.roles == map[1 := READ_WRITE, 2 := READ_WRITE]
    requires a.Delete? && a.table == t && a.id == "2" && !a.rejected
    requires b.Delete? && b.table == t && b.id == "1" && !b.rejected
    requires Writer(s, a.token).Ok? && Writer(s, a.token).value.id == 1
    requires Writer(s, b.token).Ok? && Writer(s, b.token).value.id == 2
    ensures var p := Next(db, Next(db, Panel(s, map[]), Check(0, a)), Check(1, b));
            Loses(db, Next(db, p, Write(0)), Write(1)) && !HasWriter(Next(db, Next(db, p, Write(0)), Write(1)).state)
  {
    N.ParseUndoesItoa(1);
    N.ParseUndoesItoa(2);
    assert N.Itoa(1) == "1" && N.Itoa(2) == "2";
    var p := Next(db, Next(db, Panel(s, map[]), Check(0, a)), Check(1, b));
    assert p == Panel(s, map[0 := (Writer(s, a.token).value, a), 1 := (Writer(s, b.token).value, b)]);
    hide Writer, Written, LoadSession;
    WriteHits(db, s, p.waiting[0].0, a);
    var s1 := Written(db, s, p.waiting[0].0, a);
    assert s1.roles == map[1 := READ_WRITE];
    assert db("1") == Some(1) && OnlyWriter(s1, 1);
    assert TakesLast(db, s1, p.waiting[1].0, b);
    assert 1 in s1.roles && s1.roles[1] == READ_WRITE;
    WriteKeepsWriterIff(db, s1, p.waiting[1].0, b);
  }
}

/** The table of bridged users, its repository (internal/repository/user.go) and the service that
    creates the missing rows (internal/domain/users.go). */
module Users {
  import opened Options
  import opened Environment
  import opened Text

  datatype User = User(username: string, id: string, key: string)

  // ---------- the table ----------

  function FindById(rows: seq<User>, id: string): (r: Option<User>)
    ensures r.Some? ==> r.value in rows && r.value.id == id
    ensures r.None? ==> forall row | row in rows :: row.id != id
  {
    if rows == [] then None else if rows[0].id == id then Some(rows[0]) else FindById(rows[1..], id)
  }

  function FindByName(rows: seq<User>, name: string): (r: Option<User>)
    ensures r.Some? ==> r.value in rows && r.value.username == name
    ensures r.None? ==> forall row | row in rows :: row.username != name
  {
    if rows == [] then None
    else if rows[0].username == name then Some(rows[0])
    else FindByName(rows[1..], name)
  }

  /** The ID column first when the argument reads as an int64, then the name column. */
  function Get(rows: seq<User>, usernameOrId: string): Option<User> {
    var who := Lower(usernameOrId);
    var byId := if IsInt64(who) then FindById(rows, who) else None;
    var row := if byId.Some? then byId else FindByName(rows, who);
    if row.Some? then Some(row.value.(username := Lower(row.value.username))) else None
  }

  /** None when the primary key is taken. */
  function Insert(rows: seq<User>, username: string, id: string, key: string): Option<seq<User>> {
    if FindByName(rows, Lower(username)).Some? then None
    else Some(rows + [User(Lower(username), id, key)])
  }

  predicate HasId(rows: seq<User>, id: string) {
    exists row | row in rows :: row.id == id
  }

  predicate HasName(rows: seq<User>, name: string) {
    exists row | row in rows :: row.username == name
  }

  /** For an int64 the lookup answers with the row of that ID exactly when there is one; without it,
      it answers with the account that happens to carry the number as its name. */
  lemma GetByIdExactly(rows: seq<User>, id: string)
    requires IsInt64(id)
    ensures Get(rows, id).Some? <==> HasId(rows, id) || HasName(rows, id)
    ensures Get(rows, id).Some? && Get(rows, id).value.id == id <==> HasId(rows, id)
  {
    Int64IsLower(id);
  }

  lemma GetStays(rows: seq<User>, rows': seq<User>, who: string)
    requires rows <= rows' && Get(rows, who).Some?
    ensures Get(rows', who).Some?
  {
    assert forall row | row in rows :: row in rows';
  }

  // ---------- creation ----------

  datatype Batch = Batch(rows: seq<User>, ok: bool, clock: nat)

  datatype Created = Created(rows: seq<User>, ok: bool)

  /** The insert can report an error and still have taken effect. */
  function CreateFromTwitter(rows: seq<User>, u: TwitterUser, a: Answer): Created {
    var inserted := if u.createdAt then Insert(rows, u.userName, u.id, a.key) else None;
    if inserted.None? then Created(rows, false)
    else Created(if a.ok || a.lands then inserted.value else rows, a.ok)
  }

  /** One account of BatchCreateUsersFromIDs: a lookup by ID, and an insert when it finds nothing. */
  function CreateOne(rows: seq<User>, u: TwitterUser, env: nat -> Answer, clock: nat): Batch {
    if !env(clock).ok then Batch(rows, false, clock + 1)
    else if Get(rows, u.id).Some? then Batch(rows, true, clock + 1)
    else
      var created := CreateFromTwitter(rows, u, env(clock + 1));
      Batch(created.rows, created.ok, clock + 2)
  }

  function CreateMissing(rows: seq<User>, todo: seq<TwitterUser>, env: nat -> Answer, clock: nat): Batch
    decreases |todo|
  {
    if todo == [] then Batch(rows, true, clock)
    else
      var b := CreateOne(rows, todo[0], env, clock);
      if b.ok then CreateMissing(b.rows, todo[1..], env, b.clock) else b
  }

  /** The row that one account of a batch yields if no call fails: the one that is found, or the new one. */
  function RowOf(rows: seq<User>, u: TwitterUser, insert: Answer): User {
    var found := Get(rows, u.id);
    if found.Some? then found.value else User(Lower(u.userName), u.id, insert.key)
  }

  /** The list that the batch returns. */
  function Returned(rows: seq<User>, todo: seq<TwitterUser>, env: nat -> Answer, clock: nat): seq<User>
    decreases |todo|
  {
    if todo == [] then []
    else
      var b := CreateOne(rows, todo[0], env, clock);
      if b.ok then [RowOf(rows, todo[0], env(clock + 1))] + Returned(b.rows, todo[1..], env, b.clock) else []
  }

  function CreateFromIds(rows: seq<User>, env: nat -> Answer, clock: nat): Batch {
    if !env(clock).ok then Batch(rows, false, clock + 1)
    else CreateMissing(rows, env(clock).users, env, clock + 1)
  }

  /** One name of BatchCreateUsers: database lookup, Twitter lookup, insert when the row is unknown. */
  function CreateNamed(rows: seq<User>, name: string, env: nat -> Answer, clock: nat): Batch {
    if !env(clock).ok then Batch(rows, false, clock + 1)
    else if !env(clock + 1).ok || env(clock + 1).users == [] then Batch(rows, false, clock + 2)
    else if Get(rows, name).Some? then Batch(rows, true, clock + 2)
    else
      var created := CreateFromTwitter(rows, env(clock + 1).users[0], env(clock + 2));
      Batch(created.rows, created.ok, clock + 3)
  }

  function CreateFromNames(rows: seq<User>, names: seq<string>, env: nat -> Answer, clock: nat): Batch
    decreases |names|
  {
    if names == [] then Batch(rows, true, clock)
    else
      var b := CreateNamed(rows, names[0], env, clock);
      if b.ok then CreateFromNames(b.rows, names[1..], env, b.clock) else b
  }

  class UserService {
    var rows: seq<User>
    var clock: nat
    /** The accounts that Twitter was asked for by ID, question by question. */
    var askedIds: seq<seq<string>>
    const env: nat -> Answer

    constructor (rows: seq<User>, env: nat -> Answer)
      ensures this.rows == rows && this.env == env && clock == 0 && askedIds == []
    {
      askedIds := [];
      this.rows := rows;
      this.env := env;
      this.clock := 0;
    }

    /** The answer to the next call the service makes. */
    method Ask() returns (a: Answer)
      modifies this`clock
      ensures a == env(old(clock)) && clock == old(clock) + 1
    {
      a := env(clock);
      clock := clock + 1;
    }

    /** The body of the loop below. */
    method EnsureUser(user: TwitterUser) returns (row: Option<User>)
      modifies this`rows, this`clock
      ensures Batch(rows, row.Some?, clock) == CreateOne(old(rows), user, env, old(clock))
      ensures row.Some? ==> row.value == RowOf(old(rows), user, env(old(clock) + 1))
    {
      var lookup := Ask();
      if !lookup.ok {
        return None;
      }
      row := Get(rows, user.id);
      if row.None? {
        var insert := Ask();
        var created := CreateFromTwitter(rows, user, insert);
        rows := created.rows;
        if created.ok {
          row := Some(User(Lower(user.userName), user.id, insert.key));
        }
      }
    }

    /** The loop of the batch below. */
    method EnsureUsers(todo: seq<TwitterUser>) returns (results: Option<seq<User>>)
      modifies this`rows, this`clock
      ensures Batch(rows, results.Some?, clock) == CreateMissing(old(rows), todo, env, old(clock))
      ensures results.Some? ==> results.value == Returned(old(rows), todo, env, old(clock))
    {
      var users: seq<User> := [];
      var i := 0;
      while i < |todo|
        invariant 0 <= i <= |todo|
        invariant CreateMissing(old(rows), todo, env, old(clock)) == CreateMissing(rows, todo[i..], env, clock)
        invariant Returned(old(rows), todo, env, old(clock)) == users + Returned(rows, todo[i..], env, clock)
      {
        assert todo[i..][1..] == todo[i + 1..];
        var row := EnsureUser(todo[i]);
        if row.None? {
          return None;
        }
        users := users + [row.value];
        i := i + 1;
      }
      return Some(users);
    }

    /** The Twitter client answers for `ids` from its cache and one lookup; here that is one question. */
    method BatchCreateUsersFromIDs(ids: seq<string>) returns (results: Option<seq<User>>)
      modifies this
      ensures askedIds == old(askedIds) + [ids]
      ensures Batch(rows, results.Some?, clock) == CreateFromIds(old(rows), env, old(clock))
      ensures results.Some? ==>
                results.value == Returned(old(rows), env(old(clock)).users, env, old(clock) + 1)
    {
      askedIds := askedIds + [ids];
      var answer := Ask();
      if !answer.ok {
        return None;
      }
      results := EnsureUsers(answer.users);
    }

    /** The body of the loop below. */
    method EnsureNamed(name: string) returns (ok: bool)
      modifies this
      ensures Batch(rows, ok, clock) == CreateNamed(old(rows), name, env, old(clock))
    {
      var lookup := Ask();
      if !lookup.ok {
        return false;
      }
      var user := Get(rows, name);
      var twitter := Ask();
      if !twitter.ok || twitter.users == [] {
        return false;
      }
      if user.None? {
        var insert := Ask();
        var created := CreateFromTwitter(rows, twitter.users[0], insert);
        rows := created.rows;
        if !created.ok {
          return false;
        }
      }
      return true;
    }

    method BatchCreateUsers(names: seq<string>) returns (ok: bool)
      modifies this
      ensures Batch(rows, ok, clock) == CreateFromNames(old(rows), names, env, old(clock))
    {
      var i := 0;
      while i < |names|
        invariant 0 <= i <= |names|
        invariant CreateFromNames(old(rows), names, env, old(clock))
                  == CreateFromNames(rows, names[i..], env, clock)
      {
        assert names[i..][1..] == names[i + 1..];
        var done := EnsureNamed(names[i]);
        if !done {
          return false;
        }
        i := i + 1;
      }
      return true;
    }
  }

  // ---------- what creation keeps ----------

  predicate LowerNames(rows: seq<User>) {
    forall row | row in rows :: Lower(row.username) == row.username
  }

  predicate DistinctNames(rows: seq<User>) {
    forall i, j | 0 <= i < j < |rows| :: rows[i].username != rows[j].username
  }

  predicate DistinctIds(rows: seq<User>) {
    forall i, j | 0 <= i < j < |rows| :: rows[i].id != rows[j].id
  }

  /** Later calls never touch an earlier row, whatever fails; names stay lower-case and unique. */
  ghost predicate Extends(rows: seq<User>, rows': seq<User>) {
    && rows <= rows'
    && (LowerNames(rows) ==> LowerNames(rows'))
    && (DistinctNames(rows) ==> DistinctNames(rows'))
  }

  lemma CreateFromTwitterExtends(rows: seq<User>, u: TwitterUser, a: Answer)
    ensures Extends(rows, CreateFromTwitter(rows, u, a).rows)
  {
    LowerTwice(u.userName);
  }

  lemma {:induction false} CreateMissingExtends(rows: seq<User>, todo: seq<TwitterUser>, env: nat -> Answer, clock: nat)
    ensures Extends(rows, CreateMissing(rows, todo, env, clock).rows)
    decreases |todo|
  {
    if todo != [] {
      var b := CreateOne(rows, todo[0], env, clock);
      CreateFromTwitterExtends(rows, todo[0], env(clock + 1));
      if b.ok {
        CreateMissingExtends(b.rows, todo[1..], env, b.clock);
      }
    }
  }

  lemma {:induction false} CreateFromNamesExtends(rows: seq<User>, names: seq<string>, env: nat -> Answer, clock: nat)
    ensures Extends(rows, CreateFromNames(rows, names, env, clock).rows)
    decreases |names|
  {
    if names != [] {
      var b := CreateNamed(rows, names[0], env, clock);
      if env(clock + 1).users != [] {
        CreateFromTwitterExtends(rows, env(clock + 1).users[0], env(clock + 2));
      }
      if b.ok {
        CreateFromNamesExtends(b.rows, names[1..], env, b.clock);
      }
    }
  }

  // ---------- idempotence ----------

  lemma CreatedResolves(rows: seq<User>, u: TwitterUser, a: Answer)
    requires IsInt64(u.id) && CreateFromTwitter(rows, u, a).ok
    ensures Get(CreateFromTwitter(rows, u, a).rows, u.id).Some?
  {
    var rows' := CreateFromTwitter(rows, u, a).rows;
    assert rows'[|rows|] in rows' && rows'[|rows|].id == u.id;
    GetByIdExactly(rows', u.id);
  }

  /** After a batch that succeeded every account in it with a numeric ID is found by that ID. */
  lemma {:induction false} BatchResolves(
    rows: seq<User>, todo: seq<TwitterUser>, env: nat -> Answer, clock: nat, u: TwitterUser)
    requires CreateMissing(rows, todo, env, clock).ok && u in todo && IsInt64(u.id)
    ensures Get(CreateMissing(rows, todo, env, clock).rows, u.id).Some?
    decreases |todo|
  {
    var b := CreateOne(rows, todo[0], env, clock);
    if u == todo[0] {
      if Get(rows, u.id).None? {
        CreatedResolves(rows, u, env(clock + 1));
      }
      CreateMissingExtends(b.rows, todo[1..], env, b.clock);
      GetStays(b.rows, CreateMissing(rows, todo, env, clock).rows, u.id);
    } else {
      BatchResolves(b.rows, todo[1..], env, b.clock, u);
    }
  }

  lemma {:induction false} FindByIdAppended(rows: seq<User>, row: User, id: string)
    requires FindById(rows, id).Some? || row.id != id
    ensures FindById(rows + [row], id) == FindById(rows, id)
  {
    if rows != [] {
      assert (rows + [row])[1..] == rows[1..] + [row];
      if rows[0].id != id {
        FindByIdAppended(rows[1..], row, id);
      }
    }
  }

  lemma {:induction false} FindByNameAppended(rows: seq<User>, row: User, name: string)
    requires FindByName(rows, name).Some?
    ensures FindByName(rows + [row], name) == FindByName(rows, name)
  {
    assert (rows + [row])[1..] == rows[1..] + [row];
    if rows[0].username != name {
      FindByNameAppended(rows[1..], row, name);
    }
  }

  lemma GetAppended(rows: seq<User>, row: User, id: string)
    requires IsInt64(id) && Get(rows, id).Some? && row.id != id
    ensures Get(rows + [row], id) == Get(rows, id)
  {
    Int64IsLower(id);
    FindByIdAppended(rows, row, id);
    if FindById(rows, id).None? {
      FindByNameAppended(rows, row, id);
    }
  }

  lemma GetCreated(rows: seq<User>, row: User)
    requires IsInt64(row.id) && Get(rows, row.id).None?
    ensures Get(rows + [row], row.id) == Some(row.(username := Lower(row.username)))
  {
    Int64IsLower(row.id);
    NewIdIsFound(rows, row);
  }

  lemma {:induction false} NewIdIsFound(rows: seq<User>, row: User)
    requires FindById(rows, row.id).None?
    ensures FindById(rows + [row], row.id) == Some(row)
  {
    if rows != [] {
      assert (rows + [row])[1..] == rows[1..] + [row];
      NewIdIsFound(rows[1..], row);
    }
  }

  /** What the table answers for an int64 that it knows stays the same through a batch from IDs. */
  lemma {:induction false} AnswerStays(
    rows: seq<User>, todo: seq<TwitterUser>, env: nat -> Answer, clock: nat, id: string)
    requires IsInt64(id) && Get(rows, id).Some?
    ensures Get(CreateMissing(rows, todo, env, clock).rows, id) == Get(rows, id)
    decreases |todo|
  {
    if todo != [] {
      var b := CreateOne(rows, todo[0], env, clock);
      if b.rows != rows {
        GetAppended(rows, b.rows[|rows|], id);
      }
      if b.ok {
        AnswerStays(b.rows, todo[1..], env, b.clock, id);
      }
    }
  }

  lemma OneIsReturned(rows: seq<User>, u: TwitterUser, env: nat -> Answer, clock: nat)
    requires CreateOne(rows, u, env, clock).ok && IsInt64(u.id)
    ensures Get(CreateOne(rows, u, env, clock).rows, u.id) == Some(RowOf(rows, u, env(clock + 1)))
  {
    if Get(rows, u.id).None? {
      LowerTwice(u.userName);
      GetCreated(rows, RowOf(rows, u, env(clock + 1)));
    }
  }

  /** A batch that succeeds returns, for each account in its order, what the table answers for it afterwards. */
  lemma {:induction false} ReturnedAreTheRows(
    rows: seq<User>, todo: seq<TwitterUser>, env: nat -> Answer, clock: nat, i: nat)
    requires CreateMissing(rows, todo, env, clock).ok
    ensures |Returned(rows, todo, env, clock)| == |todo|
    ensures i < |todo| && IsInt64(todo[i].id) ==>
              Get(CreateMissing(rows, todo, env, clock).rows, todo[i].id) == Some(Returned(rows, todo, env, clock)[i])
    decreases |todo|
  {
    if todo != [] {
      var b := CreateOne(rows, todo[0], env, clock);
      ReturnedAreTheRows(b.rows, todo[1..], env, b.clock, if i == 0 then 0 else i - 1);
      if i == 0 && IsInt64(todo[0].id) {
        OneIsReturned(rows, todo[0], env, clock);
        AnswerStays(b.rows, todo[1..], env, b.clock, todo[0].id);
      }
    }
  }

  lemma {:induction false} NothingMissing(rows: seq<User>, todo: seq<TwitterUser>, env: nat -> Answer, clock: nat)
    requires forall u | u in todo :: Get(rows, u.id).Some?
    ensures CreateMissing(rows, todo, env, clock).rows == rows
    decreases |todo|
  {
    if todo != [] {
      NothingMissing(rows, todo[1..], env, CreateOne(rows, todo[0], env, clock).clock);
    }
  }

  /** Repeating a successful batch, on whatever larger table and with whatever failures, creates no row. */
  lemma {:induction false} RepeatedBatchCreatesNothing(
    rows: seq<User>, todo: seq<TwitterUser>, env: nat -> Answer, clock: nat,
    later: seq<User>, env': nat -> Answer, clock': nat)
    requires CreateMissing(rows, todo, env, clock).ok
    requires forall u | u in todo :: IsInt64(u.id)
    requires CreateMissing(rows, todo, env, clock).rows <= later
    ensures CreateMissing(later, todo, env', clock').rows == later
  {
    forall u | u in todo ensures Get(later, u.id).Some? {
      BatchResolves(rows, todo, env, clock, u);
      GetStays(CreateMissing(rows, todo, env, clock).rows, later, u.id);
    }
    NothingMissing(later, todo, env', clock');
  }

  /** Every Twitter lookup by name in this batch answers with the account of that name. */
  predicate AnswersNames(rows: seq<User>, names: seq<string>, env: nat -> Answer, clock: nat)
    decreases |names|
  {
    names == [] ||
    var b := CreateNamed(rows, names[0], env, clock);
    (b.ok ==> && Lower(env(clock + 1).users[0].userName) == Lower(names[0])
              && AnswersNames(b.rows, names[1..], env, b.clock))
  }

  lemma {:induction false} NamesResolve(
    rows: seq<User>, names: seq<string>, env: nat -> Answer, clock: nat, name: string)
    requires CreateFromNames(rows, names, env, clock).ok && AnswersNames(rows, names, env, clock)
    requires name in names
    ensures Get(CreateFromNames(rows, names, env, clock).rows, name).Some?
    decreases |names|
  {
    var b := CreateNamed(rows, names[0], env, clock);
    if name == names[0] {
      if Get(rows, name).None? {
        assert b.rows[|rows|] in b.rows && b.rows[|rows|].username == Lower(name);
        assert FindByName(b.rows, Lower(name)).Some?;
      }
      CreateFromNamesExtends(b.rows, names[1..], env, b.clock);
      GetStays(b.rows, CreateFromNames(rows, names, env, clock).rows, name);
    } else {
      NamesResolve(b.rows, names[1..], env, b.clock, name);
    }
  }

  lemma {:induction false} NoNameMissing(rows: seq<User>, names: seq<string>, env: nat -> Answer, clock: nat)
    requires forall name | name in names :: Get(rows, name).Some?
    ensures CreateFromNames(rows, names, env, clock).rows == rows
    decreases |names|
  {
    if names != [] {
      NoNameMissing(rows, names[1..], env, CreateNamed(rows, names[0], env, clock).clock);
    }
  }

  lemma {:induction false} RepeatedNamesCreateNothing(
    rows: seq<User>, names: seq<string>, env: nat -> Answer, clock: nat,
    later: seq<User>, env': nat -> Answer, clock': nat)
    requires CreateFromNames(rows, names, env, clock).ok && AnswersNames(rows, names, env, clock)
    requires CreateFromNames(rows, names, env, clock).rows <= later
    ensures CreateFromNames(later, names, env', clock').rows == later
  {
    forall name | name in names ensures Get(later, name).Some? {
      NamesResolve(rows, names, env, clock, name);
      GetStays(CreateFromNames(rows, names, env, clock).rows, later, name);
    }
    NoNameMissing(later, names, env', clock');
  }

  // ---------- one row per account ----------

  /** Numeric IDs alone keep the ID column free of duplicates, also when one batch repeats an ID. */
  lemma {:induction false} OneRowPerId(rows: seq<User>, todo: seq<TwitterUser>, env: nat -> Answer, clock: nat)
    requires DistinctIds(rows) && forall u | u in todo :: IsInt64(u.id)
    ensures DistinctIds(CreateMissing(rows, todo, env, clock).rows)
    decreases |todo|
  {
    if todo != [] {
      var b := CreateOne(rows, todo[0], env, clock);
      GetByIdExactly(rows, todo[0].id);
      if b.ok {
        OneRowPerId(b.rows, todo[1..], env, b.clock);
      }
    }
  }

  /** Creating by name looks the ID column up only for numeric names. It keeps IDs unique when every
      account has one fixed lower-case name. */
  lemma {:induction false} OneRowPerName(
    rows: seq<User>, names: seq<string>, env: nat -> Answer, clock: nat, nameOf: string -> string)
    requires DistinctIds(rows) && forall row | row in rows :: row.username == nameOf(row.id)
    requires forall n, u | u in env(n).users :: Lower(u.userName) == nameOf(u.id)
    ensures var rows' := CreateFromNames(rows, names, env, clock).rows;
            DistinctIds(rows') && forall row | row in rows' :: row.username == nameOf(row.id)
    decreases |names|
  {
    if names != [] {
      var b := CreateNamed(rows, names[0], env, clock);
      if b.ok {
        var u := env(clock + 1).users[0];
        assert u in env(clock + 1).users;
        assert b.rows != rows ==> forall row | row in rows :: row.id != u.id;
        OneRowPerName(b.rows, names[1..], env, b.clock, nameOf);
      }
    }
  }

  /** A successful creation from an ID leaves a row with that ID exactly when the row was there or no other
      account carries the number as its name. */
  lemma OwnRowExactly(rows: seq<User>, u: TwitterUser, env: nat -> Answer, clock: nat)
    requires IsInt64(u.id) && CreateMissing(rows, [u], env, clock).ok
    ensures HasId(CreateMissing(rows, [u], env, clock).rows, u.id)
            <==> HasId(rows, u.id) || !HasName(rows, u.id)
  {
    GetByIdExactly(rows, u.id);
    var rows' := CreateOne(rows, u, env, clock).rows;
    assert [u][1..] == [];
    assert CreateMissing(rows, [u], env, clock).rows == rows';
    if Get(rows, u.id).None? {
      assert rows'[|rows|] in rows' && rows'[|rows|].id == u.id;
    }
  }

  // ---------- any sequence of batches ----------

  datatype BatchCall =
    | FromIds(env: nat -> Answer, clock: nat)
    | FromNames(names: seq<string>, env: nat -> Answer, clock: nat)

  function AfterBatch(rows: seq<User>, call: BatchCall): seq<User> {
    match call
    case FromIds(env, clock) => CreateFromIds(rows, env, clock).rows
    case FromNames(names, env, clock) => CreateFromNames(rows, names, env, clock).rows
  }

  function AfterBatches(rows: seq<User>, calls: seq<BatchCall>): seq<User>
    decreases |calls|
  {
    if calls == [] then rows else AfterBatches(AfterBatch(rows, calls[0]), calls[1..])
  }

  lemma CreateFromIdsExtends(rows: seq<User>, env: nat -> Answer, clock: nat)
    ensures Extends(rows, CreateFromIds(rows, env, clock).rows)
  {
    CreateMissingExtends(rows, env(clock).users, env, clock + 1);
  }

  lemma BatchExtends(rows: seq<User>, call: BatchCall)
    ensures Extends(rows, AfterBatch(rows, call))
  {
    match call
    case FromIds(env, clock) => CreateFromIdsExtends(rows, env, clock);
    case FromNames(names, env, clock) => CreateFromNamesExtends(rows, names, env, clock);
  }

  /** Over any sequence of batches of both kinds, whatever fails, an existing row and its key never change. */
  lemma {:induction false} BatchesNeverRekey(rows: seq<User>, calls: seq<BatchCall>)
    ensures Extends(rows, AfterBatches(rows, calls))
    decreases |calls|
  {
    if calls != [] {
      BatchExtends(rows, calls[0]);
      BatchesNeverRekey(AfterBatch(rows, calls[0]), calls[1..]);
    }
  }

  /** Another account carries the number as its name, and no row has it as its ID. */
  predicate Hidden(rows: seq<User>, id: string) {
    HasName(rows, id) && !HasId(rows, id)
  }

  lemma {:induction false} MissingKeepsHidden(
    rows: seq<User>, todo: seq<TwitterUser>, env: nat -> Answer, clock: nat, id: string)
    requires IsInt64(id) && Hidden(rows, id)
    ensures Hidden(CreateMissing(rows, todo, env, clock).rows, id)
    decreases |todo|
  {
    if todo != [] {
      var b := CreateOne(rows, todo[0], env, clock);
      GetByIdExactly(rows, id);
      assert forall row | row in rows :: row in b.rows;
      if b.ok {
        MissingKeepsHidden(b.rows, todo[1..], env, b.clock, id);
      }
    }
  }

  /** No sequence of batches from IDs, however long, creates the row of a hidden account. */
  lemma {:induction false} IdsNeverUncover(rows: seq<User>, calls: seq<BatchCall>, id: string)
    requires IsInt64(id) && Hidden(rows, id) && forall c | c in calls :: c.FromIds?
    ensures Hidden(AfterBatches(rows, calls), id)
    decreases |calls|
  {
    if calls != [] {
      assert calls[0] in calls && forall c | c in calls[1..] :: c in calls;
      MissingKeepsHidden(rows, calls[0].env(calls[0].clock).users, calls[0].env, calls[0].clock + 1, id);
      IdsNeverUncover(CreateFromIds(rows, calls[0].env, calls[0].clock).rows, calls[1..], id);
    }
  }

  /** A batch with the account's own name does: the account 123, called bob, behind an account called 123. */
  lemma NamesUncover(env: nat -> Answer)
    requires env(0).ok && env(1).ok && env(2).ok && env(1).users == [TwitterUser("123", "bob", true)]
    ensures var rows, b := [User("123", "9", "k")], CreateFromNames([User("123", "9", "k")], ["bob"], env, 0);
            Hidden(rows, "123") && b.ok && HasId(b.rows, "123")
  {
    var rows := [User("123", "9", "k")];
    assert rows[0] in rows;
    var b := CreateNamed(rows, "bob", env, 0);
    assert Lower("bob") == "bob";
    assert b.ok && b.rows[1] in b.rows && b.rows[1].id == "123";
    assert ["bob"][1..] == [];
  }

  /** One row for each account, under the one name of the account. */
  ghost predicate OneRowEach(rows: seq<User>, nameOf: string -> string) {
    DistinctIds(rows) && forall row | row in rows :: row.username == nameOf(row.id)
  }

  /** Every account that Twitter ever mentions has an int64 ID, and one lower-case name for each ID. */
  ghost predicate NamesAreFixed(env: nat -> Answer, nameOf: string -> string) {
    forall n, u | u in env(n).users :: IsInt64(u.id) && Lower(u.userName) == nameOf(u.id)
  }

  lemma {:induction false} MissingKeepsOneRowEach(
    rows: seq<User>, todo: seq<TwitterUser>, env: nat -> Answer, clock: nat, nameOf: string -> string)
    requires OneRowEach(rows, nameOf)
    requires forall u | u in todo :: IsInt64(u.id) && Lower(u.userName) == nameOf(u.id)
    ensures OneRowEach(CreateMissing(rows, todo, env, clock).rows, nameOf)
    decreases |todo|
  {
    if todo != [] {
      var b := CreateOne(rows, todo[0], env, clock);
      GetByIdExactly(rows, todo[0].id);
      if b.ok {
        MissingKeepsOneRowEach(b.rows, todo[1..], env, b.clock, nameOf);
      }
    }
  }

  /** Over any sequence of batches of both kinds no account gets a second row, whatever fails. */
  lemma {:induction false} BatchesKeepOneRowEach(rows: seq<User>, calls: seq<BatchCall>, nameOf: string -> string)
    requires OneRowEach(rows, nameOf) && forall c | c in calls :: NamesAreFixed(c.env, nameOf)
    ensures OneRowEach(AfterBatches(rows, calls), nameOf)
    decreases |calls|
  {
    if calls != [] {
      assert NamesAreFixed(calls[0].env, nameOf) && forall c | c in calls[1..] :: c in calls;
      match calls[0]
      case FromIds(env, clock) =>
        MissingKeepsOneRowEach(rows, env(clock).users, env, clock + 1, nameOf);
        BatchesKeepOneRowEach(CreateFromIds(rows, env, clock).rows, calls[1..], nameOf);
      case FromNames(names, env, clock) =>
        OneRowPerName(rows, names, env, clock, nameOf);
        BatchesKeepOneRowEach(CreateFromNames(rows, names, env, clock).rows, calls[1..], nameOf);
    }
  }
}

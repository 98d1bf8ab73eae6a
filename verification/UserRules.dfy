/** What the lookups and the batches of module Users do, told from the rows of the table and from the answers. */
module UserRules {
  import opened Options
  import opened Environment
  import opened Text
  import opened Users

  // ---------- the lookup ----------

  /** Capitals in the argument make no difference. */
  lemma GetForgetsCase(rows: seq<User>, s: string, t: string)
    requires SameButForCase(s, t)
    ensures Get(rows, s) == Get(rows, t)
  {
    LowerForgetsCase(s, t);
  }

  lemma LowerInt64(s: string)
    ensures IsInt64(Lower(s)) <==> IsInt64(s)
    ensures IsInt64(s) ==> Lower(s) == s
  {
    if IsInt64(Lower(s)) {
      var r := Lower(s);
      IsInt64Exactly(r, "");
      forall c | c in s ensures !IsCapital(c) {
        var i :| 0 <= i < |s| && s[i] == c;
        assert i > 0 ==> r[1..][i - 1] == r[i] && r[i] in r[1..];
        assert r[i] in r;
      }
      LowerStays(s);
    }
    if IsInt64(s) {
      Int64IsLower(s);
    }
  }

  /** The table as its keys keep it: names in lower case, no name and no ID twice. */
  predicate Keyed(rows: seq<User>) {
    LowerNames(rows) && DistinctNames(rows) && DistinctIds(rows)
  }

  /** The row a text asks for: the one with the number as its ID, or without such a row the one of that name. */
  predicate IsAskedFor(rows: seq<User>, s: string, row: User) {
    row in rows && if IsInt64(s) && HasId(rows, s) then row.id == s else SameButForCase(row.username, s)
  }

  /** The lookup returns just this row, with its ID and its key, and fails when there is none. */
  lemma GetExactly(rows: seq<User>, s: string, row: User)
    requires Keyed(rows)
    ensures Get(rows, s) == Some(row) <==> IsAskedFor(rows, s, row)
    ensures Get(rows, s).None? <==> forall r :: !IsAskedFor(rows, s, r)
  {
    LowerInt64(s);
    forall r | r in rows ensures r.username == Lower(s) <==> SameButForCase(r.username, s) {
      LowerForgetsCase(r.username, s);
    }
    var found := Get(rows, s);
    if found.Some? {
      assert IsAskedFor(rows, s, found.value);
      forall r | IsAskedFor(rows, s, r) ensures r == found.value {
        OneIsAskedFor(rows, s, r, found.value);
      }
    }
  }

  lemma OneIsAskedFor(rows: seq<User>, s: string, r: User, r': User)
    requires Keyed(rows) && IsAskedFor(rows, s, r) && IsAskedFor(rows, s, r')
    ensures r == r'
  {
    var i :| 0 <= i < |rows| && rows[i] == r;
    var j :| 0 <= j < |rows| && rows[j] == r';
    LowerForgetsCase(r.username, s);
    LowerForgetsCase(r'.username, s);
    assert Lower(r.username) == r.username && Lower(r'.username) == r'.username;
  }

  // ---------- the insert ----------

  predicate NameIsFree(rows: seq<User>, name: string) {
    forall row | row in rows :: !SameButForCase(row.username, name)
  }

  /** The new row: the ID and the key as they are given, and the name without capitals. */
  predicate IsRowFor(row: User, name: string, id: string, key: string) {
    && row.id == id && row.key == key && SameButForCase(row.username, name)
    && forall c | c in row.username :: !IsCapital(c)
  }

  /** An insert fails exactly when the name is taken, with or without capitals, and otherwise appends one row. */
  lemma InsertExactly(rows: seq<User>, name: string, id: string, key: string)
    requires LowerNames(rows)
    ensures Insert(rows, name, id, key).None? <==> !NameIsFree(rows, name)
    ensures Insert(rows, name, id, key).Some? ==>
              exists row :: IsRowFor(row, name, id, key) && Insert(rows, name, id, key).value == rows + [row]
  {
    forall r | r in rows ensures r.username == Lower(name) <==> SameButForCase(r.username, name) {
      LowerForgetsCase(r.username, name);
    }
    LowerTwice(name);
    LowerForgetsCase(Lower(name), name);
    assert IsRowFor(User(Lower(name), id, key), name, id, key);
  }

  /** One more row at the end, for this account. */
  predicate AddsRow(rows: seq<User>, rows': seq<User>, u: TwitterUser, key: string) {
    rows' != [] && rows' == rows + [rows'[|rows'| - 1]] && IsRowFor(rows'[|rows'| - 1], u.userName, u.id, key)
  }

  predicate CanCreate(rows: seq<User>, u: TwitterUser) {
    u.createdAt && NameIsFree(rows, u.userName)
  }

  /** A creation succeeds exactly when the date of the account parses, its name is free and the insert reports
      no error. One row comes, unless the insert reports an error and did not take effect. */
  lemma CreationExactly(rows: seq<User>, u: TwitterUser, a: Answer)
    requires LowerNames(rows)
    ensures CreateFromTwitter(rows, u, a).ok <==> CanCreate(rows, u) && a.ok
    ensures if CanCreate(rows, u) && (a.ok || a.lands)
            then AddsRow(rows, CreateFromTwitter(rows, u, a).rows, u, a.key)
            else CreateFromTwitter(rows, u, a).rows == rows
  {
    InsertExactly(rows, u.userName, u.id, a.key);
  }

  // ---------- a batch from IDs ----------

  /** The lookup by ID finds something for the account. */
  predicate Present(rows: seq<User>, u: TwitterUser) {
    HasId(rows, u.id) || HasName(rows, u.id)
  }

  predicate Admissible(rows: seq<User>, u: TwitterUser) {
    Present(rows, u) || CanCreate(rows, u)
  }

  /** Accounts of Twitter: each has one name and one date, no two have the same name, and no name is the ID of
      one of them. */
  predicate Accounts(us: set<TwitterUser>) {
    forall u, v | u in us && v in us ::
      && IsInt64(u.id) && (u.id == v.id <==> SameButForCase(u.userName, v.userName))
      && (u.id == v.id ==> u.createdAt == v.createdAt)
      && !SameButForCase(v.userName, u.id)
  }

  predicate AllOk(env: nat -> Answer, from: nat, to: nat) {
    forall k | from <= k < to :: env(k).ok
  }

  lemma CreateOneExactly(rows: seq<User>, u: TwitterUser, env: nat -> Answer, clock: nat)
    requires LowerNames(rows) && IsInt64(u.id)
    ensures var b := CreateOne(rows, u, env, clock);
            && clock < b.clock
            && (b.ok <==> AllOk(env, clock, b.clock) && Admissible(rows, u))
            && (Present(rows, u) ==> b.rows == rows)
            && (b.ok && !Present(rows, u) ==> AddsRow(rows, b.rows, u, env(clock + 1).key))
  {
    GetByIdExactly(rows, u.id);
    CreationExactly(rows, u, env(clock + 1));
    var b := CreateOne(rows, u, env, clock);
    assert AllOk(env, clock, b.clock) <==> env(clock).ok && (b.clock == clock + 2 ==> env(clock + 1).ok);
  }

  /** The row of another account makes no difference; the row of the account itself makes it present. */
  lemma AdmissibleStays(us: set<TwitterUser>, rows: seq<User>, row: User, key: string, u: TwitterUser, v: TwitterUser)
    requires Accounts(us) && u in us && v in us && IsRowFor(row, u.userName, u.id, key) && CanCreate(rows, u)
    ensures Admissible(rows + [row], v) <==> Admissible(rows, v)
  {
    if u.id == v.id {
      assert (rows + [row])[|rows|] in rows + [row] && Present(rows + [row], v);
      SameNameIsFree(rows, u.userName, v.userName);
    } else {
      AnotherRow(rows, row, u, v);
    }
  }

  lemma SameNameIsFree(rows: seq<User>, name: string, name': string)
    requires NameIsFree(rows, name) && SameButForCase(name, name')
    ensures NameIsFree(rows, name')
  {
    LowerForgetsCase(name, name');
    forall row | row in rows ensures !SameButForCase(row.username, name') {
      LowerForgetsCase(row.username, name);
      LowerForgetsCase(row.username, name');
    }
  }

  lemma AnotherRow(rows: seq<User>, row: User, u: TwitterUser, v: TwitterUser)
    requires row.id == u.id != v.id && SameButForCase(row.username, u.userName)
    requires !SameButForCase(u.userName, v.userName) && !SameButForCase(u.userName, v.id)
    ensures Present(rows + [row], v) <==> Present(rows, v)
    ensures NameIsFree(rows + [row], v.userName) <==> NameIsFree(rows, v.userName)
  {
    LowerForgetsCase(row.username, u.userName);
    LowerForgetsCase(u.userName, v.userName);
    LowerForgetsCase(row.username, v.userName);
    LowerForgetsCase(u.userName, v.id);
    LowerForgetsCase(row.username, v.id);
    assert forall r | r in rows :: r in rows + [row];
    assert forall r | r in rows + [row] :: r in rows || r == row;
  }

  /** A batch of accounts succeeds exactly when no call fails and each account is in the table already or can be
      inserted: told from the table before the batch. */
  lemma {:induction false} BatchSucceedsExactly(
    us: set<TwitterUser>, rows: seq<User>, todo: seq<TwitterUser>, env: nat -> Answer, clock: nat)
    requires LowerNames(rows) && Accounts(us) && forall u | u in todo :: u in us
    ensures var b := CreateMissing(rows, todo, env, clock);
            && clock <= b.clock
            && (b.ok <==> AllOk(env, clock, b.clock) && forall u | u in todo :: Admissible(rows, u))
    decreases |todo|
  {
    if todo != [] {
      var u, b := todo[0], CreateOne(rows, todo[0], env, clock);
      assert u in us;
      CreateOneExactly(rows, u, env, clock);
      if b.ok {
        CreateOneStays(us, rows, u, env, clock);
        BatchSucceedsExactly(us, b.rows, todo[1..], env, b.clock);
        OneAndRest(rows, todo, b.rows);
        OkAndOk(env, clock, b.clock, CreateMissing(b.rows, todo[1..], env, b.clock).clock);
      } else {
        assert u in todo;
      }
    }
  }

  lemma OneAndRest(rows: seq<User>, todo: seq<TwitterUser>, rows': seq<User>)
    requires todo != [] && Admissible(rows, todo[0])
    requires forall v | v in todo[1..] :: Admissible(rows', v) <==> Admissible(rows, v)
    ensures (forall u | u in todo :: Admissible(rows, u)) <==> forall u | u in todo[1..] :: Admissible(rows', u)
  {
  }

  lemma OkAndOk(env: nat -> Answer, from: nat, mid: nat, to: nat)
    requires from <= mid <= to && AllOk(env, from, mid)
    ensures AllOk(env, from, to) <==> AllOk(env, mid, to)
  {
  }

  lemma CreateOneStays(us: set<TwitterUser>, rows: seq<User>, u: TwitterUser, env: nat -> Answer, clock: nat)
    requires LowerNames(rows) && Accounts(us) && u in us && CreateOne(rows, u, env, clock).ok
    ensures var rows' := CreateOne(rows, u, env, clock).rows;
            LowerNames(rows') && forall v | v in us :: Admissible(rows', v) <==> Admissible(rows, v)
  {
    CreateOneExactly(rows, u, env, clock);
    var rows' := CreateOne(rows, u, env, clock).rows;
    CreateFromTwitterExtends(rows, u, env(clock + 1));
    if !Present(rows, u) {
      var key := env(clock + 1).key;
      var row := rows'[|rows'| - 1];
      forall v | v in us ensures Admissible(rows', v) <==> Admissible(rows, v) {
        AdmissibleStays(us, rows, row, key, u, v);
      }
    }
  }

  /** What is admissible before a batch that succeeds is admissible after it, and the other way round. */
  lemma {:induction false} BatchStays(
    us: set<TwitterUser>, rows: seq<User>, todo: seq<TwitterUser>, env: nat -> Answer, clock: nat)
    requires LowerNames(rows) && Accounts(us) && forall u | u in todo :: u in us
    requires CreateMissing(rows, todo, env, clock).ok
    ensures var rows' := CreateMissing(rows, todo, env, clock).rows;
            LowerNames(rows') && forall v | v in us :: Admissible(rows', v) <==> Admissible(rows, v)
    decreases |todo|
  {
    if todo != [] {
      var b := CreateOne(rows, todo[0], env, clock);
      assert todo[0] in us;
      CreateOneStays(us, rows, todo[0], env, clock);
      BatchStays(us, b.rows, todo[1..], env, b.clock);
    }
  }

  /** Each new row of a batch is the row of an account of the batch that was not present, under a fresh key. */
  predicate IsNewRow(rows: seq<User>, todo: seq<TwitterUser>, row: User) {
    exists u | u in todo :: IsRowFor(row, u.userName, u.id, row.key) && !Present(rows, u) && CanCreate(rows, u)
  }

  lemma {:induction false} NewRowsAreAccounts(rows: seq<User>, todo: seq<TwitterUser>, env: nat -> Answer, clock: nat,
                                              k: nat)
    requires LowerNames(rows) && forall u | u in todo :: IsInt64(u.id)
    requires |rows| <= k < |CreateMissing(rows, todo, env, clock).rows|
    ensures IsNewRow(rows, todo, CreateMissing(rows, todo, env, clock).rows[k])
    decreases |todo|
  {
    if todo != [] {
      var u, b := todo[0], CreateOne(rows, todo[0], env, clock);
      CreateOneAdds(rows, u, env, clock);
      if b.ok {
        CreateMissingExtends(b.rows, todo[1..], env, b.clock);
        if k >= |b.rows| {
          NewRowsAreAccounts(b.rows, todo[1..], env, b.clock, k);
          NewBeforeIsNew(rows, b.rows, todo, CreateMissing(rows, todo, env, clock).rows[k]);
        } else {
          assert CreateMissing(rows, todo, env, clock).rows[k] == b.rows[k];
        }
      }
    }
  }

  lemma CreateOneAdds(rows: seq<User>, u: TwitterUser, env: nat -> Answer, clock: nat)
    requires LowerNames(rows) && IsInt64(u.id)
    ensures var b := CreateOne(rows, u, env, clock);
            && rows <= b.rows && |b.rows| <= |rows| + 1 && LowerNames(b.rows)
            && forall k | |rows| <= k < |b.rows| :: IsNewRow(rows, [u], b.rows[k])
  {
    GetByIdExactly(rows, u.id);
    CreationExactly(rows, u, env(clock + 1));
    CreateFromTwitterExtends(rows, u, env(clock + 1));
    assert u in [u];
  }

  lemma NewBeforeIsNew(rows: seq<User>, rows': seq<User>, todo: seq<TwitterUser>, row: User)
    requires todo != [] && rows <= rows' && IsNewRow(rows', todo[1..], row)
    ensures IsNewRow(rows, todo, row)
  {
    var u :| u in todo[1..] && IsRowFor(row, u.userName, u.id, row.key) && !Present(rows', u) && CanCreate(rows', u);
    assert u in todo && forall r | r in rows :: r in rows';
  }

  // ---------- a batch by name ----------

  /** One name of the other batch: both questions are put also for a known user, and then their answers change
      nothing; an unknown one is created from the first account Twitter answers with. */
  lemma CreateNamedExactly(rows: seq<User>, name: string, env: nat -> Answer, clock: nat)
    requires LowerNames(rows)
    ensures var b := CreateNamed(rows, name, env, clock);
            var asked := env(clock).ok && env(clock + 1).ok && env(clock + 1).users != [];
            && (b.ok <==> asked && (Get(rows, name).Some?
                                    || (CanCreate(rows, env(clock + 1).users[0]) && env(clock + 2).ok)))
            && (!asked || Get(rows, name).Some? ==> b.rows == rows)
            && (b.ok && Get(rows, name).None? ==> AddsRow(rows, b.rows, env(clock + 1).users[0], env(clock + 2).key))
  {
    if env(clock + 1).users != [] {
      CreationExactly(rows, env(clock + 1).users[0], env(clock + 2));
    }
  }

  /** Along the batch no call fails, and Twitter answers each name with an account of that name whose date
      parses. */
  predicate AnsweredInFull(rows: seq<User>, names: seq<string>, env: nat -> Answer, clock: nat)
    decreases |names|
  {
    names == [] ||
    (&& env(clock).ok && env(clock + 1).ok && env(clock + 2).ok && env(clock + 1).users != []
     && env(clock + 1).users[0].createdAt && SameButForCase(env(clock + 1).users[0].userName, names[0])
     && var b := CreateNamed(rows, names[0], env, clock); AnsweredInFull(b.rows, names[1..], env, b.clock))
  }

  lemma UnknownNameIsFree(rows: seq<User>, name: string, name': string)
    requires LowerNames(rows) && Get(rows, name).None? && SameButForCase(name', name)
    ensures NameIsFree(rows, name')
  {
    LowerForgetsCase(name', name);
    forall row | row in rows ensures !SameButForCase(row.username, name') {
      LowerForgetsCase(row.username, name');
      assert Lower(row.username) == row.username;
    }
  }

  /** Such a batch succeeds, and every name of it is found afterwards. */
  lemma {:induction false} NamesSucceed(rows: seq<User>, names: seq<string>, env: nat -> Answer, clock: nat)
    requires LowerNames(rows) && AnsweredInFull(rows, names, env, clock)
    ensures CreateFromNames(rows, names, env, clock).ok && AnswersNames(rows, names, env, clock)
    ensures forall name | name in names :: Get(CreateFromNames(rows, names, env, clock).rows, name).Some?
    decreases |names|
  {
    if names != [] {
      var u, b := env(clock + 1).users[0], CreateNamed(rows, names[0], env, clock);
      CreateNamedExactly(rows, names[0], env, clock);
      if Get(rows, names[0]).None? {
        UnknownNameIsFree(rows, names[0], u.userName);
      }
      CreateFromTwitterExtends(rows, u, env(clock + 2));
      LowerForgetsCase(u.userName, names[0]);
      NamesSucceed(b.rows, names[1..], env, b.clock);
      forall name | name in names ensures Get(CreateFromNames(rows, names, env, clock).rows, name).Some? {
        NamesResolve(rows, names, env, clock, name);
      }
    }
  }
}

/** LoadActors on a slice of users (internal/models/users.go): one query for all of them, whose rows are
    handed out to the users in memory. */
module Loading {
  import opened Sequences
  import opened Options
  import opened Relations
  import opened Records

  // ---------- the argument list ----------

  function Names(users: seq<Record>): seq<string>
    requires AllUsers(users)
  {
    seq(|users|, i requires 0 <= i < |users| => users[i].key.name)
  }

  predicate AllUsers(users: seq<Record>) {
    forall i | 0 <= i < |users| :: users[i].key.User?
  }

  /** Every name of the slice, once. */
  method Arguments(users: seq<Record>) returns (args: seq<string>)
    requires AllUsers(users)
    ensures NoRepeats(args) && forall name :: name in args <==> name in Names(users)
  {
    args := [];
    for i := 0 to |users|
      invariant NoRepeats(args)
      invariant forall name :: name in args <==> exists k | 0 <= k < i :: users[k].key.name == name
    {
      var present := false;
      for j := 0 to |args|
        invariant present <==> users[i].key.name in args[..j]
      {
        if args[j] == users[i].key.name {
          present := true;
          break;
        }
      }
      if !present {
        assert args[..|args|] == args;
        args := args + [users[i].key.name];
      }
    }
    assert forall k | 0 <= k < |users| :: Names(users)[k] == users[k].key.name;
  }

  // ---------- handing out the rows ----------

  /** The first user of the slice with the name. */
  function Owner(users: seq<Record>, name: string): (r: Option<Record>)
    requires AllUsers(users)
    ensures r.Some? ==> r.value in users && r.value.key == User(name)
    ensures r.None? ==> forall u | u in users :: u.key != User(name)
  {
    if users == [] then None
    else if users[0].key.name == name then Some(users[0])
    else Owner(users[1..], name)
  }

  /** The loaded actors whose row has the name, in the order of the rows. */
  function RowsFor<T>(loaded: seq<T>, cols: seq<string>, name: string): seq<T>
    requires |loaded| == |cols|
  {
    if loaded == [] then []
    else
      var n := |loaded| - 1;
      RowsFor(loaded[..n], cols[..n], name) + if cols[n] == name then [loaded[n]] else []
  }

  function AsSeq<T>(o: Option<T>): seq<T> {
    if o.Some? then [o.value] else []
  }

  /** What the loop appends to the list of a user once the given rows are handed out. */
  function Share(users: seq<Record>, loaded: seq<Record>, cols: seq<string>, u: Record): seq<Record>
    requires AllUsers(users) && |loaded| == |cols| && u.key.User?
  {
    if Owner(users, u.key.name) == Some(u) then RowsFor(loaded, cols, u.key.name) else []
  }

  method FindOwner(users: seq<Record>, name: string) returns (r: Option<Record>)
    requires AllUsers(users)
    ensures r == Owner(users, name)
  {
    for i := 0 to |users|
      invariant Owner(users, name) == Owner(users[i..], name)
    {
      assert users[i..][1..] == users[i + 1..];
      if users[i].key.name == name {
        return Some(users[i]);
      }
    }
    return None;
  }

  /** Actors loaded by one query: one new object for each row. */
  predicate OnePerRow(loaded: seq<Record>, cols: seq<string>) {
    && |loaded| == |cols|
    && (forall i | 0 <= i < |loaded| :: loaded[i].key.Actor?)
    && (forall i, j | 0 <= i < j < |loaded| :: loaded[i] != loaded[j])
  }

  predicate InMemory<T>(lists: map<Record, T>, users: seq<Record>, loaded: seq<Record>) {
    (forall u | u in users :: u in lists) && forall x | x in loaded :: x in lists
  }

  /** The lists once the first i rows are handed out. */
  function Handed(lists: map<Record, seq<Record>>, users: seq<Record>, loaded: seq<Record>, cols: seq<string>, i: nat)
    : (r: map<Record, seq<Record>>)
    requires AllUsers(users) && |loaded| == |cols| && i <= |loaded| && InMemory(lists, users, loaded)
    ensures r.Keys == lists.Keys
  {
    if i == 0 then lists
    else
      var m := Handed(lists, users, loaded, cols, i - 1);
      match Owner(users, cols[i - 1])
      case None => m
      case Some(local) => Joined(m, local, loaded[i - 1])
  }

  function Joined(m: map<Record, seq<Record>>, local: Record, foreign: Record): map<Record, seq<Record>>
    requires local in m && foreign in m
  {
    var m' := m[local := m[local] + [foreign]];
    m'[foreign := m'[foreign] + [local]]
  }

  /** The loop over the rows. */
  method HandOut(users: seq<Record>, loaded: seq<Record>, cols: seq<string>, ghost all: set<Record>)
    requires AllUsers(users) && OnePerRow(loaded, cols) && InMemory(Keys(all), users, loaded)
    modifies users, loaded
    ensures Lists(all) == Handed(old(Lists(all)), users, loaded, cols, |loaded|)
  {
    for i := 0 to |loaded|
      invariant Lists(all) == Handed(old(Lists(all)), users, loaded, cols, i)
    {
      var local := FindOwner(users, cols[i]);
      if local.Some? {
        assert loaded[i] in loaded && loaded[i] in Keys(all) && local.value in Keys(all);
        local.value.Append([loaded[i]], all);
        loaded[i].Append([local.value], all);
      }
    }
  }

  lemma UserIsNoRow(users: seq<Record>, loaded: seq<Record>, cols: seq<string>, u: Record, i: nat)
    requires AllUsers(users) && OnePerRow(loaded, cols) && u in users && i < |loaded|
    ensures u.key.User? && u != loaded[i]
  {
  }

  lemma OneMoreForOwner(m: map<Record, seq<Record>>, local: Record, foreign: Record, u: Record)
    requires local in m && foreign in m && u in m && u != foreign
    ensures Joined(m, local, foreign)[u] == m[u] + if local == u then [foreign] else []
  {
  }

  /** What row number n adds to the list of a user. */
  function ShareOfRow(users: seq<Record>, loaded: seq<Record>, cols: seq<string>, n: nat, u: Record): seq<Record>
    requires AllUsers(users) && |loaded| == |cols| && n < |loaded|
  {
    if Owner(users, cols[n]) == Some(u) then [loaded[n]] else []
  }

  lemma HandedStep(lists: map<Record, seq<Record>>, users: seq<Record>, loaded: seq<Record>, cols: seq<string>,
                   n: nat, u: Record)
    requires AllUsers(users) && OnePerRow(loaded, cols) && n < |loaded| && InMemory(lists, users, loaded) && u in users
    ensures Handed(lists, users, loaded, cols, n + 1)[u]
         == Handed(lists, users, loaded, cols, n)[u] + ShareOfRow(users, loaded, cols, n, u)
  {
    UserIsNoRow(users, loaded, cols, u, n);
    assert loaded[n] in loaded;
    var owner := Owner(users, cols[n]);
    if owner.Some? {
      OneMoreForOwner(Handed(lists, users, loaded, cols, n), owner.value, loaded[n], u);
    }
  }

  lemma ShareStep(users: seq<Record>, loaded: seq<Record>, cols: seq<string>, n: nat, u: Record)
    requires AllUsers(users) && |loaded| == |cols| && n < |loaded| && u.key.User?
    ensures Share(users, loaded[..n + 1], cols[..n + 1], u)
         == Share(users, loaded[..n], cols[..n], u) + ShareOfRow(users, loaded, cols, n, u)
  {
    assert loaded[..n + 1][..n] == loaded[..n] && cols[..n + 1][..n] == cols[..n];
  }

  lemma NoShareYet(users: seq<Record>, loaded: seq<Record>, cols: seq<string>, u: Record)
    requires AllUsers(users) && |loaded| == |cols| && u.key.User?
    ensures Share(users, loaded[..0], cols[..0], u) == []
  {
  }

  lemma AllOfThem<T>(old_: seq<T>, before: seq<T>, share: seq<T>, row: seq<T>, after: seq<T>, share': seq<T>)
    requires before == old_ + share && after == before + row && share' == share + row
    ensures after == old_ + share'
  {
  }

  /** Each row goes to the first user with its name, behind what that user lists already. */
  lemma {:induction false} UsersGetTheirShare(lists: map<Record, seq<Record>>, users: seq<Record>, loaded: seq<Record>,
                                              cols: seq<string>, i: nat, u: Record)
    requires AllUsers(users) && OnePerRow(loaded, cols) && i <= |loaded| && InMemory(lists, users, loaded) && u in users
    ensures u.key.User?
    ensures Handed(lists, users, loaded, cols, i)[u] == lists[u] + Share(users, loaded[..i], cols[..i], u)
  {
    var k :| 0 <= k < |users| && users[k] == u;
    if i == 0 {
      NoShareYet(users, loaded, cols, u);
    } else {
      var n := i - 1;
      UsersGetTheirShare(lists, users, loaded, cols, n, u);
      HandedStep(lists, users, loaded, cols, n, u);
      ShareStep(users, loaded, cols, n, u);
      AllOfThem(lists[u], Handed(lists, users, loaded, cols, n)[u], Share(users, loaded[..n], cols[..n], u),
                ShareOfRow(users, loaded, cols, n, u), Handed(lists, users, loaded, cols, n + 1)[u],
                Share(users, loaded[..n + 1], cols[..n + 1], u));
    }
  }

  lemma OneMoreForRow(m: map<Record, seq<Record>>, local: Record, foreign: Record, x: Record)
    requires local in m && foreign in m && x in m && x != local
    ensures Joined(m, local, foreign)[x] == m[x] + if foreign == x then [local] else []
  {
  }

  lemma HandedStepForRow(lists: map<Record, seq<Record>>, users: seq<Record>, loaded: seq<Record>, cols: seq<string>,
                         n: nat, j: nat)
    requires AllUsers(users) && OnePerRow(loaded, cols) && InMemory(lists, users, loaded)
    requires n < |loaded| && j < |loaded|
    ensures Handed(lists, users, loaded, cols, n + 1)[loaded[j]]
         == Handed(lists, users, loaded, cols, n)[loaded[j]] + if n == j then AsSeq(Owner(users, cols[j])) else []
  {
    assert loaded[n] in loaded && loaded[j] in loaded;
    var owner := Owner(users, cols[n]);
    if owner.Some? {
      UserIsNoRow(users, loaded, cols, owner.value, j);
      OneMoreForRow(Handed(lists, users, loaded, cols, n), owner.value, loaded[n], loaded[j]);
    }
  }

  /** And the loaded actor lists that user in turn. */
  lemma {:induction false} RowsPointBack(lists: map<Record, seq<Record>>, users: seq<Record>, loaded: seq<Record>,
                                         cols: seq<string>, i: nat, j: nat)
    requires AllUsers(users) && OnePerRow(loaded, cols) && InMemory(lists, users, loaded)
    requires i <= |loaded| && j < |loaded|
    ensures Handed(lists, users, loaded, cols, i)[loaded[j]]
         == lists[loaded[j]] + if j < i then AsSeq(Owner(users, cols[j])) else []
  {
    if i > 0 {
      var n := i - 1;
      var owner, x := AsSeq(Owner(users, cols[j])), loaded[j];
      RowsPointBack(lists, users, loaded, cols, n, j);
      HandedStepForRow(lists, users, loaded, cols, n, j);
      AllOfThem(lists[x], Handed(lists, users, loaded, cols, n)[x], if j < n then owner else [],
                if n == j then owner else [], Handed(lists, users, loaded, cols, n + 1)[x],
                if j < n + 1 then owner else []);
    }
  }

  // ---------- a stable grouping ----------

  lemma {:induction false} EachIsItsOwner(users: seq<Record>, i: nat)
    requires AllUsers(users) && NoRepeats(Names(users)) && i < |users|
    ensures Owner(users, users[i].key.name) == Some(users[i])
  {
    if i > 0 {
      assert Names(users)[0] != Names(users)[i];
      assert Names(users)[1..] == Names(users[1..]);
      EachIsItsOwner(users[1..], i - 1);
    }
  }

  /** With distinct names, each user has its old list and then exactly the rows with its name, and each loaded
      actor of a row that was asked for points back to the one user of that name. */
  lemma LoadingGroups(lists: map<Record, seq<Record>>, users: seq<Record>, loaded: seq<Record>, cols: seq<string>)
    requires AllUsers(users) && OnePerRow(loaded, cols) && InMemory(lists, users, loaded) && NoRepeats(Names(users))
    ensures var after := Handed(lists, users, loaded, cols, |loaded|);
            && (forall i | 0 <= i < |users| ::
                  after[users[i]] == lists[users[i]] + RowsFor(loaded, cols, users[i].key.name))
            && (forall i, j | 0 <= i < |users| && 0 <= j < |loaded| && cols[j] == users[i].key.name ::
                  after[loaded[j]] == lists[loaded[j]] + [users[i]])
  {
    assert loaded[..|loaded|] == loaded && cols[..|cols|] == cols;
    var after := Handed(lists, users, loaded, cols, |loaded|);
    forall i | 0 <= i < |users| ensures after[users[i]] == lists[users[i]] + RowsFor(loaded, cols, users[i].key.name) {
      EachIsItsOwner(users, i);
      UsersGetTheirShare(lists, users, loaded, cols, |loaded|, users[i]);
    }
    forall i, j | 0 <= i < |users| && 0 <= j < |loaded| && cols[j] == users[i].key.name
      ensures after[loaded[j]] == lists[loaded[j]] + [users[i]]
    {
      EachIsItsOwner(users, i);
      RowsPointBack(lists, users, loaded, cols, |loaded|, j);
    }
  }

  /** The shares of the names, one after the other. */
  function AllShares<T>(loaded: seq<T>, cols: seq<string>, names: seq<string>): seq<T>
    requires |loaded| == |cols|
  {
    if names == [] then [] else RowsFor(loaded, cols, names[0]) + AllShares(loaded, cols, names[1..])
  }

  lemma {:induction false} OneMoreRow<T>(loaded: seq<T>, cols: seq<string>, names: seq<string>)
    requires loaded != [] && |loaded| == |cols| && NoRepeats(names)
    ensures var n := |loaded| - 1;
            multiset(AllShares(loaded, cols, names))
            == multiset(AllShares(loaded[..n], cols[..n], names))
               + if cols[n] in names then multiset{loaded[n]} else multiset{}
    decreases |names|
  {
    if names != [] {
      OneMoreRow(loaded, cols, names[1..]);
    }
  }

  predicate AskedFor(cols: seq<string>, names: seq<string>) {
    forall i | 0 <= i < |cols| :: cols[i] in names
  }

  /** No row is lost or handed out twice: if every row is about a user that was asked for, the shares
      together are the rows. */
  lemma {:induction false} NoRowIsLost<T>(loaded: seq<T>, cols: seq<string>, names: seq<string>)
    requires |loaded| == |cols| && NoRepeats(names) && AskedFor(cols, names)
    ensures multiset(AllShares(loaded, cols, names)) == multiset(loaded)
  {
    if loaded == [] {
      NothingToShare(loaded, cols, names);
    } else {
      var n := |loaded| - 1;
      assert AskedFor(cols[..n], names) && cols[n] in names;
      NoRowIsLost(loaded[..n], cols[..n], names);
      OneMoreRow(loaded, cols, names);
      LastElement(loaded);
    }
  }

  lemma {:induction false} NothingToShare<T>(loaded: seq<T>, cols: seq<string>, names: seq<string>)
    requires loaded == [] && cols == []
    ensures AllShares(loaded, cols, names) == []
    decreases |names|
  {
    if names != [] {
      NothingToShare(loaded, cols, names[1..]);
    }
  }

  /** Every row with the name is among them. */
  lemma {:induction false} RowIsFound<T>(loaded: seq<T>, cols: seq<string>, name: string, i: nat)
    requires |loaded| == |cols| && i < |cols| && cols[i] == name
    ensures loaded[i] in RowsFor(loaded, cols, name)
  {
    var n := |loaded| - 1;
    if i < n {
      RowIsFound(loaded[..n], cols[..n], name, i);
    }
  }

  /** The listed rows are at these positions of the result, one behind the other, and have the name. */
  predicate Picked<T(==)>(rows: seq<T>, loaded: seq<T>, cols: seq<string>, name: string, at: seq<nat>)
    requires |loaded| == |cols|
  {
    && |at| == |rows|
    && (forall k | 0 <= k < |at| :: at[k] < |cols| && cols[at[k]] == name && rows[k] == loaded[at[k]])
    && (forall k, l | 0 <= k < l < |at| :: at[k] < at[l])
  }

  lemma PickedStays<T>(rows: seq<T>, loaded: seq<T>, cols: seq<string>, name: string, at: seq<nat>)
    requires loaded != [] && |loaded| == |cols| && Picked(rows, loaded[..|loaded| - 1], cols[..|cols| - 1], name, at)
    ensures Picked(rows, loaded, cols, name, at)
    ensures cols[|cols| - 1] == name ==> Picked(rows + [loaded[|cols| - 1]], loaded, cols, name, at + [|cols| - 1])
  {
  }

  /** And they are in the order in which the query returned them. */
  lemma {:induction false} RowsKeepTheirOrder<T>(loaded: seq<T>, cols: seq<string>, name: string) returns (at: seq<nat>)
    requires |loaded| == |cols|
    ensures Picked(RowsFor(loaded, cols, name), loaded, cols, name, at)
  {
    if loaded == [] {
      at := [];
    } else {
      var n := |loaded| - 1;
      var front := RowsFor(loaded[..n], cols[..n], name);
      at := RowsKeepTheirOrder(loaded[..n], cols[..n], name);
      PickedStays(front, loaded, cols, name, at);
      if cols[n] == name {
        at := at + [n];
        assert RowsFor(loaded, cols, name) == front + [loaded[n]];
      } else {
        assert RowsFor(loaded, cols, name) == front;
      }
    }
  }
}

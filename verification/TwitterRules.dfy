/** What the two account lookups of module TwitterClient answer and what they leave in the cache, told from the
    cache before them and from the answers. */
module TwitterRules {
  import opened Options
  import opened Environment
  import opened TwitterClient

  // ---------- by name ----------

  /** The entry is there, and the first n calls from the given one on do not evict it. */
  predicate Survives(cache: Cache, env: nat -> Reply, from: nat, n: nat, k: Key) {
    k in cache && forall i | from <= i < from + n :: k !in env(i).evicted
  }

  /** The answer of Twitter to a name: an account, no such account, or an error. An error of the type not-found
      wins over every other error, and so does a list without accounts. */
  predicate Answers(a: Reply, user: TwitterUser) {
    a.ok && a.errors == [] && a.users != [] && a.users[0] == user
  }

  predicate AnswersNobody(a: Reply) {
    a.ok && ("https://api.twitter.com/2/problems/resource-not-found" in a.errors || a.users == [])
  }

  /** The lookup returns what the cache has, and otherwise what Twitter answers. */
  lemma GetUserExactly(cache: Cache, env: nat -> Reply, n: nat, username: string, user: TwitterUser)
    ensures var r := FetchByName(cache, env, n, username).2; var key := NameKey(username);
            && (r == Found(user) <==> env(n).ok && if Survives(cache, env, n, 1, key) then cache[key] == user
                                                   else Answers(env(n + 1), user))
            && (r == NotFound <==> env(n).ok && !Survives(cache, env, n, 1, key) && AnswersNobody(env(n + 1)))
  {
  }

  /** A write that takes effect, at the i-th call from the given one on. */
  predicate Writes(a: Reply) {
    a.ok && a.lands
  }

  /** After a lookup that asked Twitter and found the account, it is under its name and under its ID, each unless
      that write did not take effect or the entry was evicted since; every other entry stays unless evicted. */
  lemma GetUserCaches(cache: Cache, env: nat -> Reply, n: nat, username: string, k: Key)
    requires env(n).ok && !Survives(cache, env, n, 1, NameKey(username))
    requires FetchByName(cache, env, n, username).2.Found?
    ensures var (cache', n', r) := FetchByName(cache, env, n, username);
            var byName := k == NameKey(username) && Writes(env(n + 2)) && k !in env(n + 3).evicted;
            var byId := k == IdKey(r.user.id) && Writes(env(n + 3));
            && n' == n + 4
            && (k in cache' <==> byName || byId || Survives(cache, env, n, 4, k))
            && (byName || byId ==> cache'[k] == r.user)
            && (Survives(cache, env, n, 4, k) && !byName && !byId ==> cache'[k] == cache[k])
  {
    assert Survives(cache, env, n, 4, k) <==>
           k in cache && k !in env(n).evicted && k !in env(n + 1).evicted && k !in env(n + 2).evicted
               && k !in env(n + 3).evicted;
  }

  /** Any other lookup only loses what is evicted, and one that the cache answers makes no further call. */
  lemma GetUserOnlyReads(cache: Cache, env: nat -> Reply, n: nat, username: string, k: Key)
    requires !env(n).ok || Survives(cache, env, n, 1, NameKey(username))
             || !FetchByName(cache, env, n, username).2.Found?
    ensures var (cache', n', _) := FetchByName(cache, env, n, username);
            && n' == n + (if !env(n).ok || Survives(cache, env, n, 1, NameKey(username)) then 1 else 2)
            && (k in cache' <==> Survives(cache, env, n, n' - n, k)) && (k in cache' ==> cache'[k] == cache[k])
  {
    assert Survives(cache, env, n, 2, k) <==> k in cache && k !in env(n).evicted && k !in env(n + 1).evicted;
  }

  // ---------- by ID ----------

  /** The read of the i-th ID finds its account. */
  predicate Held(cache: Cache, env: nat -> Reply, n: nat, ids: seq<string>, i: nat)
    requires i < |ids|
  {
    Survives(cache, env, n, i + 1, IdKey(ids[i]))
  }

  predicate Increasing(at: seq<nat>) {
    forall k, l | 0 <= k < l < |at| :: at[k] < at[l]
  }

  /** The positions whose reads find something, and the others, both in order. */
  predicate Positions(cache: Cache, env: nat -> Reply, n: nat, ids: seq<string>, found: seq<nat>, others: seq<nat>) {
    && |found| + |others| == |ids| && Increasing(found) && Increasing(others)
    && (forall k | 0 <= k < |found| :: found[k] < |ids| && Held(cache, env, n, ids, found[k]))
    && (forall k | 0 <= k < |others| :: others[k] < |ids| && !Held(cache, env, n, ids, others[k]))
  }

  /** What the search returns: the accounts found, in order, and the IDs of the others, in order. */
  predicate Finds(cache: Cache, ids: seq<string>, found: seq<nat>, others: seq<nat>, s: Split) {
    && |s.known| == |found| && |s.missing| == |others|
    && (forall k | 0 <= k < |found| ::
          found[k] < |ids| && IdKey(ids[found[k]]) in cache && s.known[k] == cache[IdKey(ids[found[k]])])
    && (forall k | 0 <= k < |others| :: others[k] < |ids| && s.missing[k] == ids[others[k]])
  }

  predicate ReadsOk(env: nat -> Reply, n: nat, m: nat) {
    forall i | n <= i < n + m :: env(i).ok
  }

  lemma {:induction false} SearchOkExactly(cache: Cache, env: nat -> Reply, n: nat, ids: seq<string>)
    ensures Search(cache, env, n, ids).ok <==> ReadsOk(env, n, |ids|)
  {
    if ids != [] {
      var last := |ids| - 1;
      SearchOkExactly(cache, env, n, ids[..last]);
      assert ReadsOk(env, n, |ids|) <==> ReadsOk(env, n, last) && env(n + last).ok;
    }
  }

  lemma {:induction false} SearchCacheExactly(cache: Cache, env: nat -> Reply, n: nat, ids: seq<string>, k: Key)
    requires ReadsOk(env, n, |ids|)
    ensures var cache' := Search(cache, env, n, ids).cache;
            (k in cache' <==> Survives(cache, env, n, |ids|, k)) && (k in cache' ==> cache'[k] == cache[k])
  {
    if ids != [] {
      var last := |ids| - 1;
      SearchCacheExactly(cache, env, n, ids[..last], k);
      SearchOkExactly(cache, env, n, ids[..last]);
      assert Survives(cache, env, n, |ids|, k) <==> Survives(cache, env, n, last, k) && k !in env(n + last).evicted;
    }
  }

  lemma PositionsOneMore(cache: Cache, env: nat -> Reply, n: nat, ids: seq<string>, found: seq<nat>, others: seq<nat>)
    requires ids != [] && Positions(cache, env, n, ids[..|ids| - 1], found, others)
    ensures var last := |ids| - 1;
            if Held(cache, env, n, ids, last) then Positions(cache, env, n, ids, found + [last], others)
            else Positions(cache, env, n, ids, found, others + [last])
  {
    var init := ids[..|ids| - 1];
    assert forall i | 0 <= i < |init| :: Held(cache, env, n, init, i) <==> Held(cache, env, n, ids, i);
  }

  lemma FindsOneMore(cache: Cache, ids: seq<string>, found: seq<nat>, others: seq<nat>, front: Split, a: Reply)
    requires ids != [] && a.ok && Finds(cache, ids[..|ids| - 1], found, others, front)
    requires var key := IdKey(ids[|ids| - 1]);
             key in front.cache - a.evicted ==> key in cache && front.cache[key] == cache[key]
    ensures var last := |ids| - 1; var s := SearchOne(front, ids[last], a);
            if IdKey(ids[last]) in front.cache - a.evicted then Finds(cache, ids, found + [last], others, s)
            else Finds(cache, ids, found, others + [last], s)
  {
  }

  lemma HeldLast(cache: Cache, env: nat -> Reply, n: nat, ids: seq<string>)
    requires ids != [] && ReadsOk(env, n, |ids|)
    ensures var last := |ids| - 1; var front, key := Search(cache, env, n, ids[..last]), IdKey(ids[last]);
            && front.ok && (key in front.cache ==> key in cache && front.cache[key] == cache[key])
            && (Held(cache, env, n, ids, last) <==> key in front.cache - env(n + last).evicted)
  {
    var last := |ids| - 1;
    SearchOkExactly(cache, env, n, ids[..last]);
    SearchCacheExactly(cache, env, n, ids[..last], IdKey(ids[last]));
  }

  lemma OneMoreRead(cache: Cache, env: nat -> Reply, n: nat, ids: seq<string>, found: seq<nat>, others: seq<nat>,
                    front: Split, s: Split)
    requires ids != [] && ReadsOk(env, n, |ids|)
    requires front == Search(cache, env, n, ids[..|ids| - 1]) && s == Search(cache, env, n, ids)
    requires Finds(cache, ids[..|ids| - 1], found, others, front)
    ensures var last := |ids| - 1;
            if Held(cache, env, n, ids, last) then Finds(cache, ids, found + [last], others, s)
            else Finds(cache, ids, found, others + [last], s)
  {
    SearchLast(cache, env, n, ids);
    HeldLast(cache, env, n, ids);
    FindsOneMore(cache, ids, found, others, front, env(n + |ids| - 1));
  }

  /** With reads that do not fail, the search sorts the positions into those it finds and those it has to ask
      for. */
  lemma {:induction false} SearchExactly(cache: Cache, env: nat -> Reply, n: nat, ids: seq<string>)
    returns (found: seq<nat>, others: seq<nat>)
    requires ReadsOk(env, n, |ids|)
    ensures Positions(cache, env, n, ids, found, others)
    ensures Finds(cache, ids, found, others, Search(cache, env, n, ids))
  {
    if ids == [] {
      found, others := [], [];
    } else {
      var last := |ids| - 1;
      var front, s := Search(cache, env, n, ids[..last]), Search(cache, env, n, ids);
      found, others := SearchExactly(cache, env, n, ids[..last]);
      PositionsOneMore(cache, env, n, ids, found, others);
      OneMoreRead(cache, env, n, ids, found, others, front, s);
      if Held(cache, env, n, ids, last) {
        found := found + [last];
      } else {
        others := others + [last];
      }
    }
  }

  /** There is a result exactly when no read fails and, unless everything is found, the lookup succeeds without
      any error; it is what was found and then what Twitter answers. */
  lemma GetUserByIDsExactly(cache: Cache, env: nat -> Reply, n: nat, ids: seq<string>)
    returns (found: seq<nat>, others: seq<nat>)
    ensures var r, a := FetchByIds(cache, env, n, ids), env(n + |ids|);
            && (ReadsOk(env, n, |ids|) ==> Positions(cache, env, n, ids, found, others))
            && (r.Some? <==> ReadsOk(env, n, |ids|) && (others == [] || (a.ok && a.errors == [])))
            && (r.Some? ==>
                  && |r.value| == |found| + (if others == [] then 0 else |a.users|)
                  && (forall k | 0 <= k < |found| ::
                        IdKey(ids[found[k]]) in cache && r.value[k] == cache[IdKey(ids[found[k]])])
                  && r.value[|found|..] == if others == [] then [] else a.users)
  {
    found, others := [], [];
    SearchOkExactly(cache, env, n, ids);
    if ReadsOk(env, n, |ids|) {
      found, others := SearchExactly(cache, env, n, ids);
      var s, a := Search(cache, env, n, ids), env(n + |ids|);
      assert (s.known + a.users)[|s.known|..] == a.users;
    }
  }

  /** And the cache only loses what is evicted meanwhile. */
  lemma GetUserByIDsOnlyReads(cache: Cache, env: nat -> Reply, n: nat, ids: seq<string>, k: Key)
    requires ReadsOk(env, n, |ids|)
    ensures var cache' := AfterIds(cache, env, n, ids);
            var calls := |ids| + if Search(cache, env, n, ids).missing == [] then 0 else 1;
            (k in cache' <==> Survives(cache, env, n, calls, k)) && (k in cache' ==> cache'[k] == cache[k])
  {
    SearchOkExactly(cache, env, n, ids);
    SearchCacheExactly(cache, env, n, ids, k);
    assert Survives(cache, env, n, |ids| + 1, k) <==>
           Survives(cache, env, n, |ids|, k) && k !in env(n + |ids|).evicted;
  }
}

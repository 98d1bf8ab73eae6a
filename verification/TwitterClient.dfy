/** The account lookups of internal/twitter/client.go over the shared Redis. */
module TwitterClient {
  import opened Sequences
  import opened Options
  import opened Environment

  // ---------- keys ----------

  /** What Redis is asked for: an account by name, an account by ID, or a tweet. */
  datatype Key = NameKey(username: string) | IdKey(id: string) | TweetKey(tweet: string)

  /** The text of a key: the formats of the client, and getTweetCacheKey of
      internal/twitter/repository/tweet_repository.go. */
  function Text(k: Key): string {
    match k
    case NameKey(username) => "twitter/user/by-username/" + username
    case IdKey(id) => "twitter/user/by-id/" + id
    case TweetKey(tweet) => "twitter/tweets/" + tweet
  }

  lemma SameAfterPrefix(prefix: string, s: string, t: string)
    requires prefix + s == prefix + t
    ensures s == t
  {
    assert (prefix + s)[|prefix|..] == s && (prefix + t)[|prefix|..] == t;
  }

  /** The three families of texts are injective and never meet, so that Redis is a map from keys. */
  lemma TextsNeverMeet(k: Key, k': Key)
    ensures Text(k) == Text(k') <==> k == k'
  {
    if Text(k) == Text(k') {
      assert Text(k)[8] == (if k.TweetKey? then 't' else 'u') && Text(k')[8] == if k'.TweetKey? then 't' else 'u';
      assert !k.TweetKey? ==> Text(k)[16] == if k.NameKey? then 'u' else 'i';
      assert !k'.TweetKey? ==> Text(k')[16] == if k'.NameKey? then 'u' else 'i';
      match k
      case NameKey(username) => SameAfterPrefix("twitter/user/by-username/", username, k'.username);
      case IdKey(id) => SameAfterPrefix("twitter/user/by-id/", id, k'.id);
      case TweetKey(tweet) => SameAfterPrefix("twitter/tweets/", tweet, k'.tweet);
    }
  }

  // ---------- the calls ----------

  const NOT_FOUND := "https://api.twitter.com/2/problems/resource-not-found"

  /** The answer to one call to Redis or to Twitter.
      evicted: keys that have expired since the last call
      users, errors: what a lookup returns, the errors by their type
      lands:   a Redis write takes effect; its error is discarded */
  datatype Reply = Reply(ok: bool, evicted: set<Key>, users: seq<TwitterUser>, errors: seq<string>, lands: bool)

  type Cache = map<Key, TwitterUser>

  function Write(cache: Cache, key: Key, user: TwitterUser, a: Reply): Cache {
    var left := cache - a.evicted;
    if a.ok && a.lands then left[key := user] else left
  }

  datatype Lookup = Found(user: TwitterUser) | NotFound | Failed

  /** How a response of Twitter to one name is read. */
  function ReadOne(a: Reply): Lookup {
    if !a.ok then Failed
    else if NOT_FOUND in a.errors || a.users == [] then NotFound
    else if a.errors != [] then Failed
    else Found(a.users[0])
  }

  /** GetUser, starting with the n-th call. */
  function FetchByName(cache: Cache, env: nat -> Reply, n: nat, username: string): (Cache, nat, Lookup) {
    var left := cache - env(n).evicted;
    if !env(n).ok then (left, n + 1, Failed)
    else if NameKey(username) in left then (left, n + 1, Found(left[NameKey(username)]))
    else
      var left' := left - env(n + 1).evicted;
      var r := ReadOne(env(n + 1));
      if !r.Found? then (left', n + 2, r)
      else
        (Write(Write(left', NameKey(username), r.user, env(n + 2)), IdKey(r.user.id), r.user, env(n + 3)), n + 4, r)
  }

  datatype Split = Split(cache: Cache, ok: bool, known: seq<TwitterUser>, missing: seq<string>)

  function SearchOne(front: Split, id: string, a: Reply): Split {
    var left := front.cache - a.evicted;
    if !a.ok then front.(cache := left, ok := false)
    else if IdKey(id) in left then front.(cache := left, known := front.known + [left[IdKey(id)]])
    else front.(cache := left, missing := front.missing + [id])
  }

  /** Which of the accounts are in the cache, when it is asked one ID after the other. */
  function Search(cache: Cache, env: nat -> Reply, n: nat, ids: seq<string>): Split {
    if ids == [] then Split(cache, true, [], [])
    else
      var last := |ids| - 1;
      var front := Search(cache, env, n, ids[..last]);
      if front.ok then SearchOne(front, ids[last], env(n + last)) else front
  }

  /** The accounts found, and those a lookup adds. */
  function Combine(s: Split, a: Reply): Option<seq<TwitterUser>> {
    if !s.ok then None
    else if s.missing == [] then Some(s.known)
    else if a.ok && a.errors == [] then Some(s.known + a.users)
    else None
  }

  /** GetUserByIDs as a whole. */
  function FetchByIds(cache: Cache, env: nat -> Reply, n: nat, ids: seq<string>): Option<seq<TwitterUser>> {
    Combine(Search(cache, env, n, ids), env(n + |ids|))
  }

  function AfterIds(cache: Cache, env: nat -> Reply, n: nat, ids: seq<string>): Cache {
    var s := Search(cache, env, n, ids);
    if s.ok && s.missing != [] then s.cache - env(n + |ids|).evicted else s.cache
  }

  datatype Question = ForName(username: string) | ForIds(ids: seq<string>)

  class Client {
    var cache: Cache
    var clock: nat
    /** What Twitter was asked so far. */
    var asked: seq<Question>
    const env: nat -> Reply

    constructor (env: nat -> Reply)
      ensures this.env == env && cache == map[] && clock == 0 && asked == []
    {
      this.env, cache, clock, asked := env, map[], 0, [];
    }

    method Ask() returns (a: Reply)
      modifies this`cache, this`clock
      ensures a == env(old(clock)) && clock == old(clock) + 1 && cache == old(cache) - a.evicted
    {
      a := env(clock);
      clock := clock + 1;
      cache := cache - a.evicted;
    }

    method Set(key: Key, user: TwitterUser)
      modifies this`cache, this`clock
      ensures clock == old(clock) + 1 && cache == Write(old(cache), key, user, env(old(clock)))
    {
      var a := Ask();
      if a.ok && a.lands {
        cache := cache[key := user];
      }
    }

    method GetUser(username: string) returns (r: Lookup)
      modifies this
      ensures (cache, clock, r) == FetchByName(old(cache), env, old(clock), username)
      ensures var a := env(old(clock));
              asked == if a.ok && NameKey(username) !in old(cache) - a.evicted then old(asked) + [ForName(username)]
                       else old(asked)
    {
      var cacheKey := NameKey(username);
      var fromCache := Ask();
      if !fromCache.ok {
        return Failed;
      }
      if cacheKey in cache {
        return Found(cache[cacheKey]);
      }
      asked := asked + [ForName(username)];
      var lookup := Ask();
      if !lookup.ok {
        return Failed;
      }
      for i := 0 to |lookup.errors|
        invariant NOT_FOUND !in lookup.errors[..i]
        invariant cache == old(cache) - env(old(clock)).evicted - lookup.evicted && clock == old(clock) + 2
        invariant asked == old(asked) + [ForName(username)]
      {
        if lookup.errors[i] == NOT_FOUND {
          return NotFound;
        }
      }
      assert lookup.errors[..|lookup.errors|] == lookup.errors;
      if |lookup.users| == 0 {
        return NotFound;
      }
      if |lookup.errors| != 0 {
        return Failed;
      }
      var user := lookup.users[0];
      Set(cacheKey, user);
      Set(IdKey(user.id), user);
      r := Found(user);
    }

    /** The loop of GetUserByIDs over the cache. */
    method SearchCache(ids: seq<string>) returns (ok: bool, known: seq<TwitterUser>, missing: seq<string>)
      modifies this`cache, this`clock
      ensures Split(cache, ok, known, missing) == Search(old(cache), env, old(clock), ids)
      ensures ok ==> clock == old(clock) + |ids|
    {
      ok, known, missing := true, [], [];
      for i := 0 to |ids|
        invariant Search(old(cache), env, old(clock), ids[..i]) == Split(cache, true, known, missing)
        invariant ok && clock == old(clock) + i
      {
        SearchNext(old(cache), env, old(clock), ids, i);
        var fromCache := Ask();
        if !fromCache.ok {
          SearchStops(old(cache), env, old(clock), ids, i + 1);
          ok := false;
          return;
        }
        if IdKey(ids[i]) in cache {
          known := known + [cache[IdKey(ids[i])]];
        } else {
          missing := missing + [ids[i]];
        }
      }
      assert ids[..|ids|] == ids;
    }

    /** None when a call fails or Twitter reports an error for one of the accounts. */
    method GetUserByIDs(ids: seq<string>) returns (r: Option<seq<TwitterUser>>)
      modifies this
      ensures r == FetchByIds(old(cache), env, old(clock), ids)
      ensures cache == AfterIds(old(cache), env, old(clock), ids)
      ensures var s := Search(old(cache), env, old(clock), ids);
              asked == if s.ok && s.missing != [] then old(asked) + [ForIds(s.missing)] else old(asked)
    {
      var ok, results, missingIds := SearchCache(ids);
      if !ok {
        return None;
      }
      if |missingIds| > 0 {
        asked := asked + [ForIds(missingIds)];
        var resp := Ask();
        if !resp.ok {
          return None;
        }
        if |resp.errors| != 0 {
          return None;
        }
        results := results + resp.users;
      }
      r := Some(results);
    }
  }

  lemma SearchNext(cache: Cache, env: nat -> Reply, n: nat, ids: seq<string>, i: nat)
    requires i < |ids| && Search(cache, env, n, ids[..i]).ok
    ensures Search(cache, env, n, ids[..i + 1]) == SearchOne(Search(cache, env, n, ids[..i]), ids[i], env(n + i))
  {
    assert ids[..i + 1][..i] == ids[..i];
  }

  lemma {:induction false} SearchStops(cache: Cache, env: nat -> Reply, n: nat, ids: seq<string>, i: nat)
    requires i <= |ids| && !Search(cache, env, n, ids[..i]).ok
    ensures Search(cache, env, n, ids) == Search(cache, env, n, ids[..i])
  {
    if i == |ids| {
      assert ids[..i] == ids;
    } else {
      assert ids[..|ids| - 1][..i] == ids[..i];
      SearchStops(cache, env, n, ids[..|ids| - 1], i);
    }
  }

  // ---------- a frozen Twitter ----------

  /** What Twitter holds: accounts by ID, and the account a name leads to. */
  datatype Accounts = Accounts(byId: map<string, TwitterUser>, byName: map<string, TwitterUser>)

  predicate Coherent(b: Accounts) {
    && (forall id | id in b.byId :: b.byId[id].id == id)
    && (forall name | name in b.byName :: b.byName[name].id in b.byId && b.byId[b.byName[name].id] == b.byName[name])
  }

  /** Every entry is what Twitter holds. */
  ghost predicate Fresh(b: Accounts, cache: Cache) {
    && (forall name :: NameKey(name) in cache ==> name in b.byName && cache[NameKey(name)] == b.byName[name])
    && (forall id :: IdKey(id) in cache ==> id in b.byId && cache[IdKey(id)] == b.byId[id])
  }

  predicate AllHeld(b: Accounts, ids: seq<string>) {
    forall i | 0 <= i < |ids| :: ids[i] in b.byId
  }

  /** The accounts Twitter holds for the IDs, in that order. */
  function Holds(b: Accounts, ids: seq<string>): (r: seq<TwitterUser>)
    requires AllHeld(b, ids)
  {
    seq(|ids|, i requires 0 <= i < |ids| => b.byId[ids[i]])
  }

  /** A lookup by ID reports an error exactly when an account is missing; otherwise it returns each account
      once, in any order. Only said of distinct IDs. */
  predicate AnswersIds(b: Accounts, ids: seq<string>, a: Reply) {
    a.ok && NoRepeats(ids) ==>
      && (a.errors == [] <==> AllHeld(b, ids))
      && (a.errors == [] ==> multiset(a.users) == multiset(Holds(b, ids)))
  }

  predicate AnswersName(b: Accounts, username: string, a: Reply) {
    a.ok && a.errors == [] && a.users != [] ==> username in b.byName && a.users[0] == b.byName[username]
  }

  lemma WriteKeepsFresh(b: Accounts, cache: Cache, username: string, user: TwitterUser, a: Reply, a': Reply)
    requires Coherent(b) && Fresh(b, cache) && username in b.byName && b.byName[username] == user
    ensures Fresh(b, Write(Write(cache, NameKey(username), user, a), IdKey(user.id), user, a'))
  {
  }

  /** GetUser keeps the cache in line with Twitter, and returns what Twitter holds. */
  lemma GetUserKeepsFresh(b: Accounts, cache: Cache, env: nat -> Reply, n: nat, username: string)
    requires Coherent(b) && Fresh(b, cache) && AnswersName(b, username, env(n + 1))
    ensures var (cache', n', r) := FetchByName(cache, env, n, username);
            Fresh(b, cache') && (r.Found? ==> username in b.byName && r.user == b.byName[username])
  {
    var left := cache - env(n).evicted - env(n + 1).evicted;
    if env(n).ok && NameKey(username) !in cache - env(n).evicted && ReadOne(env(n + 1)).Found? {
      WriteKeepsFresh(b, left, username, env(n + 1).users[0], env(n + 2), env(n + 3));
    }
  }

  lemma EvictionKeepsFresh(b: Accounts, cache: Cache, evicted: set<Key>)
    requires Fresh(b, cache)
    ensures Fresh(b, cache - evicted)
  {
  }

  lemma SearchLast(cache: Cache, env: nat -> Reply, n: nat, ids: seq<string>)
    requires ids != []
    ensures var front, s := Search(cache, env, n, ids[..|ids| - 1]), Search(cache, env, n, ids);
            s == if front.ok then SearchOne(front, ids[|ids| - 1], env(n + |ids| - 1)) else front
  {
  }

  lemma {:induction false} SearchKeepsFresh(b: Accounts, cache: Cache, env: nat -> Reply, n: nat, ids: seq<string>)
    requires Fresh(b, cache)
    ensures Fresh(b, Search(cache, env, n, ids).cache)
  {
    if ids != [] {
      var front, s := Search(cache, env, n, ids[..|ids| - 1]), Search(cache, env, n, ids);
      SearchKeepsFresh(b, cache, env, n, ids[..|ids| - 1]);
      SearchLast(cache, env, n, ids);
      KeepsFresh(b, front, s, env(n + |ids| - 1).evicted);
    }
  }

  lemma KeepsFresh(b: Accounts, front: Split, s: Split, evicted: set<Key>)
    requires Fresh(b, front.cache) && s.cache == if front.ok then front.cache - evicted else front.cache
    ensures Fresh(b, s.cache)
  {
    EvictionKeepsFresh(b, front.cache, evicted);
  }

  /** The search asks for IDs of the list only, each once. */
  predicate AsksOnce(missing: seq<string>, ids: seq<string>) {
    (forall id | id in missing :: id in ids) && (NoRepeats(ids) ==> NoRepeats(missing))
  }

  lemma {:induction false} SearchAsksOnce(cache: Cache, env: nat -> Reply, n: nat, ids: seq<string>)
    ensures AsksOnce(Search(cache, env, n, ids).missing, ids)
  {
    if ids != [] {
      var last := |ids| - 1;
      SearchAsksOnce(cache, env, n, ids[..last]);
      AskedOneMore(Search(cache, env, n, ids[..last]).missing, ids);
    }
  }

  lemma AskedOneMore(missing: seq<string>, ids: seq<string>)
    requires ids != [] && AsksOnce(missing, ids[..|ids| - 1])
    ensures AsksOnce(missing, ids) && AsksOnce(missing + [ids[|ids| - 1]], ids)
  {
    var last := |ids| - 1;
    forall id | id in missing ensures id in ids {
      assert id in ids[..last];
    }
    if NoRepeats(ids) {
      FrontHasNoRepeats(ids);
      OneMoreHasNoRepeats(missing, ids[last]);
    }
  }

  lemma {:induction false} SearchSucceeds(cache: Cache, env: nat -> Reply, n: nat, ids: seq<string>)
    requires forall i: nat | n <= i < n + |ids| :: env(i).ok
    ensures Search(cache, env, n, ids).ok
  {
    if ids != [] {
      SearchSucceeds(cache, env, n, ids[..|ids| - 1]);
    }
  }

  /** What the search finds and what it still has to ask for are together the whole list. */
  predicate Splits(b: Accounts, s: Split, ids: seq<string>) {
    && (AllHeld(b, s.missing) <==> AllHeld(b, ids))
    && (AllHeld(b, ids) ==> multiset(s.known) + multiset(Holds(b, s.missing)) == multiset(Holds(b, ids)))
  }

  lemma {:induction false} SearchSplits(b: Accounts, cache: Cache, env: nat -> Reply, n: nat, ids: seq<string>,
      s: Split)
    requires Fresh(b, cache) && s == Search(cache, env, n, ids) && s.ok
    ensures Splits(b, s, ids)
  {
    if ids != [] {
      var init, id, a := ids[..|ids| - 1], ids[|ids| - 1], env(n + |ids| - 1);
      var front := Search(cache, env, n, init);
      SearchLast(cache, env, n, ids);
      SearchSplits(b, cache, env, n, init, front);
      SearchKeepsFresh(b, cache, env, n, init);
      SearchOneSplits(b, front, init, id, a);
      FrontAndLast(ids);
    }
  }

  lemma FrontAndLast(ids: seq<string>)
    requires ids != []
    ensures ids[..|ids| - 1] + [ids[|ids| - 1]] == ids
  {
  }

  lemma SearchOneSplits(b: Accounts, front: Split, ids: seq<string>, id: string, a: Reply)
    requires Fresh(b, front.cache) && Splits(b, front, ids) && a.ok
    ensures Splits(b, SearchOne(front, id, a), ids + [id])
  {
    var left := front.cache - a.evicted;
    EvictionKeepsFresh(b, front.cache, a.evicted);
    if IdKey(id) in left {
      KnownSplits(b, front, ids, id, left);
    } else {
      MissingSplits(b, front, ids, id, left);
    }
  }

  lemma KnownSplits(b: Accounts, front: Split, ids: seq<string>, id: string, left: Cache)
    requires Splits(b, front, ids) && id in b.byId
    ensures Splits(b, front.(cache := left, known := front.known + [b.byId[id]]), ids + [id])
  {
    HeldOneMore(b, ids, id);
    if AllHeld(b, ids) {
      HoldsOneMore(b, ids, id);
    }
  }

  lemma MissingSplits(b: Accounts, front: Split, ids: seq<string>, id: string, left: Cache)
    requires Splits(b, front, ids)
    ensures Splits(b, front.(cache := left, missing := front.missing + [id]), ids + [id])
  {
    HeldOneMore(b, ids, id);
    HeldOneMore(b, front.missing, id);
    if AllHeld(b, ids + [id]) {
      HoldsOneMore(b, ids, id);
      HoldsOneMore(b, front.missing, id);
    }
  }

  lemma HeldOneMore(b: Accounts, ids: seq<string>, id: string)
    ensures AllHeld(b, ids + [id]) <==> AllHeld(b, ids) && id in b.byId
  {
    if AllHeld(b, ids + [id]) {
      assert (ids + [id])[|ids|] == id;
      assert forall i | 0 <= i < |ids| :: (ids + [id])[i] == ids[i];
    }
  }

  lemma HoldsOneMore(b: Accounts, ids: seq<string>, id: string)
    requires id in b.byId && AllHeld(b, ids)
    ensures AllHeld(b, ids + [id]) && Holds(b, ids + [id]) == Holds(b, ids) + [b.byId[id]]
  {
  }

  lemma CombineCompletes(b: Accounts, s: Split, ids: seq<string>, a: Reply)
    requires s.ok && Splits(b, s, ids) && NoRepeats(s.missing) && AnswersIds(b, s.missing, a)
    ensures var r := Combine(s, a);
            && (r.Some? ==> AllHeld(b, ids) && multiset(r.value) == multiset(Holds(b, ids)))
            && (a.ok ==> (r.Some? <==> AllHeld(b, ids)))
  {
    if s.missing == [] {
      assert Holds(b, s.missing) == [];
    }
  }

  predicate AllSucceed(env: nat -> Reply, n: nat, calls: nat) {
    forall i: nat | n <= i < n + calls :: env(i).ok
  }

  /** The cache never shows: on distinct IDs, and whatever has been cached or evicted, the result is as a
      multiset what Twitter holds for them; and when every call succeeds, there is a result exactly when
      Twitter holds all of them, which is when a lookup of all of them would succeed. */
  lemma CachedLookupIsLookup(b: Accounts, cache: Cache, env: nat -> Reply, n: nat, ids: seq<string>)
    requires Fresh(b, cache) && NoRepeats(ids)
    requires AnswersIds(b, Search(cache, env, n, ids).missing, env(n + |ids|))
    ensures var r := FetchByIds(cache, env, n, ids);
            && (r.Some? ==> AllHeld(b, ids) && multiset(r.value) == multiset(Holds(b, ids)))
            && (AllSucceed(env, n, |ids| + 1) ==> (r.Some? <==> AllHeld(b, ids)))
  {
    var s := Search(cache, env, n, ids);
    SearchAsksOnce(cache, env, n, ids);
    if AllSucceed(env, n, |ids| + 1) {
      SearchSucceeds(cache, env, n, ids);
    }
    if s.ok {
      SearchSplits(b, cache, env, n, ids, s);
      CombineCompletes(b, s, ids, env(n + |ids|));
    }
  }

  // ---------- any sequence of lookups ----------

  datatype Call = ByName(username: string, at: nat) | ByIds(ids: seq<string>, at: nat)

  /** The cache after one lookup; `at` is where it finds its answers. */
  function AfterCall(cache: Cache, env: nat -> Reply, call: Call): Cache {
    match call
    case ByName(username, at) => FetchByName(cache, env, at, username).0
    case ByIds(ids, at) => AfterIds(cache, env, at, ids)
  }

  function After(cache: Cache, env: nat -> Reply, calls: seq<Call>): Cache
    decreases |calls|
  {
    if calls == [] then cache else After(AfterCall(cache, env, calls[0]), env, calls[1..])
  }

  lemma CallKeepsFresh(b: Accounts, cache: Cache, env: nat -> Reply, call: Call)
    requires Coherent(b) && Fresh(b, cache)
    requires call.ByName? ==> AnswersName(b, call.username, env(call.at + 1))
    ensures Fresh(b, AfterCall(cache, env, call))
  {
    match call
    case ByName(username, at) => GetUserKeepsFresh(b, cache, env, at, username);
    case ByIds(ids, at) =>
      SearchKeepsFresh(b, cache, env, at, ids);
      EvictionKeepsFresh(b, Search(cache, env, at, ids).cache, env(at + |ids|).evicted);
  }

  /** Filled by lookups only, a cache that started empty never holds anything but what Twitter holds. */
  lemma {:induction false} LookupsKeepFresh(b: Accounts, cache: Cache, env: nat -> Reply, calls: seq<Call>)
    requires Coherent(b) && Fresh(b, cache)
    requires forall i | 0 <= i < |calls| && calls[i].ByName? :: AnswersName(b, calls[i].username, env(calls[i].at + 1))
    ensures Fresh(b, After(cache, env, calls))
    decreases |calls|
  {
    if calls != [] {
      CallKeepsFresh(b, cache, env, calls[0]);
      LookupsKeepFresh(b, AfterCall(cache, env, calls[0]), env, calls[1..]);
    }
  }
}

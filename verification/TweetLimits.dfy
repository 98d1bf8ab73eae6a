/** Where the promises of module TweetHistory and TweetSafety stop: failed reads, concurrent calls, and writes
    that Redis drops in silence. */
module TweetLimits {
  import opened Options
  import opened Environment
  import opened Tweets
  import opened TweetSaver
  import opened TweetResult
  import opened TweetHistory

  // ---------- where it stops holding ----------

  /** A Redis read that fails counts as a miss, and the call then replaces the value of an existing key. */
  lemma FailedReadReplaces(env: nat -> Answer, sh: Shared, id: string)
    requires !env(0).ok
    requires env(1).ok && |env(1).tweets| == 1 && env(1).tweets[0].id == id && env(1).tweets[0].refs == []
    requires env(1).tweets[0].createdAt.Some?
    requires env(2).ok && env(2).users == [] && env(3).ok && env(3).lands
    ensures var f := Finish(env, sh, Checking(id), 0);
            && f.phase.Done? && id in f.sh.store
            && f.sh.store[id].referencedType == "" && f.sh.store[id].refs == []
            && (id in sh.store ==> (sh.store[id].referencedType != "" ==> f.sh.store[id] != sh.store[id]))
  {
    var parent := Convert(env(1).tweets[0], "", env(1).includes).value;
    var sh2 := Step(sh, AskingAuthors(ForParent(parent)), env(2)).0;
    assert Finish(env, sh, Fetching(id), 1) == Finish(env, sh, AskingAuthors(ForParent(parent)), 2);
    assert Finish(env, sh, AskingAuthors(ForParent(parent)), 2) == Finish(env, sh2, StoringParent(parent), 3);
  }

  const ASIDE := RawTweet("r", "b", "aside", Some(1), false, [], [])
  const QUOTE := RawTweet("p", "a", "quote", Some(2), false, [], [RawRef("quoted", "r")])

  /** An answer without an error, with these tweets. */
  function Plain(tweets: seq<RawTweet>): Answer {
    Answer(true, tweets, None, [], "", true)
  }

  lemma ExecThree(sys: System, x: Event, y: Event, z: Event)
    ensures Exec(sys, [x, y, z]) == Apply(Apply(Apply(sys, x), y), z)
  {
    assert [x, y, z][1..] == [y, z] && [y, z][1..] == [z] && [z][1..] == [];
    assert Exec(sys, [x, y, z]) == Exec(Apply(sys, x), [y, z]);
    assert Exec(Apply(sys, x), [y, z]) == Exec(Apply(Apply(sys, x), y), [z]);
  }

  const NO_ERROR := Plain([])
  const P := Convert(QUOTE, "", None).value
  const R := Convert(ASIDE, "", None).value
  const QUOTED := Convert(ASIDE, "quoted", None).value
  const EMPTY := Shared(map[], [], {}, {})

  /** Both workers miss r in the cache, one of them stores it, and then the other does. */
  const TAKE_UP := [Begin("p"), Begin("r"), Act(0, NO_ERROR)]
  const MISS := [Act(0, Plain([QUOTE])), Act(0, NO_ERROR), Act(1, NO_ERROR)]
  const STORE := [Act(1, Plain([ASIDE])), Act(1, NO_ERROR), Act(1, NO_ERROR)]
  const OVERWRITE := [Act(0, Plain([ASIDE])), Act(0, NO_ERROR), Act(0, NO_ERROR)]

  lemma TakeUpAndMiss()
    ensures Exec(Exec(Start([]), TAKE_UP), MISS)
         == System(EMPTY, [LookingUp(P, QUOTE.refs, [], ["r"]), Fetching("r")])
  {
    ExecThree(Start([]), TAKE_UP[0], TAKE_UP[1], TAKE_UP[2]);
    var s := Exec(Start([]), TAKE_UP);
    assert s == System(EMPTY, [Fetching("p"), Checking("r")]);
    ExecThree(s, MISS[0], MISS[1], MISS[2]);
    assert Apply(s, MISS[0]).workers[0] == Collecting(P, QUOTE.refs, 0, [], []);
    assert [] + ["r"] == ["r"];
    assert Apply(Apply(s, MISS[0]), MISS[1]).workers[0] == LookingUp(P, QUOTE.refs, [], ["r"]);
  }

  lemma StoreTheTweet()
    ensures Exec(System(EMPTY, [LookingUp(P, QUOTE.refs, [], ["r"]), Fetching("r")]), STORE)
         == System(Shared(map["r" := Normal(R)], [], {}, {"b"}), [LookingUp(P, QUOTE.refs, [], ["r"]), Done(Normal(R))])
  {
    var s := System(EMPTY, [LookingUp(P, QUOTE.refs, [], ["r"]), Fetching("r")]);
    ExecThree(s, STORE[0], STORE[1], STORE[2]);
    var s1 := Apply(s, STORE[0]);
    assert s1.workers[1] == AskingAuthors(ForParent(R));
    assert Unanswered(["b"], []) == {"b"};
    assert Apply(s1, STORE[1]).workers[1] == StoringParent(R);
  }

  lemma ConvertJustOne(raw: RawTweet, refs: seq<RawRef>, includes: Option<Includes>)
    requires raw.createdAt.Some?
    ensures ConvertAll([raw], refs, includes) == Some([Convert(raw, KindOf(refs, raw.id), includes).value])
  {
    var raws := [raw];
    assert raws[..0] == [];
    assert ConvertAll(raws[..0], refs, includes) == Some([]);
    assert Convert(raws[0], KindOf(refs, raws[0].id), includes).Some?;
    var all := ConvertAll(raws, refs, includes);
    assert all.Some?;
    assert all.value == [Convert(raw, KindOf(refs, raw.id), includes).value];
  }

  lemma LookUpTheQuote(sh: Shared)
    ensures Step(sh, LookingUp(P, QUOTE.refs, [], ["r"]), Plain([ASIDE]))
         == (sh, AskingAuthors(ForCopies(P, [] + [QUOTED])))
  {
    assert KindOf(QUOTE.refs, ASIDE.id) == "quoted";
    ConvertJustOne(ASIDE, QUOTE.refs, None);
  }

  lemma OverwriteIt(sh: Shared, other: Phase)
    requires sh.store == map["r" := Normal(R)]
    ensures Exec(System(sh, [LookingUp(P, QUOTE.refs, [], ["r"]), other]), OVERWRITE).sh.store
            == map["r" := Normal(QUOTED)]
  {
    var s := System(sh, [LookingUp(P, QUOTE.refs, [], ["r"]), other]);
    ExecThree(s, OVERWRITE[0], OVERWRITE[1], OVERWRITE[2]);
    LookUpTheQuote(sh);
    var s1 := System(sh, [AskingAuthors(ForCopies(P, [] + [QUOTED])), other]);
    assert Apply(s, OVERWRITE[0]) == s1;
    var s2 := Apply(s1, OVERWRITE[1]);
    assert s2.workers[0] == StoringCopies(P, [] + [QUOTED], 0);
  }

  /** Two workers on p, which quotes r, and on r itself. Both miss r. The second stores r as a tweet of its
      own, and then the first stores it again as a quoted tweet: the value under r changes although no call
      fails and nothing is lost. */
  lemma ConcurrentCallsOverwrite()
    ensures exists before: seq<Event>, after: seq<Event>, k: string ::
              && (forall e | e in before + after && e.Act? :: e.answer.ok && e.answer.lands)
              && k in Exec(Start([]), before).sh.store && k in Exec(Start([]), before + after).sh.store
              && Exec(Start([]), before).sh.store[k] != Exec(Start([]), before + after).sh.store[k]
  {
    var before := TAKE_UP + (MISS + STORE);
    TakeUpAndMiss();
    StoreTheTweet();
    ExecConcat(Start([]), TAKE_UP, MISS + STORE);
    ExecConcat(Exec(Start([]), TAKE_UP), MISS, STORE);
    var mid := Exec(Start([]), before);
    OverwriteIt(mid.sh, mid.workers[1]);
    ExecConcat(Start([]), before, OVERWRITE);
    assert "r" in mid.sh.store && "r" in Exec(Start([]), before + OVERWRITE).sh.store;
  }

  // ---------- a retweet of a cached tweet ----------

  const RETWEET := RawTweet("p", "a", "retweet", Some(2), false, [], [RawRef(RETWEETED, "r")])

  /** The tweet r is in the cache as a tweet of its own when p, a retweet of it, is saved; every call succeeds,
      and what is returned is no retweet. */
  lemma RetweetIsMissed(env: nat -> Answer, sh: Shared)
    requires sh.store == map["r" := Normal(R)]
    requires forall n: nat :: env(n).ok && env(n).users == []
    requires env(1).tweets == [RETWEET] && env(1).includes == None
    ensures var f := Finish(env, sh, Checking("p"), 0);
            f.phase.Done? && f.phase.tweet.id == "p" && f.phase.tweet.refs != [] && Retweet(f.phase.tweet).None?
  {
    var parent, refs := Convert(RETWEET, "", None).value, RETWEET.refs;
    FinishStep(env, sh, Checking("p"), 0, sh, Fetching("p"));
    FinishStep(env, sh, Fetching("p"), 1, sh, Collecting(parent, refs, 0, [], []));
    var t := Normal(Normal(R));
    FinishStep(env, sh, Collecting(parent, refs, 0, [], []), 2, sh, AskingAuthors(ForCopies(parent, [] + [t])));
    StoresTheCached(env, sh, parent, [t]);
    assert [] + [t] == [t];
  }

  lemma StoresTheCached(env: nat -> Answer, sh: Shared, parent: Tweet, copies: seq<Tweet>)
    requires |copies| == 1 && forall n: nat :: env(n).ok && env(n).users == []
    ensures Finish(env, sh, AskingAuthors(ForCopies(parent, copies)), 3).phase
         == Done(Normal(parent.(refs := NormalAll(copies))))
  {
    var (sh1, ph1) := Step(sh, AskingAuthors(ForCopies(parent, copies)), env(3));
    FinishStep(env, sh, AskingAuthors(ForCopies(parent, copies)), 3, sh1, StoringCopies(parent, copies, 0));
    var (sh2, ph2) := Step(sh1, StoringCopies(parent, copies, 0), env(4));
    var whole := parent.(refs := NormalAll(copies));
    FinishStep(env, sh1, StoringCopies(parent, copies, 0), 4, sh2, AskingAuthors(ForParent(whole)));
    var (sh3, ph3) := Step(sh2, AskingAuthors(ForParent(whole)), env(5));
    FinishStep(env, sh2, AskingAuthors(ForParent(whole)), 5, sh3, StoringParent(whole));
    FinishStep(env, sh3, StoringParent(whole), 6, Step(sh3, StoringParent(whole), env(6)).0, Done(Normal(whole)));
  }

  // ---------- dropped writes ----------

  const TAKE_UP_ONE := [Begin("p"), Act(0, NO_ERROR), Act(0, Plain([QUOTE]))]
  const FETCH_QUOTED := [Act(0, NO_ERROR), Act(0, Plain([ASIDE])), Act(0, NO_ERROR)]
  const STORE_ADRIFT := [Act(0, Plain([]).(lands := false)), Act(0, NO_ERROR), Act(0, NO_ERROR)]

  lemma FetchTheQuoted()
    ensures var s := Exec(Exec(Start([]), TAKE_UP_ONE), FETCH_QUOTED);
            s.sh.store == map[] && s.workers == [StoringCopies(P, [] + [QUOTED], 0)]
  {
    ExecThree(Start([]), TAKE_UP_ONE[0], TAKE_UP_ONE[1], TAKE_UP_ONE[2]);
    var s := System(EMPTY, [Collecting(P, QUOTE.refs, 0, [], [])]);
    assert Exec(Start([]), TAKE_UP_ONE) == s;
    ExecThree(s, FETCH_QUOTED[0], FETCH_QUOTED[1], FETCH_QUOTED[2]);
    assert [] + ["r"] == ["r"];
    var s1 := System(EMPTY, [LookingUp(P, QUOTE.refs, [], ["r"])]);
    assert Apply(s, FETCH_QUOTED[0]) == s1;
    LookUpTheQuote(EMPTY);
    assert Apply(s1, FETCH_QUOTED[1]).workers[0] == AskingAuthors(ForCopies(P, [] + [QUOTED]));
  }

  lemma StoreAdrift(sh: Shared)
    requires sh.store == map[]
    ensures Exec(System(sh, [StoringCopies(P, [] + [QUOTED], 0)]), STORE_ADRIFT).sh.store
         == map["p" := Normal(P.(refs := [Normal(QUOTED)]))]
  {
    var s := System(sh, [StoringCopies(P, [] + [QUOTED], 0)]);
    ExecThree(s, STORE_ADRIFT[0], STORE_ADRIFT[1], STORE_ADRIFT[2]);
    assert NormalAll([] + [QUOTED]) == [Normal(QUOTED)];
    var parent := P.(refs := [Normal(QUOTED)]);
    assert Apply(s, STORE_ADRIFT[0]).workers[0] == AskingAuthors(ForParent(parent));
    assert Apply(Apply(s, STORE_ADRIFT[0]), STORE_ADRIFT[1]).workers[0] == StoringParent(parent);
  }

  /** The cache discards the errors of Redis. When it drops the write of a reference in silence, the parent
      is stored all the same, around a copy that is not in the cache. */
  lemma DroppedWriteLeavesADanglingCopy()
    ensures exists events: seq<Event>, k: string, x: Tweet ::
              && (forall e | e in events :: !e.Evict? && (e.Act? ==> e.answer.ok))
              && k in Exec(Start([]), events).sh.store
              && x in Exec(Start([]), events).sh.store[k].refs
              && x.id !in Exec(Start([]), events).sh.store
  {
    FetchTheQuoted();
    var mid := Exec(Exec(Start([]), TAKE_UP_ONE), FETCH_QUOTED);
    StoreAdrift(mid.sh);
    ExecConcat(Start([]), TAKE_UP_ONE, FETCH_QUOTED + STORE_ADRIFT);
    ExecConcat(Exec(Start([]), TAKE_UP_ONE), FETCH_QUOTED, STORE_ADRIFT);
    var end := Exec(Start([]), TAKE_UP_ONE + (FETCH_QUOTED + STORE_ADRIFT));
    assert Normal(QUOTED) in end.sh.store["p"].refs;
  }

  /** One of the copies has this ID, and its write lands. */
  predicate LandsUnder(env: nat -> Answer, copies: seq<Tweet>, clock: nat, n: nat, id: string)
    requires n <= |copies|
  {
    exists i | 0 <= i < n :: copies[i].id == id && env(clock + i).lands
  }

  lemma {:induction false} KeysWritten(env: nat -> Answer, store: Store, copies: seq<Tweet>, clock: nat, n: nat,
      id: string)
    requires n <= |copies|
    ensures id in Wrote(env, store, copies, clock, n) <==> id in store || LandsUnder(env, copies, clock, n, id)
  {
    if n > 0 {
      KeysWritten(env, store, copies, clock, n - 1, id);
    }
  }

  /** From the point where a call starts to store its copies: a key is in the cache at the end exactly when it
      was there before, or a write under it landed, of a copy or of the parent. */
  lemma StoredKeysExactly(env: nat -> Answer, sh: Shared, parent: Tweet, copies: seq<Tweet>, clock: nat, id: string)
    requires copies != [] && Finish(env, sh, StoringCopies(parent, copies, 0), clock).phase.Done?
    ensures var f := Finish(env, sh, StoringCopies(parent, copies, 0), clock);
            f.clock > 0
            && (id in f.sh.store <==>
                id in sh.store || LandsUnder(env, copies, clock, |copies|, id)
                    || (id == parent.id && env(f.clock - 1).lands))
  {
    StoresAll(env, sh, parent, copies, clock);
    KeysWritten(env, sh.store, copies, clock, |copies|, id);
  }

  /** All references of the returned tweet are in the cache exactly when each of them was there before or its
      own write landed. */
  lemma ClosedUnlessDropped(env: nat -> Answer, sh: Shared, parent: Tweet, copies: seq<Tweet>, clock: nat)
    requires Finish(env, sh, StoringCopies(parent, copies, 0), clock).phase.Done?
    requires copies != [] && parent.id !in Ids(copies)
    requires forall i, j | 0 <= i < j < |copies| :: copies[i].id != copies[j].id
    ensures var f := Finish(env, sh, StoringCopies(parent, copies, 0), clock);
            (forall i | 0 <= i < |copies| :: copies[i].id in f.sh.store)
            <==> (forall i | 0 <= i < |copies| :: copies[i].id in sh.store || env(clock + i).lands)
  {
    var f := Finish(env, sh, StoringCopies(parent, copies, 0), clock);
    forall i | 0 <= i < |copies|
      ensures copies[i].id in f.sh.store <==> copies[i].id in sh.store || env(clock + i).lands
    {
      StoredKeysExactly(env, sh, parent, copies, clock, copies[i].id);
      assert Ids(copies)[i] == copies[i].id;
    }
  }

  // ---------- failed reads ----------

  /** Two tweets of one answer with the same ID are the same. */
  predicate OnePerId(raws: seq<RawTweet>) {
    forall x, y | x in raws && y in raws && x.id == y.id :: x == y
  }

  /** What a call that fetches would put under keys that are there already is there already: its tweet, and
      each reference that it fetches although it is in the cache. */
  predicate Rewrites(env: nat -> Answer, sh: Shared)
    requires FetchedOne(env)
  {
    var t := FreshResult(env, sh);
    && (t.id in sh.store ==> sh.store[t.id] == t)
    && forall c | c in FetchedOf(env, sh, RefsOf(env)) && c.id in sh.store && c.id != t.id ::
       sh.store[c.id] == Normal(c)
  }

  lemma {:induction false} LastWrite(env: nat -> Answer, store: Store, copies: seq<Tweet>, clock: nat, n: nat,
      k: string)
    returns (j: nat)
    requires n <= |copies| && (forall i: nat :: env(i).lands) && exists i | 0 <= i < n :: copies[i].id == k
    ensures j < n && copies[j].id == k && (forall i | j < i < n :: copies[i].id != k)
    ensures k in Wrote(env, store, copies, clock, n) && Wrote(env, store, copies, clock, n)[k] == Normal(copies[j])
  {
    if copies[n - 1].id == k {
      j := n - 1;
    } else {
      j := LastWrite(env, store, copies, clock, n - 1, k);
    }
  }

  lemma {:induction false} NoWrite(env: nat -> Answer, store: Store, copies: seq<Tweet>, clock: nat, n: nat, k: string)
    requires n <= |copies| && k in store && forall i | 0 <= i < n :: copies[i].id != k
    ensures k in Wrote(env, store, copies, clock, n) && Wrote(env, store, copies, clock, n)[k] == store[k]
  {
    if n > 0 {
      NoWrite(env, store, copies, clock, n - 1, k);
    }
  }

  lemma {:induction false} KnownAreStored(env: nat -> Answer, sh: Shared, refs: seq<RawRef>, n: nat)
    requires n <= |refs| && Normalised(sh.store)
    ensures forall c | c in KnownOf(env, sh, refs, n) :: c.id in sh.store && sh.store[c.id] == c && Normal(c) == c
  {
    if n > 0 {
      KnownAreStored(env, sh, refs, n - 1);
    }
  }

  lemma FetchedAreOne(env: nat -> Answer, sh: Shared, refs: seq<RawRef>)
    requires OnePerId(LookupOf(env, refs).tweets)
    ensures forall c, d | c in FetchedOf(env, sh, refs) && d in FetchedOf(env, sh, refs) && c.id == d.id :: c == d
  {
    var fetched, raws := FetchedOf(env, sh, refs), LookupOf(env, refs).tweets;
    forall c, d | c in fetched && d in fetched && c.id == d.id ensures c == d {
      var i :| 0 <= i < |fetched| && fetched[i] == c;
      var j :| 0 <= j < |fetched| && fetched[j] == d;
      assert raws[i] in raws && raws[j] in raws;
    }
  }

  lemma FetchedValue(env: nat -> Answer, store: Store, known: seq<Tweet>, fetched: seq<Tweet>, from: nat, c: Tweet)
    requires (forall n: nat :: env(n).lands) && c in fetched && forall d | d in fetched && d.id == c.id :: d == c
    ensures var m := Wrote(env, store, known + fetched, from, |known + fetched|); c.id in m && m[c.id] == Normal(c)
  {
    var copies := known + fetched;
    var l :| 0 <= l < |fetched| && fetched[l] == c;
    assert copies[|known| + l] == c;
    var j := LastWrite(env, store, copies, from, |copies|, c.id);
    assert copies[j] == fetched[j - |known|];
  }

  lemma InEither(known: seq<Tweet>, fetched: seq<Tweet>, j: nat)
    requires j < |known + fetched|
    ensures (known + fetched)[j] in known || (known + fetched)[j] in fetched
  {
  }

  lemma KnownValue(env: nat -> Answer, store: Store, known: seq<Tweet>, fetched: seq<Tweet>, from: nat, k: string)
    requires (forall n: nat :: env(n).lands) && k in store && forall d | d in fetched :: d.id != k
    requires forall d | d in known && d.id == k :: Normal(d) == store[k]
    ensures var m := Wrote(env, store, known + fetched, from, |known + fetched|); k in m && m[k] == store[k]
  {
    var copies := known + fetched;
    if exists i | 0 <= i < |copies| :: copies[i].id == k {
      var j := LastWrite(env, store, copies, from, |copies|, k);
      InEither(known, fetched, j);
    } else {
      NoWrite(env, store, copies, from, |copies|, k);
    }
  }

  /** What the copies leave under a key that was there. */
  lemma CopiedValue(env: nat -> Answer, sh: Shared, refs: seq<RawRef>, from: nat, k: string)
    requires Normalised(sh.store) && OnePerId(LookupOf(env, refs).tweets) && (forall n: nat :: env(n).lands)
             && k in sh.store
    ensures var copies := CopiesOf(env, sh, refs);
            var m := Wrote(env, sh.store, copies, from, |copies|);
            k in m && (m[k] == sh.store[k]
                <==> forall c | c in FetchedOf(env, sh, refs) && c.id == k :: Normal(c) == sh.store[k])
  {
    var known, fetched := KnownOf(env, sh, refs, |refs|), FetchedOf(env, sh, refs);
    FetchedAreOne(env, sh, refs);
    if c :| c in fetched && c.id == k {
      FetchedValue(env, sh.store, known, fetched, from, c);
    } else {
      KnownAreStored(env, sh, refs, |refs|);
      KnownValue(env, sh.store, known, fetched, from, k);
    }
  }

  /** A call that returns changes no value under a key exactly when it finds its tweet, or everything that it
      fetches although it is in the cache is there with just the same value. */
  lemma CallPreservesExactly(env: nat -> Answer, sh: Shared, id: string)
    requires Normalised(sh.store) && Finish(env, sh, Checking(id), 0).phase.Done?
    requires (forall n: nat :: env(n).lands) && OnePerId(LookupOf(env, RefsOf(env)).tweets)
    ensures Hit(sh, id, env(0)) || FetchedOne(env)
    ensures Preserves(sh.store, Finish(env, sh, Checking(id), 0).sh.store) <==> Hit(sh, id, env(0)) || Rewrites(env, sh)
  {
    if Hit(sh, id, env(0)) {
      assert Finish(env, sh, Checking(id), 0).sh == sh;
    } else {
      var from := CallStoresExactly(env, sh, id);
      PreservesExactly(env, sh, from, Finish(env, sh, Checking(id), 0).sh.store);
    }
  }

  lemma PreservesExactly(env: nat -> Answer, sh: Shared, from: nat, store': Store)
    requires Normalised(sh.store) && FetchedOne(env)
    requires (forall n: nat :: env(n).lands) && OnePerId(LookupOf(env, RefsOf(env)).tweets)
    requires var copies, t := CopiesOf(env, sh, RefsOf(env)), FreshResult(env, sh);
             store' == Wrote(env, sh.store, copies, from, |copies|)[t.id := t]
    ensures Preserves(sh.store, store') <==> Rewrites(env, sh)
  {
    var t, fetched := FreshResult(env, sh), FetchedOf(env, sh, RefsOf(env));
    forall k | k in sh.store
      ensures k in store'
      ensures store'[k] == sh.store[k] <==>
              if k == t.id then sh.store[k] == t else forall c | c in fetched && c.id == k :: Normal(c) == sh.store[k]
    {
      CopiedValue(env, sh, RefsOf(env), from, k);
    }
    if Preserves(sh.store, store') {
      forall c | c in fetched && c.id in sh.store && c.id != t.id ensures sh.store[c.id] == Normal(c) {
        assert store'[c.id] == sh.store[c.id];
      }
    }
  }

  /** The call can write nothing but these copies and then t. */
  predicate WritesOnly(ph: Phase, copies: seq<Tweet>, t: Tweet) {
    match ph
    case AskingAuthors(job) => JobWritesOnly(job, copies, t)
    case CreatingAuthors(job, _, _) => JobWritesOnly(job, copies, t)
    case StoringCopies(parent, cs, _) => cs == copies && Normal(WithCopies(parent, copies)) == t
    case StoringParent(parent) => Normal(parent) == t
    case Done(_) => true
    case Failed => true
    case _ => false
  }

  predicate JobWritesOnly(job: Job, copies: seq<Tweet>, t: Tweet) {
    match job
    case ForCopies(parent, cs) => cs == copies && Normal(WithCopies(parent, copies)) == t
    case ForParent(parent) => Normal(parent) == t
  }

  /** Each of the values is already there, where there is one. */
  predicate Harmless(store: Store, copies: seq<Tweet>, t: Tweet) {
    && (t.id in store ==> store[t.id] == t)
    && forall c | c in copies && c.id in store && c.id != t.id :: store[c.id] == Normal(c)
  }

  /** Nothing has changed but perhaps the value under the key of t, which t is to restore. */
  predicate Unharmed(before: Store, store: Store, copies: seq<Tweet>, t: Tweet) {
    forall k | k in before ::
        k in store && (store[k] == before[k] || (k == t.id && exists c | c in copies :: c.id == t.id))
  }

  lemma StepWritesOnly(sh: Shared, ph: Phase, a: Answer, copies: seq<Tweet>, t: Tweet)
    requires WritesOnly(ph, copies, t)
    ensures WritesOnly(Step(sh, ph, a).1, copies, t)
  {
  }

  lemma WriteHarmless(before: Store, sh: Shared, c: Tweet, lands: bool, copies: seq<Tweet>, t: Tweet)
    requires Harmless(before, copies, t) && Unharmed(before, sh.store, copies, t) && (c in copies || Normal(c) == t)
    ensures Unharmed(before, Write(sh, c, lands).store, copies, t)
  {
  }

  lemma StepHarmless(before: Store, sh: Shared, ph: Phase, a: Answer, copies: seq<Tweet>, t: Tweet)
    requires Harmless(before, copies, t) && WritesOnly(ph, copies, t) && Unharmed(before, sh.store, copies, t)
    ensures Unharmed(before, Step(sh, ph, a).0.store, copies, t)
  {
    if ph.StoringCopies? {
      if ph.at < |ph.copies| {
        assert copies[ph.at] in copies;
        WriteHarmless(before, sh, ph.copies[ph.at], a.lands, copies, t);
      }
    } else if ph.StoringParent? {
      WriteHarmless(before, sh, ph.parent, a.lands, copies, t);
    } else {
      OtherStepsKeepStore(sh, ph, a);
    }
  }

  lemma {:induction false} FinishHarmless(before: Store, env: nat -> Answer, sh: Shared, ph: Phase, clock: nat,
                                          copies: seq<Tweet>, t: Tweet)
    requires Harmless(before, copies, t) && WritesOnly(ph, copies, t) && Unharmed(before, sh.store, copies, t)
    ensures Unharmed(before, Finish(env, sh, ph, clock).sh.store, copies, t)
    decreases Finish(env, sh, ph, clock).clock - clock
  {
    if !Finished(ph) {
      var (sh', ph') := Step(sh, ph, env(clock));
      StepWritesOnly(sh, ph, env(clock), copies, t);
      StepHarmless(before, sh, ph, env(clock), copies, t);
      FinishHarmless(before, env, sh', ph', clock + 1, copies, t);
    }
  }

  lemma CopiesHarmless(env: nat -> Answer, sh: Shared)
    requires Normalised(sh.store) && FetchedOne(env) && Rewrites(env, sh)
    ensures Harmless(sh.store, CopiesOf(env, sh, RefsOf(env)), FreshResult(env, sh))
  {
    KnownAreStored(env, sh, RefsOf(env), |RefsOf(env)|);
  }

  lemma FetchedHarmless(env: nat -> Answer, sh: Shared)
    requires Normalised(sh.store) && FetchedOne(env) && Rewrites(env, sh)
    ensures var parent := Convert(env(1).tweets[0], "", env(1).includes).value;
            Unharmed(sh.store, Finish(env, sh, AfterFetch(parent, RefsOf(env)), 2).sh.store,
                     CopiesOf(env, sh, RefsOf(env)), FreshResult(env, sh))
  {
    var parent := Convert(env(1).tweets[0], "", env(1).includes).value;
    var refs, copies, t := RefsOf(env), CopiesOf(env, sh, RefsOf(env)), FreshResult(env, sh);
    CopiesHarmless(env, sh);
    if refs == [] {
      assert WithCopies(parent, []) == parent;
      FinishHarmless(sh.store, env, sh, AskingAuthors(ForParent(parent)), 2, copies, t);
    } else {
      GathersOrFails(env, sh, parent, refs);
      FinishHarmless(sh.store, env, sh, AskingAuthors(ForCopies(parent, copies)), GatheredAt(env, sh, refs), copies, t);
    }
  }

  /** One half of this needs no success: whatever calls fail and whatever writes are dropped, a call that would
      only write what is there changes nothing, if no reference of its tweet is the tweet itself. */
  lemma FailingCallsPreserve(env: nat -> Answer, sh: Shared, id: string)
    requires Normalised(sh.store) && (!Hit(sh, id, env(0)) && FetchedOne(env) ==> Rewrites(env, sh))
    requires FetchedOne(env) ==> env(1).tweets[0].id !in Ids(CopiesOf(env, sh, RefsOf(env)))
    ensures Preserves(sh.store, Finish(env, sh, Checking(id), 0).sh.store)
  {
    if !Hit(sh, id, env(0)) {
      FinishStep(env, sh, Checking(id), 0, sh, Fetching(id));
      FinishStep(env, sh, Fetching(id), 1, sh, Step(sh, Fetching(id), env(1)).1);
      if FetchedOne(env) {
        FetchedHarmless(env, sh);
        NotAmongCopies(sh.store, Finish(env, sh, Checking(id), 0).sh.store, CopiesOf(env, sh, RefsOf(env)),
            FreshResult(env, sh));
      }
    }
  }

  lemma NotAmongCopies(before: Store, store: Store, copies: seq<Tweet>, t: Tweet)
    requires Unharmed(before, store, copies, t) && t.id !in Ids(copies)
    ensures Preserves(before, store)
  {
    forall c | c in copies ensures c.id != t.id {
      var i :| 0 <= i < |copies| && copies[i] == c;
      assert Ids(copies)[i] == c.id;
    }
  }

  /** An ID that is in the cache is asked for again exactly when a read of it failed. */
  lemma OnlyFailedReadsAskAgain(env: nat -> Answer, sh: Shared, refs: seq<RawRef>, id: string)
    requires id in sh.store
    ensures id in MissingOf(env, sh, refs, |refs|) <==> exists i | 0 <= i < |refs| :: refs[i].id == id && !env(2 + i).ok
  {
    MissingIds(env, sh, refs, |refs|, id);
    forall i | 0 <= i < |refs| && refs[i].id == id ensures Found(env, sh, refs, i) <==> env(2 + i).ok {
    }
  }

  /** For a tweet without references: its value stays exactly when the read succeeds or the fetched tweet is
      what the cache holds. */
  lemma PlainTweetStaysExactly(env: nat -> Answer, sh: Shared, id: string)
    requires Normalised(sh.store) && id in sh.store && Finish(env, sh, Checking(id), 0).phase.Done?
    requires forall n: nat :: env(n).lands
    requires |env(1).tweets| == 1 && env(1).tweets[0].id == id && env(1).tweets[0].refs == []
    ensures Preserves(sh.store, Finish(env, sh, Checking(id), 0).sh.store) <==>
            env(0).ok || Some(sh.store[id]) == Fresh(env(1).tweets[0], env(1).includes)
  {
    if !env(0).ok {
      var from := CallStoresExactly(env, sh, id);
      var raw := env(1).tweets[0];
      assert CopiesOf(env, sh, []) == [];
      assert FreshResult(env, sh) == Normal(Convert(raw, "", env(1).includes).value);
    } else {
      assert Finish(env, sh, Checking(id), 0).sh == sh;
    }
  }

  /** The value that a fetched tweet without references gets. */
  function Fresh(raw: RawTweet, includes: Option<Includes>): Option<Tweet> {
    var t := Convert(raw, "", includes);
    if t.Some? then Some(Normal(t.value)) else None
  }
}

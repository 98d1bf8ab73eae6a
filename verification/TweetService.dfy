/** The service itself, in the form of internal/domain/tweet.go and of the repositories it calls. Its one
    public method is proved to do what the machine of module TweetSaver does when it runs alone. */
module TweetService {
  import opened Options
  import opened Environment
  import opened Tweets
  import opened Users
  import opened TweetSaver

  /** One loop of BatchCreateUsersFromIDs is the machine going through its user list. */
  lemma {:induction false} CreatingIsABatch(env: nat -> Answer, sh: Shared, job: Job, todo: seq<TwitterUser>,
      clock: nat)
    ensures var b := CreateMissing(sh.rows, todo, env, clock);
            Finish(env, sh, Create(job, todo), clock)
            == Finish(env, sh.(rows := b.rows), if b.ok then Create(job, []) else Failed, b.clock)
    decreases |todo|
  {
    if todo == [] {
      assert sh.(rows := sh.rows) == sh;
    } else {
      var b := CreateOne(sh.rows, todo[0], env, clock);
      CreatingOne(env, sh, job, todo, clock);
      if b.ok {
        CreatingIsABatch(env, sh.(rows := b.rows), job, todo[1..], b.clock);
      }
    }
  }

  lemma CreatingOne(env: nat -> Answer, sh: Shared, job: Job, todo: seq<TwitterUser>, clock: nat)
    requires todo != []
    ensures var b := CreateOne(sh.rows, todo[0], env, clock);
            Finish(env, sh, CreatingAuthors(job, todo, false), clock)
            == Finish(env, sh.(rows := b.rows), if b.ok then Create(job, todo[1..]) else Failed, b.clock)
  {
    var b := CreateOne(sh.rows, todo[0], env, clock);
    if env(clock).ok && Get(sh.rows, todo[0].id).None? {
      FinishStep(env, sh, CreatingAuthors(job, todo, false), clock, sh, CreatingAuthors(job, todo, true));
      CreatingAbsent(env, sh, job, todo, clock + 1, b);
    } else {
      CreatingPresent(env, sh, job, todo, clock, b);
    }
  }

  lemma CreatingPresent(env: nat -> Answer, sh: Shared, job: Job, todo: seq<TwitterUser>, clock: nat, b: Batch)
    requires todo != [] && b == Batch(sh.rows, env(clock).ok, clock + 1)
    requires !env(clock).ok || Get(sh.rows, todo[0].id).Some?
    ensures Finish(env, sh, CreatingAuthors(job, todo, false), clock)
         == Finish(env, sh.(rows := b.rows), if b.ok then Create(job, todo[1..]) else Failed, b.clock)
  {
    assert sh.(rows := b.rows) == sh;
    FinishStep(env, sh, CreatingAuthors(job, todo, false), clock, sh, if b.ok then Create(job, todo[1..]) else Failed);
  }

  lemma CreatingAbsent(env: nat -> Answer, sh: Shared, job: Job, todo: seq<TwitterUser>, clock: nat, b: Batch)
    requires todo != []
    requires var created := CreateFromTwitter(sh.rows, todo[0], env(clock));
             b == Batch(created.rows, created.ok, clock + 1)
    ensures Finish(env, sh, CreatingAuthors(job, todo, true), clock)
         == Finish(env, sh.(rows := b.rows), if b.ok then Create(job, todo[1..]) else Failed, b.clock)
  {
    FinishStep(env, sh, CreatingAuthors(job, todo, true), clock, sh.(rows := b.rows),
               if b.ok then Create(job, todo[1..]) else Failed);
  }

  /** The whole of BatchCreateUsersFromIDs. */
  lemma AskingIsABatch(env: nat -> Answer, sh: Shared, job: Job, clock: nat, sh': Shared)
    requires var b := CreateFromIds(sh.rows, env, clock);
             sh' == sh.(rows := b.rows,
                        unanswered := if env(clock).ok then sh.unanswered + Unanswered(Wanted(job), env(clock).users)
                                      else sh.unanswered)
    ensures var b := CreateFromIds(sh.rows, env, clock);
            Finish(env, sh, AskingAuthors(job), clock)
                == Finish(env, sh', if b.ok then Create(job, []) else Failed, b.clock)
  {
    var a := env(clock);
    if a.ok {
      var mid := sh.(unanswered := sh.unanswered + Unanswered(Wanted(job), a.users));
      FinishStep(env, sh, AskingAuthors(job), clock, mid, Create(job, a.users));
      CreatingIsABatch(env, mid, job, a.users, clock + 1);
    } else {
      FinishStep(env, sh, AskingAuthors(job), clock, sh, Failed);
    }
  }

  class TweetService {
    var store: map<string, Tweet>
    ghost var lost: set<string>
    ghost var unanswered: set<string>
    /** The tweets that Twitter was asked for, lookup by lookup. */
    var lookups: seq<seq<string>>
    const users: UserService

    constructor (users: UserService)
      ensures this.users == users && State() == Shared(map[], users.rows, {}, {}) && lookups == []
    {
      lookups := [];
      this.users := users;
      store := map[];
      lost := {};
      unanswered := {};
    }

    ghost function State(): Shared
      reads this, users
    {
      Shared(store, users.rows, lost, unanswered)
    }

    /** The call continues as if it had reached `ph` now. */
    ghost function Outcome(ph: Phase): Final
      reads this, users
    {
      Finish(users.env, State(), ph, users.clock)
    }

    method GetTweet(id: string) returns (r: Option<Tweet>)
      modifies users`clock
      ensures users.clock == old(users.clock) + 1
      ensures r == if Hit(State(), id, users.env(old(users.clock))) then Some(Normal(store[id])) else None
    {
      var a := users.Ask();
      if !a.ok || id !in store {
        return None;
      }
      return Some(Normal(store[id]));
    }

    method Store(tweet: Tweet) returns (ok: bool)
      modifies this`store, this`lost, users`clock
      ensures users.clock == old(users.clock) + 1
      ensures var a := users.env(old(users.clock));
              ok == a.ok && State() == if a.ok then Write(old(State()), tweet, a.lands) else old(State())
    {
      var a := users.Ask();
      if a.ok {
        if a.lands {
          store := store[tweet.id := Normal(tweet)];
        } else {
          lost := lost + {tweet.id};
        }
      }
      return a.ok;
    }

    method FetchRawTweet(ids: seq<string>) returns (r: Option<Answer>)
      modifies this`lookups, users`clock
      ensures lookups == old(lookups) + [ids]
      ensures users.clock == old(users.clock) + 1
      ensures var a := users.env(old(users.clock));
              r == if a.ok && |a.tweets| == |ids| then Some(a) else None
    {
      lookups := lookups + [ids];
      var a := users.Ask();
      if !a.ok || |a.tweets| != |ids| {
        return None;
      }
      return Some(a);
    }

    /** The body of the loop below. */
    method CollectOne(ghost parent: Tweet, refs: seq<RawRef>, i: nat, known: seq<Tweet>, missing: seq<string>)
      returns (known': seq<Tweet>, missing': seq<string>)
      requires i < |refs|
      modifies users`clock
      ensures missing + Missed(users.env, store, refs, i, old(users.clock))
           == missing' + Missed(users.env, store, refs, i + 1, users.clock)
      ensures old(Outcome(Collect(parent, refs, i, known, missing)))
           == Outcome(Collect(parent, refs, i + 1, known', missing'))
    {
      MissedOneMore(users.env, store, refs, i, users.clock, missing);
      CollectingOne(users.env, State(), parent, refs, i, known, missing, users.clock);
      known', missing' := known, missing;
      var tweet := GetTweet(refs[i].id);
      if tweet.Some? {
        known' := known + [tweet.value];
      } else {
        missing' := missing + [refs[i].id];
      }
    }

    /** Loop over the references of the parent: cached ones are taken as they are, the others are listed. */
    method CollectReferencedTweets(ghost parent: Tweet, refs: seq<RawRef>)
      returns (known: seq<Tweet>, missing: seq<string>)
      requires refs != []
      modifies users`clock
      ensures missing == Missed(users.env, store, refs, 0, old(users.clock))
      ensures old(Outcome(Collecting(parent, refs, 0, [], [])))
              == Outcome(Collect(parent, refs, |refs|, known, missing))
    {
      known, missing := [], [];
      var i := 0;
      while i < |refs|
        invariant 0 <= i <= |refs|
        invariant Missed(users.env, store, refs, 0, old(users.clock))
                  == missing + Missed(users.env, store, refs, i, users.clock)
        invariant old(Outcome(Collecting(parent, refs, 0, [], []))) == Outcome(Collect(parent, refs, i, known, missing))
      {
        known, missing := CollectOne(parent, refs, i, known, missing);
        i := i + 1;
      }
    }

    method ReferenceType(refs: seq<RawRef>, id: string) returns (kind: string)
      ensures kind == KindOf(refs, id)
      ensures if IsListed(refs, id) then Lists(refs, id, kind) else kind == ""
    {
      kind := "";
      for j := 0 to |refs|
        invariant kind == KindOf(refs[..j], id)
      {
        assert refs[..j + 1][..j] == refs[..j];
        if refs[j].id == id {
          kind := refs[j].kind;
        }
      }
      assert refs[..|refs|] == refs;
      KindIsListed(refs, id, kind);
    }

    method ConvertFetched(raws: seq<RawTweet>, refs: seq<RawRef>, includes: Option<Includes>)
      returns (r: Option<seq<Tweet>>)
      ensures r == ConvertAll(raws, refs, includes)
    {
      var converted: seq<Tweet> := [];
      var i := 0;
      while i < |raws|
        invariant 0 <= i <= |raws|
        invariant ConvertAll(raws[..i], refs, includes) == Some(converted)
      {
        OneMoreConverted(raws, refs, includes, i);
        var kind := ReferenceType(refs, raws[i].id);
        var tweet := ConvertTweet(raws[i], kind, includes);
        if tweet.None? {
          OneUnconverted(raws, refs, includes, i);
          return None;
        }
        converted := converted + [tweet.value];
        i := i + 1;
      }
      assert raws[..|raws|] == raws;
      return Some(converted);
    }

    method FetchReferencedTweets(ghost parent: Tweet, refs: seq<RawRef>) returns (r: Option<seq<Tweet>>)
      requires refs != []
      modifies this`lookups, users`clock
      ensures var missed := Missed(users.env, store, refs, 0, old(users.clock));
              lookups == if missed == [] then old(lookups) else old(lookups) + [missed]
      ensures old(Outcome(Collecting(parent, refs, 0, [], [])))
           == Outcome(if r.Some? then AskingAuthors(ForCopies(parent, r.value)) else Failed)
    {
      var known, missing := CollectReferencedTweets(parent, refs);
      if |missing| == 0 {
        return Some(known);
      }
      var a := FetchRawTweet(missing);
      if a.None? {
        return None;
      }
      var fetched := ConvertFetched(a.value.tweets, refs, a.value.includes);
      if fetched.None? {
        return None;
      }
      return Some(known + fetched.value);
    }

    /** BatchCreateUsersFromIDs for the authors of a job. */
    method CreateAuthors(ghost job: Job, authorIds: seq<string>) returns (ok: bool)
      requires authorIds == Wanted(job)
      modifies this`unanswered, users
      ensures users.askedIds == old(users.askedIds) + [authorIds]
      ensures old(Outcome(AskingAuthors(job))) == Outcome(if ok then Create(job, []) else Failed)
    {
      ghost var sh, clock := State(), users.clock;
      ghost var a := users.env(clock);
      var created := users.BatchCreateUsersFromIDs(authorIds);
      ok := created.Some?;
      if a.ok {
        unanswered := unanswered + Unanswered(Wanted(job), a.users);
      }
      AskingIsABatch(users.env, sh, job, clock, State());
    }

    method SaveReferencedTweets(ghost parent: Tweet, copies: seq<Tweet>) returns (ok: bool)
      modifies this`store, this`lost, this`unanswered, users
      ensures users.askedIds == old(users.askedIds) + [AuthorIds(copies)]
      ensures old(Outcome(AskingAuthors(ForCopies(parent, copies))))
           == Outcome(if ok then AskingAuthors(ForParent(parent.(refs := NormalAll(copies)))) else Failed)
    {
      var authorIds: seq<string> := [];
      for i := 0 to |copies|
        invariant authorIds == AuthorIds(copies)[..i]
      {
        authorIds := authorIds + [copies[i].authorId];
      }
      ok := CreateAuthors(ForCopies(parent, copies), authorIds);
      if !ok {
        return;
      }
      var i := 0;
      while i < |copies|
        invariant 0 <= i <= |copies|
        invariant ok && users.askedIds == old(users.askedIds) + [AuthorIds(copies)]
        invariant old(Outcome(AskingAuthors(ForCopies(parent, copies)))) == Outcome(StoreCopies(parent, copies, i))
      {
        ok := Store(copies[i]);
        if !ok {
          return;
        }
        i := i + 1;
      }
    }

    /** The tweet itself, converted, and the references Twitter lists for it. */
    method FetchTweet(id: string) returns (r: Option<(Tweet, seq<RawRef>)>)
      modifies this`lookups, users`clock
      ensures lookups == old(lookups) + [[id]] && users.clock == old(users.clock) + 1
      ensures var a := users.env(old(users.clock));
              && (r.Some? <==> a.ok && |a.tweets| == 1 && a.tweets[0].createdAt.Some?)
              && (r.Some? ==> r.value.1 == a.tweets[0].refs)
      ensures old(Outcome(Fetching(id))) == Outcome(if r.Some? then AfterFetch(r.value.0, r.value.1) else Failed)
    {
      ghost var clock := users.clock;
      var a := FetchRawTweet([id]);
      if a.None? {
        FinishStep(users.env, State(), Fetching(id), clock, State(), Failed);
        return None;
      }
      var raw := a.value.tweets[0];
      var converted := ConvertTweet(raw, "", a.value.includes);
      if converted.None? {
        FinishStep(users.env, State(), Fetching(id), clock, State(), Failed);
        return None;
      }
      FinishStep(users.env, State(), Fetching(id), clock, State(), AfterFetch(converted.value, raw.refs));
      return Some((converted.value, raw.refs));
    }

    /** The references of a tweet that is not in the cache; the tweet with its copies if that gets through. */
    method SaveReferences(fetched: Tweet, refs: seq<RawRef>) returns (r: Option<Tweet>)
      requires refs != []
      modifies this, users
      ensures var missed := Missed(users.env, old(store), refs, 0, old(users.clock));
              lookups == if missed == [] then old(lookups) else old(lookups) + [missed]
      ensures r.Some? ==> r.value == fetched.(refs := r.value.refs)
      ensures r.Some? ==> users.askedIds == old(users.askedIds) + [AuthorIds(r.value.refs)]
      ensures old(Outcome(AfterFetch(fetched, refs)))
           == Outcome(if r.Some? then AskingAuthors(ForParent(r.value)) else Failed)
    {
      var copies := FetchReferencedTweets(fetched, refs);
      if copies.None? {
        return None;
      }
      var saved := SaveReferencedTweets(fetched, copies.value);
      if !saved {
        return None;
      }
      assert AuthorIds(copies.value) == AuthorIds(NormalAll(copies.value));
      return Some(fetched.(refs := NormalAll(copies.value)));
    }

    /** The author of the tweet, and the tweet itself. */
    method SaveParent(tweet: Tweet) returns (r: Option<Tweet>)
      modifies this`store, this`lost, this`unanswered, users
      ensures users.askedIds == old(users.askedIds) + [[tweet.authorId]]
      ensures r.Some? ==> r == Some(Normal(tweet))
      ensures var f := old(Outcome(AskingAuthors(ForParent(tweet))));
              && State() == f.sh && users.clock == f.clock
              && r == if f.phase.Done? then Some(f.phase.tweet) else None
    {
      var created := CreateAuthors(ForParent(tweet), [tweet.authorId]);
      if !created {
        return None;
      }
      ghost var sh, clock := State(), users.clock;
      var stored := Store(tweet);
      FinishStep(users.env, sh, StoringParent(tweet), clock, State(), if stored then Done(Normal(tweet)) else Failed);
      return if stored then Some(Normal(tweet)) else None;
    }

    /** The part of SaveTweetAndReferences that follows the fetch. A call that gets through has asked for the
        authors of the references and then for the author of the tweet. */
    method SaveFetched(fetched: Tweet, refs: seq<RawRef>) returns (r: Option<Tweet>)
      modifies this, users
      ensures var missed := Missed(users.env, old(store), refs, 0, old(users.clock));
              lookups == if missed == [] then old(lookups) else old(lookups) + [missed]
      ensures r.Some? ==>
                users.askedIds == old(users.askedIds) + (if refs == [] then [] else [AuthorIds(r.value.refs)])
                                  + [[r.value.authorId]]
      ensures var f := old(Outcome(AfterFetch(fetched, refs)));
              && State() == f.sh && users.clock == f.clock
              && r == if f.phase.Done? then Some(f.phase.tweet) else None
    {
      var tweet := fetched;
      if |refs| > 0 {
        var saved := SaveReferences(fetched, refs);
        if saved.None? {
          return None;
        }
        tweet := saved.value;
      }
      r := SaveParent(tweet);
    }

    /** The call when no read finds its tweet. */
    method FetchAndSave(id: string) returns (r: Option<Tweet>)
      modifies this, users
      ensures var missed := MissedAfter(users.env, old(store), old(users.clock));
              lookups == old(lookups) + [[id]] + (if missed == [] then [] else [missed])
      ensures var f := old(Outcome(Fetching(id)));
              && State() == f.sh && users.clock == f.clock
              && r == if f.phase.Done? then Some(f.phase.tweet) else None
    {
      var fetched := FetchTweet(id);
      if fetched.None? {
        return None;
      }
      r := SaveFetched(fetched.value.0, fetched.value.1);
    }

    /** None stands for the error return. */
    method SaveTweetAndReferences(id: string) returns (r: Option<Tweet>)
      modifies this, users
      ensures lookups == old(lookups) + LookupsOf(users.env, old(store), id, old(users.clock))
      ensures var f := old(Outcome(Checking(id)));
              && State() == f.sh && users.clock == f.clock
              && r == if f.phase.Done? then Some(f.phase.tweet) else None
    {
      ghost var sh, clock := State(), users.clock;
      var known := GetTweet(id);
      FinishStep(users.env, sh, Checking(id), clock, sh, if known.Some? then Done(known.value) else Fetching(id));
      if known.Some? {
        return known;
      }
      r := FetchAndSave(id);
    }
  }

  lemma MissedOneMore(env: nat -> Answer, store: map<string, Tweet>, refs: seq<RawRef>, at: nat, clock: nat,
                      missing: seq<string>)
    requires at < |refs|
    ensures missing + Missed(env, store, refs, at, clock)
         == (if env(clock).ok && refs[at].id in store then missing else missing + [refs[at].id])
            + Missed(env, store, refs, at + 1, clock + 1)
  {
  }

  lemma CollectingOne(env: nat -> Answer, sh: Shared, parent: Tweet, refs: seq<RawRef>, at: nat, known: seq<Tweet>,
                      missing: seq<string>, clock: nat)
    requires at < |refs|
    ensures Finish(env, sh, Collect(parent, refs, at, known, missing), clock)
         == Finish(env, sh,
                   if Hit(sh, refs[at].id, env(clock))
                   then Collect(parent, refs, at + 1, known + [Normal(sh.store[refs[at].id])], missing)
                   else Collect(parent, refs, at + 1, known, missing + [refs[at].id]), clock + 1)
  {
    var ph := Collecting(parent, refs, at, known, missing);
    FinishStep(env, sh, ph, clock, sh, Step(sh, ph, env(clock)).1);
  }

  lemma OneMoreConverted(raws: seq<RawTweet>, refs: seq<RawRef>, includes: Option<Includes>, i: nat)
    requires i < |raws| && ConvertAll(raws[..i], refs, includes).Some?
    ensures var last := Convert(raws[i], KindOf(refs, raws[i].id), includes);
            ConvertAll(raws[..i + 1], refs, includes)
            == if last.Some? then Some(ConvertAll(raws[..i], refs, includes).value + [last.value]) else None
  {
    assert raws[..i + 1][..i] == raws[..i];
  }

  lemma {:induction false} OneUnconverted(raws: seq<RawTweet>, refs: seq<RawRef>, includes: Option<Includes>, i: nat)
    requires i < |raws| && Convert(raws[i], KindOf(refs, raws[i].id), includes).None?
    ensures ConvertAll(raws, refs, includes).None?
  {
    var n := |raws| - 1;
    if i < n {
      OneUnconverted(raws[..n], refs, includes, i);
    }
  }
}

/** When a call of SaveTweetAndReferences that runs alone returns a tweet: told from the cache, the user table
    and the answers. */
module TweetSuccess {
  import opened Options
  import opened Environment
  import opened Text
  import opened Tweets
  import opened Users
  import opened UserRules
  import opened TweetSaver
  import opened TweetResult

  // ---------- what each stretch of a call needs ----------

  /** What a batch from IDs does that starts on these rows at this clock. */
  type Batches = (seq<User>, nat) -> Batch

  function BatchesOf(env: nat -> Answer): Batches {
    (rows: seq<User>, clock: nat) => CreateFromIds(rows, env, clock)
  }

  predicate WritesOk(env: nat -> Answer, clock: nat, n: nat) {
    forall k | clock <= k < clock + n :: env(k).ok
  }

  /** The author of the parent is created, and then the parent is stored. */
  predicate SavesParent(env: nat -> Answer, batch: Batches, rows: seq<User>, clock: nat) {
    var b := batch(rows, clock);
    b.ok && env(b.clock).ok
  }

  /** The authors of n copies are created, the copies stored, and then the parent is saved. */
  predicate SavesCopies(env: nat -> Answer, batch: Batches, rows: seq<User>, n: nat, clock: nat) {
    var b := batch(rows, clock);
    b.ok && WritesOk(env, b.clock, n) && SavesParent(env, batch, b.rows, b.clock + n)
  }

  /** A lookup that answers with n tweets whose dates all parse. */
  predicate LooksUp(a: Answer, n: nat) {
    a.ok && |a.tweets| == n && forall raw | raw in a.tweets :: raw.createdAt.Some?
  }

  /** With `misses` references to look up out of n; without any there is no lookup. */
  predicate SavesReferences(env: nat -> Answer, batch: Batches, rows: seq<User>, misses: nat, n: nat, clock: nat) {
    if misses == 0 then SavesCopies(env, batch, rows, n, clock)
    else LooksUp(env(clock), misses) && SavesCopies(env, batch, rows, n, clock + 1)
  }

  /** Everything a call needs that has to fetch its tweet: the first lookup answers with one tweet whose date
      parses, the references that are not found are looked up, the authors are created, and the writes report
      no error. */
  predicate SavesFetched(env: nat -> Answer, batch: Batches, sh: Shared, clock: nat) {
    && LooksUp(env(clock), 1)
    && var refs := env(clock).tweets[0].refs;
       if refs == [] then SavesParent(env, batch, sh.rows, clock + 1)
       else SavesReferences(env, batch, sh.rows, |Missed(env, sh.store, refs, 0, clock + 1)|, |refs|,
           clock + 1 + |refs|)
  }

  // ---------- what a call needs that stands at a phase ----------

  /** What a call needs that has still to read from the reference at `at` on. */
  predicate CollectsWell(env: nat -> Answer, batch: Batches, sh: Shared, refs: seq<RawRef>, at: nat,
                         known: nat, missing: nat, clock: nat)
    requires at <= |refs|
  {
    SavesReferences(env, batch, sh.rows, missing + |Missed(env, sh.store, refs, at, clock)|,
                    known + missing + (|refs| - at), clock + (|refs| - at))
  }

  predicate AfterAuthors(env: nat -> Answer, batch: Batches, rows: seq<User>, job: Job, clock: nat) {
    match job
    case ForCopies(_, copies) => WritesOk(env, clock, |copies|) && SavesParent(env, batch, rows, clock + |copies|)
    case ForParent(_) => env(clock).ok
  }

  predicate Creates(env: nat -> Answer, batch: Batches, rows: seq<User>, job: Job, todo: seq<TwitterUser>, clock: nat) {
    var b := CreateMissing(rows, todo, env, clock);
    b.ok && AfterAuthors(env, batch, b.rows, job, b.clock)
  }

  predicate EndsWell(env: nat -> Answer, batch: Batches, sh: Shared, ph: Phase, clock: nat) {
    match ph
    case Checking(id) => (env(clock).ok && id in sh.store) || SavesFetched(env, batch, sh, clock + 1)
    case Fetching(_) => SavesFetched(env, batch, sh, clock)
    case Collecting(_, refs, at, known, missing) =>
      at < |refs| && CollectsWell(env, batch, sh, refs, at, |known|, |missing|, clock)
    case LookingUp(_, refs, known, missing) =>
      LooksUp(env(clock), |missing|) && SavesCopies(env, batch, sh.rows, |known| + |missing|, clock + 1)
    case AskingAuthors(job) =>
      var b := batch(sh.rows, clock);
      b.ok && AfterAuthors(env, batch, b.rows, job, b.clock)
    case CreatingAuthors(job, todo, absent) =>
      todo != [] &&
      if absent then
        var created := CreateFromTwitter(sh.rows, todo[0], env(clock));
        created.ok && Creates(env, batch, created.rows, job, todo[1..], clock + 1)
      else Creates(env, batch, sh.rows, job, todo, clock)
    case StoringCopies(_, copies, at) =>
      at < |copies| && WritesOk(env, clock, |copies| - at) && SavesParent(env, batch, sh.rows, clock + (|copies| - at))
    case StoringParent(_) => env(clock).ok
    case Done(_) => true
    case Failed => false
  }

  lemma AskingParent(env: nat -> Answer, batch: Batches, sh: Shared, parent: Tweet, clock: nat)
    ensures EndsWell(env, batch, sh, AskingAuthors(ForParent(parent)), clock)
            <==> SavesParent(env, batch, sh.rows, clock)
  {
  }

  lemma AskingCopies(env: nat -> Answer, batch: Batches, sh: Shared, parent: Tweet, copies: seq<Tweet>, clock: nat)
    ensures EndsWell(env, batch, sh, AskingAuthors(ForCopies(parent, copies)), clock)
       <==> SavesCopies(env, batch, sh.rows, |copies|, clock)
  {
  }

  lemma AfterFetchEnds(env: nat -> Answer, batch: Batches, sh: Shared, parent: Tweet, refs: seq<RawRef>, clock: nat)
    ensures EndsWell(env, batch, sh, AfterFetch(parent, refs), clock)
       <==> if refs == [] then SavesParent(env, batch, sh.rows, clock)
            else SavesReferences(env, batch, sh.rows, |Missed(env, sh.store, refs, 0, clock)|, |refs|, clock + |refs|)
  {
    if refs == [] {
      AskingParent(env, batch, sh, parent, clock);
    }
  }

  lemma FetchingSteps(sh: Shared, id: string, a: Answer)
    ensures Step(sh, Fetching(id), a)
         == (sh, if LooksUp(a, 1) then AfterFetch(Convert(a.tweets[0], "", a.includes).value, a.tweets[0].refs)
            else Failed)
  {
    if a.ok && |a.tweets| == 1 {
      assert a.tweets[0] in a.tweets;
    }
  }

  lemma FetchingEnds(env: nat -> Answer, batch: Batches, sh: Shared, id: string, clock: nat)
    ensures var (sh', ph') := Step(sh, Fetching(id), env(clock));
            EndsWell(env, batch, sh, Fetching(id), clock) <==> EndsWell(env, batch, sh', ph', clock + 1)
  {
    var a := env(clock);
    FetchingSteps(sh, id, a);
    if LooksUp(a, 1) {
      AfterFetchEnds(env, batch, sh, Convert(a.tweets[0], "", a.includes).value, a.tweets[0].refs, clock + 1);
    }
  }

  lemma CollectEnds(env: nat -> Answer, batch: Batches, sh: Shared, parent: Tweet, refs: seq<RawRef>, at: nat,
                    known: seq<Tweet>, missing: seq<string>, clock: nat)
    requires at <= |refs|
    ensures EndsWell(env, batch, sh, Collect(parent, refs, at, known, missing), clock)
       <==> CollectsWell(env, batch, sh, refs, at, |known|, |missing|, clock)
  {
    if at == |refs| && missing == [] {
      AskingCopies(env, batch, sh, parent, known, clock);
    }
  }

  lemma OneReadMore(env: nat -> Answer, sh: Shared, refs: seq<RawRef>, at: nat, clock: nat)
    requires at < |refs|
    ensures |Missed(env, sh.store, refs, at, clock)|
         == |Missed(env, sh.store, refs, at + 1, clock + 1)| + if Hit(sh, refs[at].id, env(clock)) then 0 else 1
  {
  }

  lemma CollectingSteps(sh: Shared, ph: Phase, a: Answer)
    requires ph.Collecting? && ph.at < |ph.refs|
    ensures Step(sh, ph, a)
         == (sh, if Hit(sh, ph.refs[ph.at].id, a)
                 then Collect(ph.parent, ph.refs, ph.at + 1, ph.known + [Normal(sh.store[ph.refs[ph.at].id])],
                     ph.missing)
                 else Collect(ph.parent, ph.refs, ph.at + 1, ph.known, ph.missing + [ph.refs[ph.at].id]))
  {
  }

  lemma CollectsOneMore(env: nat -> Answer, batch: Batches, sh: Shared, refs: seq<RawRef>, at: nat,
                        known: nat, missing: nat, clock: nat)
    requires at < |refs|
    ensures CollectsWell(env, batch, sh, refs, at, known, missing, clock)
       <==> if Hit(sh, refs[at].id, env(clock))
            then CollectsWell(env, batch, sh, refs, at + 1, known + 1, missing, clock + 1)
            else CollectsWell(env, batch, sh, refs, at + 1, known, missing + 1, clock + 1)
  {
    OneReadMore(env, sh, refs, at, clock);
    assert clock + (|refs| - at) == clock + 1 + (|refs| - (at + 1));
  }

  lemma CollectingNeeds(env: nat -> Answer, batch: Batches, sh: Shared, ph: Phase, clock: nat)
    requires ph.Collecting? && ph.at < |ph.refs|
    ensures EndsWell(env, batch, sh, ph, clock)
       <==> CollectsWell(env, batch, sh, ph.refs, ph.at, |ph.known|, |ph.missing|, clock)
  {
  }

  /** After one read: one more found, or one more missing. */
  lemma CollectingEnds(env: nat -> Answer, batch: Batches, sh: Shared, ph: Phase, clock: nat,
                       known: seq<Tweet>, missing: seq<string>)
    requires ph.Collecting? && ph.at < |ph.refs|
    requires if Hit(sh, ph.refs[ph.at].id, env(clock)) then |known| == |ph.known| + 1 && missing == ph.missing
             else known == ph.known && |missing| == |ph.missing| + 1
    ensures EndsWell(env, batch, sh, ph, clock)
       <==> EndsWell(env, batch, sh, Collect(ph.parent, ph.refs, ph.at + 1, known, missing), clock + 1)
  {
    CollectingNeeds(env, batch, sh, ph, clock);
    CollectsOneMore(env, batch, sh, ph.refs, ph.at, |ph.known|, |ph.missing|, clock);
    CollectEnds(env, batch, sh, ph.parent, ph.refs, ph.at + 1, known, missing, clock + 1);
  }

  lemma CollectingStepEnds(env: nat -> Answer, batch: Batches, sh: Shared, ph: Phase, clock: nat)
    requires ph.Collecting? && ph.at < |ph.refs|
    ensures EndsWell(env, batch, sh, ph, clock) <==> EndsWell(env, batch, sh, Step(sh, ph, env(clock)).1, clock + 1)
  {
    var id := ph.refs[ph.at].id;
    CollectingSteps(sh, ph, env(clock));
    if Hit(sh, id, env(clock)) {
      CollectingEnds(env, batch, sh, ph, clock, ph.known + [Normal(sh.store[id])], ph.missing);
    } else {
      CollectingEnds(env, batch, sh, ph, clock, ph.known, ph.missing + [id]);
    }
  }

  lemma {:induction false} AllConvert(raws: seq<RawTweet>, refs: seq<RawRef>, includes: Option<Includes>)
    ensures ConvertAll(raws, refs, includes).Some? <==> forall raw | raw in raws :: raw.createdAt.Some?
  {
    if raws != [] {
      var n := |raws| - 1;
      AllConvert(raws[..n], refs, includes);
      assert raws == raws[..n] + [raws[n]];
    }
  }

  lemma LookingUpSteps(sh: Shared, ph: Phase, a: Answer)
    requires ph.LookingUp?
    ensures !LooksUp(a, |ph.missing|) ==> Step(sh, ph, a) == (sh, Failed)
    ensures LooksUp(a, |ph.missing|) ==>
              var fetched := ConvertAll(a.tweets, ph.refs, a.includes);
              && fetched.Some? && |fetched.value| == |ph.missing|
              && Step(sh, ph, a) == (sh, AskingAuthors(ForCopies(ph.parent, ph.known + fetched.value)))
  {
    AllConvert(a.tweets, ph.refs, a.includes);
  }

  lemma LookingUpNeeds(env: nat -> Answer, batch: Batches, sh: Shared, ph: Phase, clock: nat)
    requires ph.LookingUp?
    ensures EndsWell(env, batch, sh, ph, clock)
       <==> LooksUp(env(clock), |ph.missing|) && SavesCopies(env, batch, sh.rows, |ph.known| + |ph.missing|, clock + 1)
  {
  }

  lemma LookedUpEnds(env: nat -> Answer, batch: Batches, sh: Shared, ph: Phase, clock: nat, copies: seq<Tweet>)
    requires ph.LookingUp? && LooksUp(env(clock), |ph.missing|) && |copies| == |ph.known| + |ph.missing|
    ensures EndsWell(env, batch, sh, ph, clock)
       <==> EndsWell(env, batch, sh, AskingAuthors(ForCopies(ph.parent, copies)), clock + 1)
  {
    LookingUpNeeds(env, batch, sh, ph, clock);
    AskingCopies(env, batch, sh, ph.parent, copies, clock + 1);
  }

  lemma LookingUpEnds(env: nat -> Answer, batch: Batches, sh: Shared, ph: Phase, clock: nat)
    requires ph.LookingUp?
    ensures EndsWell(env, batch, sh, ph, clock) <==> EndsWell(env, batch, sh, Step(sh, ph, env(clock)).1, clock + 1)
  {
    var a := env(clock);
    LookingUpSteps(sh, ph, a);
    if LooksUp(a, |ph.missing|) {
      LookedUpEnds(env, batch, sh, ph, clock, ph.known + ConvertAll(a.tweets, ph.refs, a.includes).value);
    } else {
      LookingUpNeeds(env, batch, sh, ph, clock);
    }
  }

  lemma CreateEnds(env: nat -> Answer, batch: Batches, sh: Shared, job: Job, todo: seq<TwitterUser>, clock: nat)
    ensures EndsWell(env, batch, sh, Create(job, todo), clock) <==> Creates(env, batch, sh.rows, job, todo, clock)
  {
    if todo == [] && job.ForCopies? && job.copies == [] {
      AskingParent(env, batch, sh, job.parent.(refs := NormalAll(job.copies)), clock);
    }
  }

  lemma AskingEnds(env: nat -> Answer, batch: Batches, sh: Shared, job: Job, clock: nat)
    requires batch(sh.rows, clock) == CreateFromIds(sh.rows, env, clock)
    ensures var (sh', ph') := Step(sh, AskingAuthors(job), env(clock));
            EndsWell(env, batch, sh, AskingAuthors(job), clock) <==> EndsWell(env, batch, sh', ph', clock + 1)
  {
    if env(clock).ok {
      CreateEnds(env, batch, Step(sh, AskingAuthors(job), env(clock)).0, job, env(clock).users, clock + 1);
    }
  }

  lemma CreatesFirst(env: nat -> Answer, batch: Batches, rows: seq<User>, job: Job, todo: seq<TwitterUser>, clock: nat)
    requires todo != []
    ensures var created := CreateFromTwitter(rows, todo[0], env(clock + 1));
            Creates(env, batch, rows, job, todo, clock)
            <==> (env(clock).ok
                  && if Get(rows, todo[0].id).Some? then Creates(env, batch, rows, job, todo[1..], clock + 1)
                     else created.ok && Creates(env, batch, created.rows, job, todo[1..], clock + 2))
  {
  }

  lemma CreatingEnds(env: nat -> Answer, batch: Batches, sh: Shared, ph: Phase, clock: nat)
    requires ph.CreatingAuthors?
    ensures var (sh', ph') := Step(sh, ph, env(clock));
            EndsWell(env, batch, sh, ph, clock) <==> EndsWell(env, batch, sh', ph', clock + 1)
  {
    var CreatingAuthors(job, todo, absent) := ph;
    if todo != [] {
      var sh' := Step(sh, ph, env(clock)).0;
      CreateEnds(env, batch, sh', job, todo[1..], clock + 1);
      CreatesFirst(env, batch, sh.rows, job, todo, clock);
    }
  }

  lemma WritesOneMore(env: nat -> Answer, clock: nat, n: nat)
    requires n > 0
    ensures WritesOk(env, clock, n) <==> env(clock).ok && WritesOk(env, clock + 1, n - 1)
  {
  }

  lemma StoringEnds(env: nat -> Answer, batch: Batches, sh: Shared, ph: Phase, clock: nat)
    requires ph.StoringCopies?
    ensures var (sh', ph') := Step(sh, ph, env(clock));
            EndsWell(env, batch, sh, ph, clock) <==> EndsWell(env, batch, sh', ph', clock + 1)
  {
    if ph.at < |ph.copies| {
      WritesOneMore(env, clock, |ph.copies| - ph.at);
      if env(clock).ok && ph.at + 1 == |ph.copies| {
        AskingParent(env, batch, Step(sh, ph, env(clock)).0, ph.parent.(refs := NormalAll(ph.copies)), clock + 1);
      }
    }
  }

  lemma StepEnds(env: nat -> Answer, batch: Batches, sh: Shared, ph: Phase, clock: nat)
    requires !Finished(ph) && batch == BatchesOf(env)
    ensures var (sh', ph') := Step(sh, ph, env(clock));
            EndsWell(env, batch, sh, ph, clock) <==> EndsWell(env, batch, sh', ph', clock + 1)
  {
    match ph
    case Checking(_) =>
    case Fetching(id) => FetchingEnds(env, batch, sh, id, clock);
    case Collecting(_, refs, at, _, _) =>
      if at < |refs| {
        CollectingStepEnds(env, batch, sh, ph, clock);
      }
    case LookingUp(_, _, _, _) => LookingUpEnds(env, batch, sh, ph, clock);
    case AskingAuthors(job) => AskingEnds(env, batch, sh, job, clock);
    case CreatingAuthors(_, _, _) => CreatingEnds(env, batch, sh, ph, clock);
    case StoringCopies(_, _, _) => StoringEnds(env, batch, sh, ph, clock);
    case _ =>
  }

  lemma {:induction false} FinishEnds(env: nat -> Answer, batch: Batches, sh: Shared, ph: Phase, clock: nat)
    requires batch == BatchesOf(env)
    ensures Finish(env, sh, ph, clock).phase.Done? <==> EndsWell(env, batch, sh, ph, clock)
    decreases Finish(env, sh, ph, clock).clock - clock
  {
    if !Finished(ph) {
      var (sh', ph') := Step(sh, ph, env(clock));
      StepEnds(env, batch, sh, ph, clock);
      FinishEnds(env, batch, sh', ph', clock + 1);
    }
  }

  /** A call returns a tweet exactly when it finds it in the cache, or everything it needs succeeds. */
  lemma CallSucceedsExactly(env: nat -> Answer, sh: Shared, id: string)
    ensures Finish(env, sh, Checking(id), 0).phase.Done?
       <==> (env(0).ok && id in sh.store) || SavesFetched(env, BatchesOf(env), sh, 1)
  {
    FinishEnds(env, BatchesOf(env), sh, Checking(id), 0);
  }

  // ---------- when no call fails ----------

  /** Every account that Twitter ever answers with is one of these, and each of them is in the table or can be
      inserted. */
  ghost predicate AllAdmissible(env: nat -> Answer, us: set<TwitterUser>, rows: seq<User>) {
    && LowerNames(rows) && Accounts(us)
    && (forall n: nat, u | u in env(n).users :: u in us)
    && forall u | u in us :: Admissible(rows, u)
  }

  lemma MissingSucceed(env: nat -> Answer, us: set<TwitterUser>, rows: seq<User>, todo: seq<TwitterUser>, clock: nat)
    requires (forall k: nat :: env(k).ok) && AllAdmissible(env, us, rows) && forall u | u in todo :: u in us
    ensures CreateMissing(rows, todo, env, clock).ok
    ensures AllAdmissible(env, us, CreateMissing(rows, todo, env, clock).rows)
  {
    BatchSucceedsExactly(us, rows, todo, env, clock);
    BatchStays(us, rows, todo, env, clock);
  }

  lemma BatchSucceeds(env: nat -> Answer, us: set<TwitterUser>, rows: seq<User>, clock: nat) returns (b: Batch)
    requires (forall k: nat :: env(k).ok) && AllAdmissible(env, us, rows)
    ensures b == CreateFromIds(rows, env, clock) && b.ok && AllAdmissible(env, us, b.rows)
  {
    b := CreateFromIds(rows, env, clock);
    MissingSucceed(env, us, rows, env(clock).users, clock + 1);
  }

  lemma ParentIsSaved(env: nat -> Answer, us: set<TwitterUser>, rows: seq<User>, clock: nat)
    requires (forall n: nat :: env(n).ok) && AllAdmissible(env, us, rows)
    ensures SavesParent(env, BatchesOf(env), rows, clock)
  {
    var b := BatchSucceeds(env, us, rows, clock);
  }

  lemma CopiesThenParent(env: nat -> Answer, batch: Batches, rows: seq<User>, n: nat, clock: nat, b: Batch)
    requires b == batch(rows, clock) && b.ok && WritesOk(env, b.clock, n)
             && SavesParent(env, batch, b.rows, b.clock + n)
    ensures SavesCopies(env, batch, rows, n, clock)
  {
  }

  lemma CopiesAreSaved(env: nat -> Answer, us: set<TwitterUser>, rows: seq<User>, n: nat, clock: nat)
    requires (forall k: nat :: env(k).ok) && AllAdmissible(env, us, rows)
    ensures SavesCopies(env, BatchesOf(env), rows, n, clock)
  {
    var b := BatchSucceeds(env, us, rows, clock);
    ParentIsSaved(env, us, b.rows, b.clock + n);
    CopiesThenParent(env, BatchesOf(env), rows, n, clock, b);
  }

  /** When no call fails and every account that Twitter answers with is in the table or can be inserted, a call
      returns a tweet exactly when it is in the cache, or Twitter answers with one tweet, and with one for each
      of its references that is not in the cache, and the dates of all of them parse. */
  lemma CallSucceedsWithoutFailures(env: nat -> Answer, sh: Shared, id: string, us: set<TwitterUser>)
    requires (forall n: nat :: env(n).ok) && AllAdmissible(env, us, sh.rows)
    ensures Finish(env, sh, Checking(id), 0).phase.Done?
       <==> id in sh.store
            || (LooksUp(env(1), 1)
                && var refs := env(1).tweets[0].refs;
                   var misses := |Missed(env, sh.store, refs, 0, 2)|;
                   misses > 0 ==> LooksUp(env(2 + |refs|), misses))
  {
    CallSucceedsExactly(env, sh, id);
    if LooksUp(env(1), 1) {
      var refs := env(1).tweets[0].refs;
      ParentIsSaved(env, us, sh.rows, 2);
      CopiesAreSaved(env, us, sh.rows, |refs|, 2 + |refs|);
      CopiesAreSaved(env, us, sh.rows, |refs|, 3 + |refs|);
    }
  }
}

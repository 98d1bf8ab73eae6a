/** Calls of SaveTweetAndReferences that run one after the other: the cache is write-once, and what a call
    returns has exactly the references Twitter lists. */
module TweetHistory {
  import opened Options
  import opened Environment
  import opened Tweets
  import opened TweetSaver
  import opened TweetResult

  // ---------- a call alone is one of the interleavings ----------

  function SoloEvents(env: nat -> Answer, sh: Shared, ph: Phase, clock: nat, w: nat): seq<Event>
    decreases Finish(env, sh, ph, clock).clock - clock
  {
    if Finished(ph) then []
    else
      var (sh', ph') := Step(sh, ph, env(clock));
      [Act(w, env(clock))] + SoloEvents(env, sh', ph', clock + 1, w)
  }

  lemma {:induction false} ExecConcat(sys: System, xs: seq<Event>, ys: seq<Event>)
    ensures Exec(sys, xs + ys) == Exec(Exec(sys, xs), ys)
    decreases |xs|
  {
    if xs == [] {
      assert xs + ys == ys;
    } else {
      assert (xs + ys)[1..] == xs[1..] + ys;
      ExecConcat(Apply(sys, xs[0]), xs[1..], ys);
    }
  }

  lemma {:induction false} FinishIsARun(env: nat -> Answer, sys: System, w: nat, clock: nat)
    requires w < |sys.workers|
    ensures var f := Finish(env, sys.sh, sys.workers[w], clock);
            && Finished(f.phase)
            && Exec(sys, SoloEvents(env, sys.sh, sys.workers[w], clock, w)) == System(f.sh, sys.workers[w := f.phase])
    decreases Finish(env, sys.sh, sys.workers[w], clock).clock - clock
  {
    var ph := sys.workers[w];
    if !Finished(ph) {
      var (sh', ph') := Step(sys.sh, ph, env(clock));
      var sys' := Apply(sys, Act(w, env(clock)));
      FinishIsARun(env, sys', w, clock + 1);
      assert sys'.workers[w := Finish(env, sh', ph', clock + 1).phase]
          == sys.workers[w := Finish(env, sh', ph', clock + 1).phase];
    }
  }

  // ---------- honest answers ----------

  /** A lookup answers with the tweets asked for; no tweet refers to itself; Redis reads do not fail and
      a write that is reported as done is done. Anything else may fail. */
  predicate Honest(ph: Phase, a: Answer) {
    match ph
    case Checking(_) => a.ok
    case Collecting(_, _, _, _, _) => a.ok
    case Fetching(id) =>
      a.ok && |a.tweets| == 1 ==> a.tweets[0].id == id && forall r | r in a.tweets[0].refs :: r.id != id
    case LookingUp(_, _, _, missing) => Answers(missing, a)
    case StoringCopies(_, _, _) => a.ok ==> a.lands
    case StoringParent(_) => a.ok ==> a.lands
    case _ => true
  }

  predicate Answers(ids: seq<string>, a: Answer) {
    a.ok && |a.tweets| == |ids| ==>
      && multiset(RawIds(a.tweets)) == multiset(ids)
      && forall x, y | x in a.tweets && y in a.tweets && x.id == y.id :: x == y
  }

  predicate HonestRun(env: nat -> Answer, sh: Shared, ph: Phase, clock: nat)
    decreases Finish(env, sh, ph, clock).clock - clock
  {
    Finished(ph) ||
    (&& Honest(ph, env(clock))
     && var (sh', ph') := Step(sh, ph, env(clock));
        HonestRun(env, sh', ph', clock + 1))
  }

  // ---------- write-once ----------

  predicate Holds(store: Store, t: Tweet) {
    t.id in store && store[t.id] == t
  }

  predicate AllHeld(store: Store, ts: seq<Tweet>) {
    forall t | t in ts :: Holds(store, t)
  }

  /** Every tweet sits under its ID in normal form, and each of its direct copies equals the stored one. */
  predicate Coherent(store: Store) {
    forall k | k in store :: store[k].id == k && Normal(store[k]) == store[k] && AllHeld(store, store[k].refs)
  }

  predicate Preserves(store: Store, store': Store) {
    forall k | k in store :: k in store' && store'[k] == store[k]
  }

  predicate Fresh(store: Store, parent: Tweet) {
    parent.id !in store && Normal(parent) == parent
  }

  predicate Collected(store: Store, parent: Tweet, refs: seq<RawRef>, known: seq<Tweet>, missing: seq<string>) {
    && Fresh(store, parent) && parent.refs == [] && AllHeld(store, known)
    && (forall r | r in refs :: r.id != parent.id)
    && (forall m | m in missing :: m !in store && m != parent.id)
  }

  predicate Fits(store: Store, parent: Tweet, copies: seq<Tweet>) {
    && Fresh(store, parent) && parent.refs == []
    && (forall c | c in copies ::
       c.id != parent.id && Normal(c) == c && (Holds(store, c) || (c.id !in store && c.refs == [])))
    && (forall c, d | c in copies && d in copies && c.id == d.id :: c == d)
  }

  predicate Filled(store: Store, parent: Tweet) {
    Fresh(store, parent) && AllHeld(store, parent.refs)
  }

  predicate JobFits(store: Store, job: Job) {
    match job
    case ForCopies(parent, copies) => Fits(store, parent, copies)
    case ForParent(parent) => Filled(store, parent)
  }

  predicate PartlyStored(store: Store, parent: Tweet, copies: seq<Tweet>, at: nat) {
    Fits(store, parent, copies) && forall i | 0 <= i < |copies| && i < at :: Holds(store, copies[i])
  }

  /** What a call that runs alone knows about the cache at each point. */
  predicate Alone(store: Store, ph: Phase) {
    match ph
    case Checking(_) => true
    case Fetching(id) => id !in store
    case Collecting(parent, refs, _, known, missing) => Collected(store, parent, refs, known, missing)
    case LookingUp(parent, refs, known, missing) => Collected(store, parent, refs, known, missing)
    case AskingAuthors(job) => JobFits(store, job)
    case CreatingAuthors(job, _, _) => JobFits(store, job)
    case StoringCopies(parent, copies, at) => PartlyStored(store, parent, copies, at)
    case StoringParent(parent) => Filled(store, parent)
    case Done(t) => Holds(store, t)
    case Failed => true
  }

  lemma ConvertedIsNormal(raw: RawTweet, kind: string, includes: Option<Includes>)
    requires Convert(raw, kind, includes).Some?
    ensures Normal(Convert(raw, kind, includes).value) == Convert(raw, kind, includes).value
  {
    if includes.Some? {
      NameIsLower(includes.value.users, raw.authorId);
    }
  }

  lemma CollectingAlone(sh: Shared, ph: Phase, a: Answer)
    requires ph.Collecting? && Coherent(sh.store) && Alone(sh.store, ph) && a.ok
    ensures Alone(sh.store, Step(sh, ph, a).1)
  {
    var Collecting(parent, refs, at, known, missing) := ph;
    if at < |refs| {
      assert refs[at] in refs;
      if refs[at].id in sh.store {
        var t := Normal(sh.store[refs[at].id]);
        assert Holds(sh.store, t);
        var known' := known + [t];
        CollectedFits(sh.store, parent, refs, known', missing);
      } else {
        var missing' := missing + [refs[at].id];
        assert refs[at].id in missing';
        CollectedFits(sh.store, parent, refs, known, missing');
      }
    }
  }

  lemma CollectedFits(store: Store, parent: Tweet, refs: seq<RawRef>, known: seq<Tweet>, missing: seq<string>)
    requires Coherent(store) && Collected(store, parent, refs, known, missing)
    ensures Fits(store, parent, known)
  {
  }

  lemma FetchedIsNew(refs: seq<RawRef>, missing: seq<string>, a: Answer, i: nat)
    requires multiset(RawIds(a.tweets)) == multiset(missing) && i < |a.tweets|
    requires ConvertAll(a.tweets, refs, a.includes).Some?
    ensures var c := ConvertAll(a.tweets, refs, a.includes).value[i];
            c.id == a.tweets[i].id && c.id in missing && Normal(c) == c && c.refs == []
  {
    ConvertedIsNormal(a.tweets[i], KindOf(refs, a.tweets[i].id), a.includes);
    assert RawIds(a.tweets)[i] in multiset(RawIds(a.tweets));
  }

  lemma FetchedAreSame(refs: seq<RawRef>, a: Answer, i: nat, j: nat)
    requires i < |a.tweets| && j < |a.tweets| && ConvertAll(a.tweets, refs, a.includes).Some?
    requires a.tweets[i] == a.tweets[j]
    ensures var fetched := ConvertAll(a.tweets, refs, a.includes).value; fetched[i] == fetched[j]
  {
  }

  /** What a lookup adds: normal tweets without references, one per missing ID. */
  lemma FetchedAreNew(refs: seq<RawRef>, missing: seq<string>, a: Answer)
    requires Answers(missing, a) && a.ok && |a.tweets| == |missing|
    requires ConvertAll(a.tweets, refs, a.includes).Some?
    ensures var fetched := ConvertAll(a.tweets, refs, a.includes).value;
            && (forall c | c in fetched :: c.id in missing && Normal(c) == c && c.refs == [])
            && (forall c, d | c in fetched && d in fetched && c.id == d.id :: c == d)
  {
    var fetched := ConvertAll(a.tweets, refs, a.includes).value;
    forall c | c in fetched ensures c.id in missing && Normal(c) == c && c.refs == [] {
      var i :| 0 <= i < |fetched| && fetched[i] == c;
      FetchedIsNew(refs, missing, a, i);
    }
    forall c, d | c in fetched && d in fetched && c.id == d.id ensures c == d {
      var i :| 0 <= i < |fetched| && fetched[i] == c;
      var j :| 0 <= j < |fetched| && fetched[j] == d;
      FetchedIsNew(refs, missing, a, i);
      FetchedIsNew(refs, missing, a, j);
      assert a.tweets[i] in a.tweets && a.tweets[j] in a.tweets;
      FetchedAreSame(refs, a, i, j);
    }
  }

  lemma LookingUpAlone(
    store: Store, parent: Tweet, refs: seq<RawRef>, known: seq<Tweet>, missing: seq<string>, a: Answer)
    requires Coherent(store) && Collected(store, parent, refs, known, missing) && Answers(missing, a)
    requires a.ok && |a.tweets| == |missing| && ConvertAll(a.tweets, refs, a.includes).Some?
    ensures Fits(store, parent, known + ConvertAll(a.tweets, refs, a.includes).value)
  {
    CollectedFits(store, parent, refs, known, missing);
    FetchedAreNew(refs, missing, a);
  }

  lemma StoreCopyAlone(store: Store, parent: Tweet, copies: seq<Tweet>, at: nat)
    requires Coherent(store) && PartlyStored(store, parent, copies, at) && at < |copies|
    ensures var store' := store[copies[at].id := Normal(copies[at])];
            Coherent(store') && Preserves(store, store') && PartlyStored(store', parent, copies, at + 1)
  {
    var c := copies[at];
    assert c in copies;
    var store' := store[c.id := Normal(c)];
    assert Preserves(store, store');
    forall i | 0 <= i < at + 1 ensures Holds(store', copies[i]) {
    }
  }

  lemma AllStored(store: Store, parent: Tweet, copies: seq<Tweet>, at: nat)
    requires PartlyStored(store, parent, copies, at) && at <= |copies|
    ensures Alone(store, StoreCopies(parent, copies, at))
  {
    if at == |copies| {
      assert NormalAll(copies) == copies by {
        forall i | 0 <= i < |copies| ensures Normal(copies[i]) == copies[i] {
          assert copies[i] in copies;
        }
      }
    }
  }

  lemma FetchingAlone(sh: Shared, ph: Phase, a: Answer)
    requires ph.Fetching? && Alone(sh.store, ph) && Honest(ph, a)
    ensures Alone(sh.store, Step(sh, ph, a).1)
  {
    if a.ok && |a.tweets| == 1 && Convert(a.tweets[0], "", a.includes).Some? {
      ConvertedIsNormal(a.tweets[0], "", a.includes);
    }
  }

  lemma CreateAlone(store: Store, job: Job, todo: seq<TwitterUser>)
    requires JobFits(store, job)
    ensures Alone(store, Create(job, todo))
  {
    if job.ForCopies? {
      AllStored(store, job.parent, job.copies, 0);
    }
  }

  lemma StoringAlone(sh: Shared, ph: Phase, a: Answer)
    requires ph.StoringCopies? || ph.StoringParent?
    requires Coherent(sh.store) && Alone(sh.store, ph) && Honest(ph, a)
    ensures var (sh', ph') := Step(sh, ph, a);
            Coherent(sh'.store) && Alone(sh'.store, ph') && Preserves(sh.store, sh'.store)
  {
    if ph.StoringCopies? && a.ok && ph.at < |ph.copies| {
      StoreCopyAlone(sh.store, ph.parent, ph.copies, ph.at);
      AllStored(sh.store[ph.copies[ph.at].id := Normal(ph.copies[ph.at])], ph.parent, ph.copies, ph.at + 1);
    }
  }

  lemma OtherStepAlone(sh: Shared, ph: Phase, a: Answer)
    requires !ph.StoringCopies? && !ph.StoringParent?
    requires Coherent(sh.store) && Alone(sh.store, ph) && Honest(ph, a)
    ensures Alone(sh.store, Step(sh, ph, a).1)
  {
    match ph
    case Fetching(id) => FetchingAlone(sh, ph, a);
    case Collecting(_, _, _, _, _) => CollectingAlone(sh, ph, a);
    case LookingUp(parent, refs, known, missing) =>
      if a.ok && |a.tweets| == |missing| && ConvertAll(a.tweets, refs, a.includes).Some? {
        LookingUpAlone(sh.store, parent, refs, known, missing, a);
      }
    case AskingAuthors(job) => CreateAlone(sh.store, job, a.users);
    case CreatingAuthors(job, todo, _) => CreateAlone(sh.store, job, if todo == [] then [] else todo[1..]);
    case _ =>
  }

  lemma StepAlone(sh: Shared, ph: Phase, a: Answer)
    requires Coherent(sh.store) && Alone(sh.store, ph) && Honest(ph, a)
    ensures var (sh', ph') := Step(sh, ph, a);
            Coherent(sh'.store) && Alone(sh'.store, ph') && Preserves(sh.store, sh'.store)
  {
    if ph.StoringCopies? || ph.StoringParent? {
      StoringAlone(sh, ph, a);
    } else {
      OtherStepAlone(sh, ph, a);
      OtherStepsKeepStore(sh, ph, a);
    }
  }

  lemma {:induction false} FinishAlone(env: nat -> Answer, sh: Shared, ph: Phase, clock: nat)
    requires Coherent(sh.store) && Alone(sh.store, ph) && HonestRun(env, sh, ph, clock)
    ensures var f := Finish(env, sh, ph, clock);
            Coherent(f.sh.store) && Alone(f.sh.store, f.phase) && Preserves(sh.store, f.sh.store)
    decreases Finish(env, sh, ph, clock).clock - clock
  {
    if !Finished(ph) {
      var (sh', ph') := Step(sh, ph, env(clock));
      StepAlone(sh, ph, env(clock));
      FinishAlone(env, sh', ph', clock + 1);
    }
  }

  // ---------- any sequence of calls ----------

  datatype Call = Call(id: string, env: nat -> Answer)

  function RunCalls(sh: Shared, calls: seq<Call>): Shared
    decreases |calls|
  {
    if calls == [] then sh
    else RunCalls(Finish(calls[0].env, sh, Checking(calls[0].id), 0).sh, calls[1..])
  }

  predicate HonestCalls(sh: Shared, calls: seq<Call>)
    decreases |calls|
  {
    calls == [] ||
    (&& HonestRun(calls[0].env, sh, Checking(calls[0].id), 0)
     && HonestCalls(Finish(calls[0].env, sh, Checking(calls[0].id), 0).sh, calls[1..]))
  }

  /** No call changes the value under a key, whichever calls fail and wherever they fail. */
  lemma {:induction false} WriteOnce(sh: Shared, calls: seq<Call>)
    requires Coherent(sh.store) && HonestCalls(sh, calls)
    ensures var sh' := RunCalls(sh, calls); Coherent(sh'.store) && Preserves(sh.store, sh'.store)
    decreases |calls|
  {
    if calls != [] {
      FinishAlone(calls[0].env, sh, Checking(calls[0].id), 0);
      WriteOnce(Finish(calls[0].env, sh, Checking(calls[0].id), 0).sh, calls[1..]);
    }
  }

  lemma {:induction false} DeepCopiesHeld(store: Store, ts: seq<Tweet>, x: Tweet)
    requires Coherent(store) && AllHeld(store, ts) && x in Copies(ts)
    ensures Holds(store, x)
    decreases ts
  {
    assert Holds(store, ts[0]);
    if x in Copies(ts[0].refs) {
      DeepCopiesHeld(store, ts[0].refs, x);
    } else if x != ts[0] {
      DeepCopiesHeld(store, ts[1..], x);
    }
  }

  /** A copy inside a stored tweet, at any depth, is the stored tweet of that ID, now and after any
      further calls. */
  lemma CopiesStayEqual(sh: Shared, before: seq<Call>, after: seq<Call>, k: string, x: Tweet)
    requires sh.store == map[] && HonestCalls(sh, before) && HonestCalls(RunCalls(sh, before), after)
    requires k in RunCalls(sh, before).store && x in Copies([RunCalls(sh, before).store[k]])
    ensures Holds(RunCalls(RunCalls(sh, before), after).store, x)
  {
    var mid := RunCalls(sh, before);
    WriteOnce(sh, before);
    WriteOnce(mid, after);
    DeepCopiesHeld(mid.store, [mid.store[k]], x);
  }

  // ---------- a tweet first seen as a reference ----------

  /** The keys a call adds. All but the requested one carry no references. */
  predicate OnlyParentRefers(old_: Store, store: Store, id: string) {
    forall k | k in store && k !in old_ && k != id :: store[k].refs == []
  }

  predicate Serves(ph: Phase, id: string) {
    match ph
    case Checking(i) => i == id
    case Fetching(i) => i == id
    case Collecting(parent, _, _, _, _) => parent.id == id
    case LookingUp(parent, _, _, _) => parent.id == id
    case AskingAuthors(job) => job.parent.id == id
    case CreatingAuthors(job, _, _) => job.parent.id == id
    case StoringCopies(parent, _, _) => parent.id == id
    case StoringParent(parent) => parent.id == id
    case _ => true
  }

  lemma StepServes(sh: Shared, ph: Phase, a: Answer, id: string)
    requires Serves(ph, id) && Honest(ph, a)
    ensures Serves(Step(sh, ph, a).1, id)
  {
  }

  lemma WriteOnlyParentRefers(old_: Store, sh: Shared, t: Tweet, lands: bool, id: string)
    requires OnlyParentRefers(old_, sh.store, id) && (t.id == id || Normal(t).refs == [] || Holds(sh.store, Normal(t)))
    ensures OnlyParentRefers(old_, Write(sh, t, lands).store, id)
  {
  }

  lemma StepOnlyParentRefers(old_: Store, sh: Shared, ph: Phase, a: Answer, id: string)
    requires Alone(sh.store, ph) && Serves(ph, id) && OnlyParentRefers(old_, sh.store, id)
    ensures OnlyParentRefers(old_, Step(sh, ph, a).0.store, id)
  {
    if ph.StoringCopies? {
      if ph.at < |ph.copies| {
        var c := ph.copies[ph.at];
        assert c in ph.copies && Normal(c) == c;
        WriteOnlyParentRefers(old_, sh, c, a.lands, id);
      }
    } else if ph.StoringParent? {
      WriteOnlyParentRefers(old_, sh, ph.parent, a.lands, id);
    } else {
      OtherStepsKeepStore(sh, ph, a);
    }
  }

  lemma {:induction false} OnlyTheRequestedTweetRefers(
    env: nat -> Answer, old_: Store, sh: Shared, ph: Phase, clock: nat, id: string)
    requires Coherent(sh.store) && Alone(sh.store, ph) && HonestRun(env, sh, ph, clock) && Serves(ph, id)
    requires Preserves(old_, sh.store) && OnlyParentRefers(old_, sh.store, id)
    ensures OnlyParentRefers(old_, Finish(env, sh, ph, clock).sh.store, id)
    decreases Finish(env, sh, ph, clock).clock - clock
  {
    if !Finished(ph) {
      var (sh', ph') := Step(sh, ph, env(clock));
      StepAlone(sh, ph, env(clock));
      StepServes(sh, ph, env(clock), id);
      StepOnlyParentRefers(old_, sh, ph, env(clock), id);
      assert Preserves(old_, sh'.store);
      OnlyTheRequestedTweetRefers(env, old_, sh', ph', clock + 1, id);
    }
  }

  /** A tweet that some call brought in as a reference is from then on returned as it was stored then,
      without references, whatever Twitter lists for it. */
  lemma SecondHandTweetsHaveNoReferences(sh: Shared, first: Call, later: seq<Call>, k: string, env: nat -> Answer)
    requires Coherent(sh.store) && HonestCalls(sh, [first] + later) && env(0).ok
    requires k !in sh.store && k != first.id
    requires k in Finish(first.env, sh, Checking(first.id), 0).sh.store
    ensures var f := Finish(env, RunCalls(sh, [first] + later), Checking(k), 0);
            f.phase.Done? && f.phase.tweet.id == k && f.phase.tweet.refs == []
  {
    var mid := Finish(first.env, sh, Checking(first.id), 0).sh;
    assert ([first] + later)[1..] == later;
    FinishAlone(first.env, sh, Checking(first.id), 0);
    OnlyTheRequestedTweetRefers(first.env, sh.store, sh, Checking(first.id), 0, first.id);
    WriteOnce(mid, later);
  }
}

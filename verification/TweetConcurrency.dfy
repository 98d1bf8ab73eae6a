/** The cache is write-once also for workers that interleave, as long as no two of them are on the way to write
    the same key at the same time. */
module TweetConcurrency {
  import opened Options
  import opened Environment
  import opened Tweets
  import opened Users
  import opened TweetSaver
  import opened TweetResult
  import opened TweetHistory

  predicate JobClaims(store: Store, job: Job, id: string) {
    match job
    case ForCopies(parent, copies) => id == parent.id || Outstanding(store, copies, id)
    case ForParent(parent) => id == parent.id
  }

  predicate Outstanding(store: Store, copies: seq<Tweet>, id: string) {
    id !in store && exists c | c in copies :: c.id == id
  }

  /** The worker has missed this key and is on the way to write it. */
  predicate Claims(store: Store, ph: Phase, id: string) {
    match ph
    case Fetching(i) => i == id
    case Collecting(parent, _, _, _, missing) => id == parent.id || id in missing
    case LookingUp(parent, _, _, missing) => id == parent.id || id in missing
    case AskingAuthors(job) => JobClaims(store, job, id)
    case CreatingAuthors(job, _, _) => JobClaims(store, job, id)
    case StoringCopies(parent, copies, _) => id == parent.id || Outstanding(store, copies, id)
    case StoringParent(parent) => id == parent.id
    case _ => false
  }

  /** This call is a read that does not find the key. */
  predicate Misses(sh: Shared, ph: Phase, a: Answer, id: string) {
    match ph
    case Checking(i) => i == id && !Hit(sh, id, a)
    case Collecting(_, refs, at, _, _) => at < |refs| && refs[at].id == id && !Hit(sh, id, a)
    case _ => false
  }

  /** Nothing is evicted; answers are honest; and whoever misses a key is the only one on the way to write it. */
  ghost predicate Apart(sys: System, e: Event) {
    match e
    case Begin(_) => true
    case Act(w, a) =>
      w < |sys.workers| ==>
        && Honest(sys.workers[w], a)
        && forall id, v | Misses(sys.sh, sys.workers[w], a, id) && 0 <= v < |sys.workers| && v != w ::
             !Claims(sys.sh.store, sys.workers[v], id)
    case Evict(_) => false
  }

  ghost predicate ApartRun(sys: System, events: seq<Event>)
    decreases |events|
  {
    events == [] || (Apart(sys, events[0]) && ApartRun(Apply(sys, events[0]), events[1..]))
  }

  ghost predicate Disjoint(store: Store, ph: Phase, other: Phase) {
    forall id :: Claims(store, ph, id) ==> !Claims(store, other, id)
  }

  ghost predicate AllDisjoint(store: Store, workers: seq<Phase>) {
    forall v, w | 0 <= v < |workers| && 0 <= w < |workers| && v != w :: Disjoint(store, workers[v], workers[w])
  }

  predicate AllAlone(store: Store, workers: seq<Phase>) {
    forall w | 0 <= w < |workers| :: Alone(store, workers[w])
  }

  ghost predicate Together(sys: System) {
    Coherent(sys.sh.store) && AllAlone(sys.sh.store, sys.workers) && AllDisjoint(sys.sh.store, sys.workers)
  }

  // ---------- one step, seen by its worker ----------

  lemma CreateClaims(store: Store, job: Job, todo: seq<TwitterUser>, id: string)
    requires Claims(store, Create(job, todo), id)
    ensures JobClaims(store, job, id)
  {
  }

  lemma GatheringClaims(sh: Shared, ph: Phase, a: Answer, id: string)
    requires ph.Fetching? || ph.Collecting? || ph.LookingUp?
    requires Coherent(sh.store) && Alone(sh.store, ph) && Honest(ph, a) && Claims(sh.store, Step(sh, ph, a).1, id)
    ensures Claims(sh.store, ph, id) || Misses(sh, ph, a, id)
  {
    if ph.LookingUp? && a.ok && |a.tweets| == |ph.missing| && ConvertAll(a.tweets, ph.refs, a.includes).Some? {
      FetchedAreNew(ph.refs, ph.missing, a);
    }
  }

  lemma WritingClaims(sh: Shared, ph: Phase, a: Answer, id: string)
    requires ph.StoringCopies? || ph.StoringParent?
    requires var (sh', ph') := Step(sh, ph, a); Claims(sh'.store, ph', id)
    ensures Claims(sh.store, ph, id)
  {
  }

  /** A worker comes to claim a key only by missing it. */
  lemma StepClaims(sh: Shared, ph: Phase, a: Answer, id: string)
    requires Coherent(sh.store) && Alone(sh.store, ph) && Honest(ph, a)
    requires var (sh', ph') := Step(sh, ph, a); Claims(sh'.store, ph', id)
    ensures Claims(sh.store, ph, id) || Misses(sh, ph, a, id)
  {
    match ph
    case AskingAuthors(job) => CreateClaims(sh.store, job, a.users, id);
    case CreatingAuthors(job, todo, _) =>
      if Step(sh, ph, a).1 == Create(job, todo[1..]) {
        CreateClaims(sh.store, job, todo[1..], id);
      }
    case StoringCopies(_, _, _) => WritingClaims(sh, ph, a, id);
    case StoringParent(_) => WritingClaims(sh, ph, a, id);
    case Checking(_) =>
    case Done(_) =>
    case Failed =>
    case _ => GatheringClaims(sh, ph, a, id);
  }

  /** And it writes no new key but one that it claims. */
  lemma StepWritesItsClaims(sh: Shared, ph: Phase, a: Answer, id: string)
    requires id in Step(sh, ph, a).0.store && id !in sh.store
    ensures Claims(sh.store, ph, id)
  {
    if !ph.StoringCopies? && !ph.StoringParent? {
      OtherStepsKeepStore(sh, ph, a);
    }
  }

  // ---------- the same step, seen by the others ----------

  lemma ClaimsShrink(store: Store, store': Store, ph: Phase, id: string)
    requires Preserves(store, store') && Claims(store', ph, id)
    ensures Claims(store, ph, id)
  {
  }

  lemma FitsStays(store: Store, store': Store, parent: Tweet, copies: seq<Tweet>)
    requires Preserves(store, store') && Fits(store, parent, copies) && parent.id !in store'
    requires forall c | c in copies && c.id !in store :: c.id !in store'
    ensures Fits(store', parent, copies)
  {
  }

  lemma AloneStays(store: Store, store': Store, ph: Phase)
    requires Preserves(store, store') && Alone(store, ph)
    requires forall id | Claims(store, ph, id) :: id !in store'
    ensures Alone(store', ph)
  {
    match ph
    case Fetching(id) => assert Claims(store, ph, id);
    case Collecting(parent, refs, _, known, missing) =>
      assert Claims(store, ph, parent.id) && forall m | m in missing :: Claims(store, ph, m);
    case LookingUp(parent, refs, known, missing) =>
      assert Claims(store, ph, parent.id) && forall m | m in missing :: Claims(store, ph, m);
    case AskingAuthors(job) => JobStays(store, store', ph, job);
    case CreatingAuthors(job, _, _) => JobStays(store, store', ph, job);
    case StoringCopies(parent, copies, _) =>
      assert Claims(store, ph, parent.id) && forall c | c in copies && c.id !in store :: Claims(store, ph, c.id);
      FitsStays(store, store', parent, copies);
    case StoringParent(parent) => assert Claims(store, ph, parent.id);
    case _ =>
  }

  lemma JobStays(store: Store, store': Store, ph: Phase, job: Job)
    requires Preserves(store, store') && JobFits(store, job)
    requires forall id | JobClaims(store, job, id) :: id !in store'
    ensures JobFits(store', job)
  {
    assert JobClaims(store, job, job.parent.id);
    if job.ForCopies? {
      assert forall c | c in job.copies && c.id !in store :: JobClaims(store, job, c.id);
      FitsStays(store, store', job.parent, job.copies);
    }
  }

  lemma ClaimedIsAbsent(store: Store, ph: Phase, id: string)
    requires Alone(store, ph) && Claims(store, ph, id)
    ensures id !in store
  {
  }

  lemma OtherStaysAlone(sh: Shared, ph: Phase, a: Answer, other: Phase)
    requires Alone(sh.store, other) && Disjoint(sh.store, ph, other) && Preserves(sh.store, Step(sh, ph, a).0.store)
    ensures Alone(Step(sh, ph, a).0.store, other)
  {
    var store' := Step(sh, ph, a).0.store;
    forall id | Claims(sh.store, other, id) ensures id !in store' {
      ClaimedIsAbsent(sh.store, other, id);
      if id in store' {
        StepWritesItsClaims(sh, ph, a, id);
      }
    }
    AloneStays(sh.store, store', other);
  }

  lemma StaysDisjoint(sh: Shared, ph: Phase, a: Answer, other: Phase)
    requires Coherent(sh.store) && Alone(sh.store, ph) && Honest(ph, a) && Preserves(sh.store, Step(sh, ph, a).0.store)
    requires Disjoint(sh.store, ph, other)
    requires forall id | Misses(sh, ph, a, id) :: !Claims(sh.store, other, id)
    ensures var (sh', ph') := Step(sh, ph, a); Disjoint(sh'.store, ph', other) && Disjoint(sh'.store, other, ph')
  {
    var (sh', ph') := Step(sh, ph, a);
    forall id | Claims(sh'.store, ph', id) ensures !Claims(sh'.store, other, id) {
      StepClaims(sh, ph, a, id);
      if Claims(sh'.store, other, id) {
        ClaimsShrink(sh.store, sh'.store, other, id);
      }
    }
  }

  lemma OthersStayDisjoint(store: Store, store': Store, ph: Phase, other: Phase)
    requires Preserves(store, store') && Disjoint(store, ph, other)
    ensures Disjoint(store', ph, other)
  {
    forall id | Claims(store', ph, id) ensures !Claims(store', other, id) {
      ClaimsShrink(store, store', ph, id);
      if Claims(store', other, id) {
        ClaimsShrink(store, store', other, id);
      }
    }
  }

  // ---------- every such run ----------

  lemma ActStaysTogether(sys: System, w: nat, a: Answer)
    requires Together(sys) && w < |sys.workers| && Apart(sys, Act(w, a))
    ensures var sys' := Apply(sys, Act(w, a)); Together(sys') && Preserves(sys.sh.store, sys'.sh.store)
  {
    var sh, ph := sys.sh, sys.workers[w];
    var (sh', ph') := Step(sh, ph, a);
    var workers' := sys.workers[w := ph'];
    StepAlone(sh, ph, a);
    forall v | 0 <= v < |workers'| ensures Alone(sh'.store, workers'[v]) {
      if v != w {
        OtherStaysAlone(sh, ph, a, sys.workers[v]);
      }
    }
    forall u, v | 0 <= u < |workers'| && 0 <= v < |workers'| && u != v
      ensures Disjoint(sh'.store, workers'[u], workers'[v])
    {
      if u == w {
        StaysDisjoint(sh, ph, a, sys.workers[v]);
      } else if v == w {
        StaysDisjoint(sh, ph, a, sys.workers[u]);
      } else {
        OthersStayDisjoint(sh.store, sh'.store, sys.workers[u], sys.workers[v]);
      }
    }
  }

  lemma ApplyStaysTogether(sys: System, e: Event)
    requires Together(sys) && Apart(sys, e)
    ensures var sys' := Apply(sys, e); Together(sys') && Preserves(sys.sh.store, sys'.sh.store)
  {
    match e
    case Begin(_) =>
    case Act(w, a) =>
      if w < |sys.workers| {
        ActStaysTogether(sys, w, a);
      }
    case Evict(_) =>
  }

  lemma {:induction false} RunStaysTogether(sys: System, events: seq<Event>)
    requires Together(sys) && ApartRun(sys, events)
    ensures var sys' := Exec(sys, events); Together(sys') && Preserves(sys.sh.store, sys'.sh.store)
    decreases |events|
  {
    if events != [] {
      ApplyStaysTogether(sys, events[0]);
      RunStaysTogether(Apply(sys, events[0]), events[1..]);
    }
  }

  /** A call that nobody interrupts while all others have finished is such a run. */
  lemma {:induction false} AloneIsApart(env: nat -> Answer, sys: System, w: nat, clock: nat)
    requires w < |sys.workers| && HonestRun(env, sys.sh, sys.workers[w], clock)
    requires forall v | 0 <= v < |sys.workers| && v != w :: Finished(sys.workers[v])
    ensures ApartRun(sys, SoloEvents(env, sys.sh, sys.workers[w], clock, w))
    decreases Finish(env, sys.sh, sys.workers[w], clock).clock - clock
  {
    if !Finished(sys.workers[w]) {
      var events := SoloEvents(env, sys.sh, sys.workers[w], clock, w);
      var sys' := Apply(sys, Act(w, env(clock)));
      AloneIsApart(env, sys', w, clock + 1);
      assert events[1..] == SoloEvents(env, sys'.sh, sys'.workers[w], clock + 1, w);
      assert events[0] == Act(w, env(clock)) && Apart(sys, events[0]);
    }
  }

  /** No call ever changes the value under a key, in whatever order any number of workers make their calls and
      whichever calls fail, if nobody misses a key that another worker is about to write. */
  lemma WriteOnceTogether(rows: seq<User>, before: seq<Event>, after: seq<Event>, k: string)
    requires ApartRun(Start(rows), before + after) && k in Exec(Start(rows), before).sh.store
    ensures var store, store' := Exec(Start(rows), before).sh.store, Exec(Start(rows), before + after).sh.store;
            k in store' && store'[k] == store[k]
  {
    ApartConcat(Start(rows), before, after);
    ExecConcat(Start(rows), before, after);
    RunStaysTogether(Start(rows), before);
    RunStaysTogether(Exec(Start(rows), before), after);
  }

  /** And in such a run a copy inside a stored tweet, at any depth, is the stored tweet of that ID. */
  lemma CopiesAgreeTogether(rows: seq<User>, events: seq<Event>, k: string, x: Tweet)
    requires ApartRun(Start(rows), events) && k in Exec(Start(rows), events).sh.store
    requires x in Copies([Exec(Start(rows), events).sh.store[k]])
    ensures Holds(Exec(Start(rows), events).sh.store, x)
  {
    RunStaysTogether(Start(rows), events);
    var store := Exec(Start(rows), events).sh.store;
    DeepCopiesHeld(store, [store[k]], x);
  }

  lemma {:induction false} ApartConcat(sys: System, xs: seq<Event>, ys: seq<Event>)
    requires ApartRun(sys, xs + ys)
    ensures ApartRun(sys, xs) && ApartRun(Exec(sys, xs), ys)
    decreases |xs|
  {
    if xs == [] {
      assert xs + ys == ys;
    } else {
      assert (xs + ys)[1..] == xs[1..] + ys;
      ApartConcat(Apply(sys, xs[0]), xs[1..], ys);
    }
  }
}

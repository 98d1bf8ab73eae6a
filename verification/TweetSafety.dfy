/** What every interleaving of tweet-saving workers keeps. */
module TweetSafety {
  import opened Environment
  import opened Text
  import opened Tweets
  import opened Users
  import opened TweetSaver

  /** The IDs the cache holds, or once held or was told to hold. */
  function Known(sh: Shared): set<string> {
    sh.store.Keys + sh.lost
  }

  predicate Resolved(sh: Shared, id: string) {
    Get(sh.rows, id).Some? || id in sh.unanswered || !IsInt64(id)
  }

  /** What is known of Twitter's content, by tweet; with the empty map nothing is assumed. */
  type Twitter = map<string, Content>

  predicate Sound(b: Twitter, t: Tweet) {
    t.id in b ==> Carries(b[t.id], t)
  }

  predicate Good(b: Twitter, sh: Shared, t: Tweet) {
    t.id in Known(sh) && Resolved(sh, t.authorId) && Sound(b, t)
  }

  ghost predicate AllGood(b: Twitter, sh: Shared, ts: seq<Tweet>) {
    forall x | x in Copies(ts) :: Good(b, sh, x)
  }

  ghost predicate StoreOk(b: Twitter, sh: Shared) {
    forall k | k in sh.store ::
      sh.store[k].id == k && Good(b, sh, sh.store[k]) && AllGood(b, sh, sh.store[k].refs)
  }

  ghost predicate CopiesOk(b: Twitter, sh: Shared, parent: Tweet, copies: seq<Tweet>) {
    && parent.refs == [] && Sound(b, parent)
    && forall c | c in copies :: Sound(b, c) && AllGood(b, sh, c.refs)
  }

  ghost predicate JobOk(b: Twitter, sh: Shared, job: Job) {
    match job
    case ForCopies(parent, copies) => CopiesOk(b, sh, parent, copies)
    case ForParent(parent) => Sound(b, parent) && AllGood(b, sh, parent.refs)
  }

  predicate Pending(sh: Shared, job: Job, todo: seq<TwitterUser>) {
    forall id | id in Wanted(job) :: Resolved(sh, id) || exists u | u in todo :: u.id == id
  }

  ghost predicate StoringOk(b: Twitter, sh: Shared, parent: Tweet, copies: seq<Tweet>, at: nat) {
    && CopiesOk(b, sh, parent, copies)
    && (forall c | c in copies :: Resolved(sh, c.authorId))
    && (forall i | 0 <= i < |copies| && i < at :: copies[i].id in Known(sh))
  }

  ghost predicate PhaseOk(b: Twitter, sh: Shared, ph: Phase) {
    match ph
    case Checking(_) => true
    case Fetching(_) => true
    case Collecting(parent, _, _, known, _) => CopiesOk(b, sh, parent, known)
    case LookingUp(parent, _, known, _) => CopiesOk(b, sh, parent, known)
    case AskingAuthors(job) => JobOk(b, sh, job)
    case CreatingAuthors(job, todo, _) => JobOk(b, sh, job) && Pending(sh, job, todo)
    case StoringCopies(parent, copies, at) => StoringOk(b, sh, parent, copies, at)
    case StoringParent(parent) =>
      Sound(b, parent) && AllGood(b, sh, parent.refs) && Resolved(sh, parent.authorId)
    case Done(t) => Good(b, sh, t) && AllGood(b, sh, t.refs)
    case Failed => true
  }

  ghost predicate Inv(b: Twitter, sys: System) {
    StoreOk(b, sys.sh) && forall w | 0 <= w < |sys.workers| :: PhaseOk(b, sys.sh, sys.workers[w])
  }

  predicate Consistent(b: Twitter, a: Answer) {
    forall raw | raw in a.tweets :: raw.id in b ==> raw == b[raw.id].raw && Tells(a.includes, b[raw.id])
  }

  // ---------- what only grows ----------

  predicate Grows(sh: Shared, sh': Shared) {
    Known(sh) <= Known(sh') && sh.rows <= sh'.rows && sh.unanswered <= sh'.unanswered
  }

  lemma StepGrows(sh: Shared, ph: Phase, a: Answer)
    ensures Grows(sh, Step(sh, ph, a).0)
  {
    if ph.CreatingAuthors? && ph.todo != [] {
      CreateFromTwitterExtends(sh.rows, ph.todo[0], a);
    }
  }

  lemma ResolvedStays(sh: Shared, sh': Shared, id: string)
    requires Grows(sh, sh') && Resolved(sh, id)
    ensures Resolved(sh', id)
  {
    if Get(sh.rows, id).Some? {
      GetStays(sh.rows, sh'.rows, id);
    }
  }

  lemma AllGoodStays(b: Twitter, sh: Shared, sh': Shared, ts: seq<Tweet>)
    requires Grows(sh, sh') && AllGood(b, sh, ts)
    ensures AllGood(b, sh', ts)
  {
    forall x | x in Copies(ts) ensures Good(b, sh', x) {
      assert Good(b, sh, x);
      ResolvedStays(sh, sh', x.authorId);
    }
  }

  lemma CopiesOkStays(b: Twitter, sh: Shared, sh': Shared, parent: Tweet, copies: seq<Tweet>)
    requires Grows(sh, sh') && CopiesOk(b, sh, parent, copies)
    ensures CopiesOk(b, sh', parent, copies)
  {
    forall c | c in copies ensures AllGood(b, sh', c.refs) {
      AllGoodStays(b, sh, sh', c.refs);
    }
  }

  lemma JobOkStays(b: Twitter, sh: Shared, sh': Shared, job: Job)
    requires Grows(sh, sh') && JobOk(b, sh, job)
    ensures JobOk(b, sh', job)
  {
    match job
    case ForCopies(parent, copies) => CopiesOkStays(b, sh, sh', parent, copies);
    case ForParent(parent) => AllGoodStays(b, sh, sh', parent.refs);
  }

  lemma PendingStays(sh: Shared, sh': Shared, job: Job, todo: seq<TwitterUser>)
    requires Grows(sh, sh') && Pending(sh, job, todo)
    ensures Pending(sh', job, todo)
  {
    forall id | id in Wanted(job) && Resolved(sh, id) ensures Resolved(sh', id) {
      ResolvedStays(sh, sh', id);
    }
  }

  lemma StoringOkStays(
    b: Twitter, sh: Shared, sh': Shared, parent: Tweet, copies: seq<Tweet>, at: nat)
    requires Grows(sh, sh') && StoringOk(b, sh, parent, copies, at)
    ensures StoringOk(b, sh', parent, copies, at)
  {
    CopiesOkStays(b, sh, sh', parent, copies);
    forall c | c in copies ensures Resolved(sh', c.authorId) {
      ResolvedStays(sh, sh', c.authorId);
    }
  }

  lemma PhaseOkStays(b: Twitter, sh: Shared, sh': Shared, ph: Phase)
    requires Grows(sh, sh') && PhaseOk(b, sh, ph)
    ensures PhaseOk(b, sh', ph)
  {
    match ph
    case Collecting(parent, _, _, known, _) => CopiesOkStays(b, sh, sh', parent, known);
    case LookingUp(parent, _, known, _) => CopiesOkStays(b, sh, sh', parent, known);
    case AskingAuthors(job) => JobOkStays(b, sh, sh', job);
    case CreatingAuthors(job, todo, _) =>
      JobOkStays(b, sh, sh', job);
      PendingStays(sh, sh', job, todo);
    case StoringCopies(parent, copies, at) => StoringOkStays(b, sh, sh', parent, copies, at);
    case StoringParent(parent) =>
      AllGoodStays(b, sh, sh', parent.refs);
      ResolvedStays(sh, sh', parent.authorId);
    case Done(t) =>
      AllGoodStays(b, sh, sh', t.refs);
      ResolvedStays(sh, sh', t.authorId);
    case _ =>
  }

  // ---------- one step of one worker ----------

  lemma FreshAreSound(b: Twitter, a: Answer, refs: seq<RawRef>)
    requires Consistent(b, a) && ConvertAll(a.tweets, refs, a.includes).Some?
    ensures forall c | c in ConvertAll(a.tweets, refs, a.includes).value :: Sound(b, c) && c.refs == []
  {
    var fetched := ConvertAll(a.tweets, refs, a.includes).value;
    forall c | c in fetched ensures Sound(b, c) && c.refs == [] {
      var i :| 0 <= i < |fetched| && fetched[i] == c;
      assert a.tweets[i] in a.tweets;
    }
  }

  lemma MembersGood(b: Twitter, sh: Shared, ts: seq<Tweet>)
    requires forall t | t in ts :: Good(b, sh, t) && AllGood(b, sh, t.refs)
    ensures AllGood(b, sh, ts)
  {
    forall x | x in Copies(ts) ensures Good(b, sh, x) {
      CopiesFromMembers(ts, x);
    }
  }

  lemma CopiesAreGood(b: Twitter, sh: Shared, parent: Tweet, copies: seq<Tweet>)
    requires StoringOk(b, sh, parent, copies, |copies|)
    ensures AllGood(b, sh, NormalAll(copies))
  {
    var refs := NormalAll(copies);
    forall t | t in refs ensures Good(b, sh, t) && AllGood(b, sh, t.refs) {
      var i :| 0 <= i < |refs| && refs[i] == t;
      assert copies[i] in copies;
      NormalSound(b, copies[i]);
    }
    MembersGood(b, sh, refs);
  }

  /** Entering or staying in the loop that stores the copies; at its end they all become part of the parent. */
  lemma StoreCopiesOk(b: Twitter, sh: Shared, parent: Tweet, copies: seq<Tweet>, at: nat)
    requires at <= |copies| && StoringOk(b, sh, parent, copies, at)
    ensures PhaseOk(b, sh, StoreCopies(parent, copies, at))
  {
    if at == |copies| {
      CopiesAreGood(b, sh, parent, copies);
    }
  }

  lemma CreateOk(b: Twitter, sh: Shared, job: Job, todo: seq<TwitterUser>)
    requires JobOk(b, sh, job) && Pending(sh, job, todo)
    ensures PhaseOk(b, sh, Create(job, todo))
  {
    if todo == [] && job.ForCopies? {
      forall c | c in job.copies ensures Resolved(sh, c.authorId) {
        var i :| 0 <= i < |job.copies| && job.copies[i] == c;
        assert Wanted(job)[i] == c.authorId;
      }
      StoreCopiesOk(b, sh, job.parent, job.copies, 0);
    }
    if todo == [] && job.ForParent? {
      assert Wanted(job)[0] == job.parent.authorId;
    }
  }

  lemma CreatingStepOk(b: Twitter, sh: Shared, ph: Phase, a: Answer)
    requires ph.CreatingAuthors? && PhaseOk(b, sh, ph)
    ensures var (sh', ph') := Step(sh, ph, a); PhaseOk(b, sh', ph')
  {
    var CreatingAuthors(job, todo, absent) := ph;
    var (sh', ph') := Step(sh, ph, a);
    StepGrows(sh, ph, a);
    JobOkStays(b, sh, sh', job);
    PendingStays(sh, sh', job, todo);
    if todo != [] && ph' == Create(job, todo[1..]) {
      if absent && IsInt64(todo[0].id) {
        CreatedResolves(sh.rows, todo[0], a);
      }
      assert Resolved(sh', todo[0].id);
      assert Pending(sh', job, todo[1..]);
      CreateOk(b, sh', job, todo[1..]);
    }
  }

  lemma WriteGrows(sh: Shared, t: Tweet, lands: bool)
    ensures Grows(sh, Write(sh, t, lands)) && t.id in Known(Write(sh, t, lands))
  {
  }

  lemma StoringStepOk(
    b: Twitter, sh: Shared, sh': Shared, parent: Tweet, copies: seq<Tweet>, at: nat)
    requires at < |copies| && StoringOk(b, sh, parent, copies, at)
    requires Grows(sh, sh') && copies[at].id in Known(sh')
    ensures PhaseOk(b, sh', StoreCopies(parent, copies, at + 1))
  {
    StoringOkStays(b, sh, sh', parent, copies, at);
    StoreCopiesOk(b, sh', parent, copies, at + 1);
  }

  lemma LookingUpStepOk(b: Twitter, sh: Shared, ph: Phase, a: Answer)
    requires ph.LookingUp? && PhaseOk(b, sh, ph) && Consistent(b, a)
    ensures PhaseOk(b, sh, Step(sh, ph, a).1)
  {
    if ConvertAll(a.tweets, ph.refs, a.includes).Some? {
      FreshAreSound(b, a, ph.refs);
    }
  }

  lemma AskingStepOk(b: Twitter, sh: Shared, ph: Phase, a: Answer)
    requires ph.AskingAuthors? && PhaseOk(b, sh, ph)
    ensures var (sh', ph') := Step(sh, ph, a); PhaseOk(b, sh', ph')
  {
    var sh' := Step(sh, ph, a).0;
    JobOkStays(b, sh, sh', ph.job);
    if a.ok {
      CreateOk(b, sh', ph.job, a.users);
    }
  }

  lemma NormalSound(b: Twitter, t: Tweet)
    requires Sound(b, t)
    ensures Sound(b, Normal(t))
  {
    if t.id in b {
      NormalCarries(b[t.id], t);
    }
  }

  lemma CollectingStepOk(b: Twitter, sh: Shared, ph: Phase, a: Answer)
    requires ph.Collecting? && StoreOk(b, sh) && PhaseOk(b, sh, ph)
    ensures PhaseOk(b, sh, Step(sh, ph, a).1)
  {
    var Collecting(parent, refs, at, known, missing) := ph;
    if at < |refs| && Hit(sh, refs[at].id, a) {
      var t := Normal(sh.store[refs[at].id]);
      NormalSound(b, sh.store[refs[at].id]);
      assert AllGood(b, sh, t.refs);
      assert CopiesOk(b, sh, parent, known + [t]);
    }
  }

  lemma FetchingStepOk(b: Twitter, sh: Shared, ph: Phase, a: Answer)
    requires ph.Fetching? && Consistent(b, a)
    ensures PhaseOk(b, sh, Step(sh, ph, a).1)
  {
    if |a.tweets| == 1 {
      assert a.tweets[0] in a.tweets;
    }
  }

  lemma StoringPhaseOk(b: Twitter, sh: Shared, ph: Phase, a: Answer)
    requires ph.StoringCopies? || ph.StoringParent?
    requires PhaseOk(b, sh, ph)
    ensures var (sh', ph') := Step(sh, ph, a); PhaseOk(b, sh', ph')
  {
    if ph.StoringParent? {
      AllGoodStays(b, sh, Step(sh, ph, a).0, ph.parent.refs);
    } else if a.ok && ph.at < |ph.copies| {
      WriteGrows(sh, ph.copies[ph.at], a.lands);
      StoringStepOk(b, sh, Write(sh, ph.copies[ph.at], a.lands), ph.parent, ph.copies, ph.at);
    }
  }

  lemma StepPhaseOk(b: Twitter, sh: Shared, ph: Phase, a: Answer)
    requires StoreOk(b, sh) && PhaseOk(b, sh, ph) && Consistent(b, a)
    ensures var (sh', ph') := Step(sh, ph, a); PhaseOk(b, sh', ph')
  {
    match ph
    case Fetching(_) => FetchingStepOk(b, sh, ph, a);
    case Collecting(_, _, _, _, _) => CollectingStepOk(b, sh, ph, a);
    case LookingUp(_, _, _, _) => LookingUpStepOk(b, sh, ph, a);
    case AskingAuthors(_) => AskingStepOk(b, sh, ph, a);
    case CreatingAuthors(_, _, _) => CreatingStepOk(b, sh, ph, a);
    case StoringCopies(_, _, _) => StoringPhaseOk(b, sh, ph, a);
    case StoringParent(_) => StoringPhaseOk(b, sh, ph, a);
    case _ =>
  }

  lemma StoredStaysOk(b: Twitter, sh: Shared, sh': Shared, t: Tweet)
    requires Grows(sh, sh') && t.id in Known(sh') && Sound(b, t) && AllGood(b, sh, t.refs) && Resolved(sh, t.authorId)
    ensures Good(b, sh', t) && AllGood(b, sh', t.refs)
  {
    AllGoodStays(b, sh, sh', t.refs);
    ResolvedStays(sh, sh', t.authorId);
  }

  /** A write of a tweet whose author and whose references are there. */
  lemma WriteStoreOk(b: Twitter, sh: Shared, t: Tweet, lands: bool)
    requires StoreOk(b, sh) && Sound(b, t) && AllGood(b, sh, t.refs) && Resolved(sh, t.authorId)
    ensures StoreOk(b, Write(sh, t, lands))
  {
    var sh' := Write(sh, t, lands);
    WriteGrows(sh, t, lands);
    NormalSound(b, t);
    forall k | k in sh'.store
      ensures sh'.store[k].id == k && Good(b, sh', sh'.store[k]) && AllGood(b, sh', sh'.store[k].refs)
    {
      if lands && k == t.id {
        StoredStaysOk(b, sh, sh', Normal(t));
      } else {
        StoredStaysOk(b, sh, sh', sh.store[k]);
      }
    }
  }

  lemma KeepsStoreOk(b: Twitter, sh: Shared, sh': Shared)
    requires StoreOk(b, sh) && Grows(sh, sh') && sh'.store == sh.store
    ensures StoreOk(b, sh')
  {
    forall k | k in sh'.store
      ensures sh'.store[k].id == k && Good(b, sh', sh'.store[k]) && AllGood(b, sh', sh'.store[k].refs)
    {
      StoredStaysOk(b, sh, sh', sh.store[k]);
    }
  }

  lemma StepStoreOk(b: Twitter, sh: Shared, ph: Phase, a: Answer)
    requires StoreOk(b, sh) && PhaseOk(b, sh, ph)
    ensures StoreOk(b, Step(sh, ph, a).0)
  {
    if ph.StoringCopies? {
      if ph.at < |ph.copies| {
        assert ph.copies[ph.at] in ph.copies;
        WriteStoreOk(b, sh, ph.copies[ph.at], a.lands);
      }
    } else if ph.StoringParent? {
      WriteStoreOk(b, sh, ph.parent, a.lands);
    } else {
      StepGrows(sh, ph, a);
      OtherStepsKeepStore(sh, ph, a);
      KeepsStoreOk(b, sh, Step(sh, ph, a).0);
    }
  }

  // ---------- every run ----------

  lemma ApplyKeepsInv(b: Twitter, sys: System, e: Event)
    requires Inv(b, sys) && (e.Act? ==> Consistent(b, e.answer))
    ensures Inv(b, Apply(sys, e))
  {
    var sys' := Apply(sys, e);
    match e
    case Begin(_) =>
    case Act(w, a) =>
      if w < |sys.workers| {
        StepGrows(sys.sh, sys.workers[w], a);
        StepStoreOk(b, sys.sh, sys.workers[w], a);
        StepPhaseOk(b, sys.sh, sys.workers[w], a);
        forall v | 0 <= v < |sys'.workers| ensures PhaseOk(b, sys'.sh, sys'.workers[v]) {
          if v != w {
            PhaseOkStays(b, sys.sh, sys'.sh, sys.workers[v]);
          }
        }
      }
    case Evict(_) =>
      forall v | 0 <= v < |sys'.workers| ensures PhaseOk(b, sys'.sh, sys'.workers[v]) {
        PhaseOkStays(b, sys.sh, sys'.sh, sys.workers[v]);
      }
      forall k | k in sys'.sh.store ensures AllGood(b, sys'.sh, sys'.sh.store[k].refs) {
        AllGoodStays(b, sys.sh, sys'.sh, sys.sh.store[k].refs);
      }
  }

  lemma {:induction false} ExecKeepsInv(b: Twitter, sys: System, events: seq<Event>)
    requires Inv(b, sys) && forall e | e in events && e.Act? :: Consistent(b, e.answer)
    ensures Inv(b, Exec(sys, events))
    decreases |events|
  {
    if events != [] {
      ApplyKeepsInv(b, sys, events[0]);
      ExecKeepsInv(b, Apply(sys, events[0]), events[1..]);
    }
  }

  /** In every interleaving of any number of workers, with failures, evictions and dropped writes anywhere,
      every tweet in the cache sits under its own ID. Each copy inside it, at any depth, has an ID that is
      itself a key of the cache unless that key was evicted or its write dropped. The author of the tweet
      and of each copy is found in the user table unless Twitter did not answer for that ID or the ID is
      not an int64. */
  lemma StoredTweetsAreClosed(rows: seq<User>, events: seq<Event>, k: string, x: Tweet)
    requires k in Exec(Start(rows), events).sh.store
    requires x in Copies([Exec(Start(rows), events).sh.store[k]])
    ensures var sh := Exec(Start(rows), events).sh;
            && sh.store[k].id == k
            && (x.id in sh.store || x.id in sh.lost)
            && (Get(sh.rows, x.authorId).Some? || x.authorId in sh.unanswered || !IsInt64(x.authorId))
  {
    ExecKeepsInv(map[], Start(rows), events);
    var sh := Exec(Start(rows), events).sh;
    var t := sh.store[k];
    assert Good(map[], sh, t) && AllGood(map[], sh, t.refs);
    if x != t {
      assert x in Copies(t.refs) + Copies([t][1..]);
      assert x in Copies(t.refs);
    }
  }

  /** The same holds for the tweet that a finished call returns and for everything nested in it, at the end of
      the call and ever after. */
  lemma ReturnedTweetsAreClosed(b: Twitter, rows: seq<User>, events: seq<Event>, w: nat, x: Tweet)
    requires forall e | e in events && e.Act? :: Consistent(b, e.answer)
    requires w < |Exec(Start(rows), events).workers| && Exec(Start(rows), events).workers[w].Done?
    requires x in Copies([Exec(Start(rows), events).workers[w].tweet])
    ensures var sh := Exec(Start(rows), events).sh;
            && (x.id in sh.store || x.id in sh.lost)
            && (Get(sh.rows, x.authorId).Some? || x.authorId in sh.unanswered || !IsInt64(x.authorId))
            && (x.id in b ==> Carries(b[x.id], x))
  {
    ExecKeepsInv(b, Start(rows), events);
    var sys := Exec(Start(rows), events);
    var t := sys.workers[w].tweet;
    assert PhaseOk(b, sys.sh, sys.workers[w]);
    if x != t {
      assert x in Copies(t.refs) + Copies([t][1..]);
      assert Good(b, sys.sh, x);
    }
  }

  predicate LossFree(e: Event) {
    !e.Evict? && (e.Act? ==> e.answer.lands)
  }

  /** Without evictions and dropped writes nothing is ever missing. */
  lemma {:induction false} NothingLost(sys: System, events: seq<Event>)
    requires sys.sh.lost == {} && forall e | e in events :: LossFree(e)
    ensures Exec(sys, events).sh.lost == {}
    decreases |events|
  {
    if events != [] {
      assert LossFree(events[0]);
      NothingLost(Apply(sys, events[0]), events[1..]);
    }
  }

  predicate IsAuthorOf(job: Job, id: string) {
    match job
    case ForCopies(_, copies) => exists c | c in copies :: c.authorId == id
    case ForParent(parent) => id == parent.authorId
  }

  /** The question for the authors of a job is answered with an account for each of them. */
  ghost predicate AnswersAuthors(ph: Phase, a: Answer) {
    ph.AskingAuthors? ==> forall id | IsAuthorOf(ph.job, id) :: exists u | u in a.users :: u.id == id
  }

  ghost predicate AuthorsAnswered(sys: System, events: seq<Event>)
    decreases |events|
  {
    events == [] ||
    (&& (events[0].Act? && events[0].worker < |sys.workers| ==>
           AnswersAuthors(sys.workers[events[0].worker], events[0].answer))
     && AuthorsAnswered(Apply(sys, events[0]), events[1..]))
  }

  lemma StepAnswered(sh: Shared, ph: Phase, a: Answer)
    requires AnswersAuthors(ph, a)
    ensures Step(sh, ph, a).0.unanswered == sh.unanswered
  {
    if ph.AskingAuthors? {
      forall id | id in Wanted(ph.job) ensures IsAuthorOf(ph.job, id) {
        if ph.job.ForCopies? {
          var i :| 0 <= i < |ph.job.copies| && Wanted(ph.job)[i] == id;
          assert ph.job.copies[i] in ph.job.copies;
        }
      }
      assert Unanswered(Wanted(ph.job), a.users) == {};
    }
  }

  /** As long as Twitter answers with every account that is asked for, no author is missing. */
  lemma {:induction false} NobodyUnanswered(sys: System, events: seq<Event>)
    requires sys.sh.unanswered == {} && AuthorsAnswered(sys, events)
    ensures Exec(sys, events).sh.unanswered == {}
    decreases |events|
  {
    if events != [] {
      match events[0] {
        case Act(w, a) =>
          if w < |sys.workers| {
            StepAnswered(sys.sh, sys.workers[w], a);
          }
        case _ =>
      }
      NobodyUnanswered(Apply(sys, events[0]), events[1..]);
    }
  }

  /** With a Twitter whose tweets do not change, every copy in the cache carries the content Twitter has for
      its ID, whichever worker fetched it and however it was fetched, up to its referenced type and its own
      references. */
  lemma CopiesCarryTwitterContent(b: Twitter, rows: seq<User>, events: seq<Event>, k: string, x: Tweet)
    requires forall e | e in events && e.Act? :: Consistent(b, e.answer)
    requires k in Exec(Start(rows), events).sh.store
    requires x in Copies([Exec(Start(rows), events).sh.store[k]])
    ensures x.id in b ==> Carries(b[x.id], x)
  {
    ExecKeepsInv(b, Start(rows), events);
    var sh := Exec(Start(rows), events).sh;
    var t := sh.store[k];
    assert Good(b, sh, t) && AllGood(b, sh, t.refs);
    if x != t {
      assert x in Copies(t.refs) + Copies([t][1..]);
      assert Good(b, sh, x);
    }
  }
}

/** SaveTweetAndReferences (internal/domain/tweet.go) as a machine that makes one call to Redis, Postgres
    or Twitter per step, so that several workers can interleave at every such call. */
module TweetSaver {
  import opened Options
  import opened Environment
  import opened Tweets
  import opened Users

  /** What the workers share: the tweet cache in Redis and the user table.
      Two fields only record history and are never read by a worker:
      lost:       keys that were evicted from the cache or whose write Redis dropped
      unanswered: user IDs for which a successful lookup returned no account */
  datatype Shared = Shared(
    store: map<string, Tweet>, rows: seq<User>, lost: set<string>, unanswered: set<string>)

  /** The two uses of BatchCreateUsersFromIDs. */
  datatype Job = ForCopies(parent: Tweet, copies: seq<Tweet>) | ForParent(parent: Tweet)

  /** Where a worker stands, with the local variables it still needs. */
  datatype Phase =
    | Checking(id: string)
    | Fetching(id: string)
    | Collecting(parent: Tweet, refs: seq<RawRef>, at: nat, known: seq<Tweet>, missing: seq<string>)
    | LookingUp(parent: Tweet, refs: seq<RawRef>, known: seq<Tweet>, missing: seq<string>)
    | AskingAuthors(job: Job)
    | CreatingAuthors(job: Job, todo: seq<TwitterUser>, absent: bool)
    | StoringCopies(parent: Tweet, copies: seq<Tweet>, at: nat)
    | StoringParent(parent: Tweet)
    | Done(tweet: Tweet)
    | Failed

  function KindOf(refs: seq<RawRef>, id: string): string {
    if refs == [] then ""
    else if refs[|refs| - 1].id == id then refs[|refs| - 1].kind
    else KindOf(refs[..|refs| - 1], id)
  }

  /** The last reference with this ID has this type. */
  predicate Lists(refs: seq<RawRef>, id: string, kind: string) {
    exists i | 0 <= i < |refs| ::
      refs[i].id == id && refs[i].kind == kind && forall j | i < j < |refs| :: refs[j].id != id
  }

  predicate IsListed(refs: seq<RawRef>, id: string) {
    exists i | 0 <= i < |refs| :: refs[i].id == id
  }

  /** A fetched tweet has the type under which it is listed, and without a listing no type. */
  lemma {:induction false} KindIsListed(refs: seq<RawRef>, id: string, kind: string)
    ensures KindOf(refs, id) == kind <==> if IsListed(refs, id) then Lists(refs, id, kind) else kind == ""
  {
    if refs != [] {
      var n := |refs| - 1;
      if refs[n].id != id {
        KindIsListed(refs[..n], id, kind);
        assert forall i | 0 <= i < n :: refs[..n][i] == refs[i];
        ListedBefore(refs, id, kind);
      }
    }
  }

  lemma ListedBefore(refs: seq<RawRef>, id: string, kind: string)
    requires refs != [] && refs[|refs| - 1].id != id
    ensures var front := refs[..|refs| - 1];
            (IsListed(front, id) <==> IsListed(refs, id)) && (Lists(front, id, kind) <==> Lists(refs, id, kind))
  {
    var n := |refs| - 1;
    assert forall i | 0 <= i < n :: refs[..n][i] == refs[i];
    if Lists(refs[..n], id, kind) {
      var i :| 0 <= i < n && refs[i].id == id && refs[i].kind == kind && forall j | i < j < n :: refs[j].id != id;
      assert forall j | i < j < |refs| :: refs[j].id != id;
    }
  }

  /** None as soon as one tweet does not convert. */
  function ConvertAll(raws: seq<RawTweet>, refs: seq<RawRef>, includes: Option<Includes>): (r: Option<seq<Tweet>>)
    ensures r.Some? ==> |r.value| == |raws|
    ensures r.Some? ==> forall i | 0 <= i < |raws| ::
      Convert(raws[i], KindOf(refs, raws[i].id), includes) == Some(r.value[i])
  {
    if raws == [] then Some([])
    else
      var n := |raws| - 1;
      var front := ConvertAll(raws[..n], refs, includes);
      var last := Convert(raws[n], KindOf(refs, raws[n].id), includes);
      if front.Some? && last.Some? then Some(front.value + [last.value]) else None
  }

  function Wanted(job: Job): seq<string> {
    match job
    case ForCopies(_, copies) => AuthorIds(copies)
    case ForParent(parent) => [parent.authorId]
  }

  // ---------- control flow between two calls ----------

  function AfterFetch(parent: Tweet, refs: seq<RawRef>): Phase {
    if refs == [] then AskingAuthors(ForParent(parent)) else Collecting(parent, refs, 0, [], [])
  }

  function Collect(parent: Tweet, refs: seq<RawRef>, at: nat, known: seq<Tweet>, missing: seq<string>): Phase {
    if at < |refs| then Collecting(parent, refs, at, known, missing)
    else if missing == [] then AskingAuthors(ForCopies(parent, known))
    else LookingUp(parent, refs, known, missing)
  }

  function StoreCopies(parent: Tweet, copies: seq<Tweet>, at: nat): Phase {
    if at < |copies| then StoringCopies(parent, copies, at)
    else AskingAuthors(ForParent(parent.(refs := NormalAll(copies))))
  }

  function Create(job: Job, todo: seq<TwitterUser>): Phase {
    if todo != [] then CreatingAuthors(job, todo, false)
    else
      match job
      case ForCopies(parent, copies) => StoreCopies(parent, copies, 0)
      case ForParent(parent) => StoringParent(parent)
  }

  // ---------- the calls ----------

  function Write(sh: Shared, t: Tweet, lands: bool): Shared {
    if lands then sh.(store := sh.store[t.id := Normal(t)]) else sh.(lost := sh.lost + {t.id})
  }

  predicate Hit(sh: Shared, id: string, a: Answer) {
    a.ok && id in sh.store
  }

  /** One call of one worker, answered by `a`. */
  function Step(sh: Shared, ph: Phase, a: Answer): (Shared, Phase) {
    match ph
    case Checking(id) =>
      (sh, if Hit(sh, id, a) then Done(Normal(sh.store[id])) else Fetching(id))
    case Fetching(id) =>
      if !a.ok || |a.tweets| != 1 then (sh, Failed)
      else
        var parent := Convert(a.tweets[0], "", a.includes);
        (sh, if parent.None? then Failed else AfterFetch(parent.value, a.tweets[0].refs))
    case Collecting(parent, refs, at, known, missing) =>
      (sh,
       if at >= |refs| then Failed
       else if Hit(sh, refs[at].id, a)
       then Collect(parent, refs, at + 1, known + [Normal(sh.store[refs[at].id])], missing)
       else Collect(parent, refs, at + 1, known, missing + [refs[at].id]))
    case LookingUp(parent, refs, known, missing) =>
      if !a.ok || |a.tweets| != |missing| then (sh, Failed)
      else
        var fetched := ConvertAll(a.tweets, refs, a.includes);
        (sh, if fetched.None? then Failed else AskingAuthors(ForCopies(parent, known + fetched.value)))
    case AskingAuthors(job) =>
      if !a.ok then (sh, Failed)
      else
        (sh.(unanswered := sh.unanswered + Unanswered(Wanted(job), a.users)), Create(job, a.users))
    case CreatingAuthors(job, todo, absent) =>
      if todo == [] then (sh, Failed)
      else if !absent then
        (sh, if !a.ok then Failed
             else if Get(sh.rows, todo[0].id).Some? then Create(job, todo[1..])
             else CreatingAuthors(job, todo, true))
      else
        var created := CreateFromTwitter(sh.rows, todo[0], a);
        (sh.(rows := created.rows), if created.ok then Create(job, todo[1..]) else Failed)
    case StoringCopies(parent, copies, at) =>
      if !a.ok || at >= |copies| then (sh, Failed)
      else (Write(sh, copies[at], a.lands), StoreCopies(parent, copies, at + 1))
    case StoringParent(parent) =>
      if !a.ok then (sh, Failed) else (Write(sh, parent, a.lands), Done(Normal(parent)))
    case Done(_) => (sh, ph)
    case Failed => (sh, ph)
  }

  lemma OtherStepsKeepStore(sh: Shared, ph: Phase, a: Answer)
    requires !ph.StoringCopies? && !ph.StoringParent?
    ensures Step(sh, ph, a).0.store == sh.store
  {
  }

  function Unanswered(wanted: seq<string>, users: seq<TwitterUser>): set<string> {
    set id | id in wanted && forall u | u in users :: u.id != id
  }

  /** The references from `at` on that no read finds, in their order. */
  function Missed(env: nat -> Answer, store: map<string, Tweet>, refs: seq<RawRef>, at: nat, clock: nat): seq<string>
    decreases |refs| - at
  {
    if at >= |refs| then []
    else
      (if env(clock).ok && refs[at].id in store then [] else [refs[at].id])
      + Missed(env, store, refs, at + 1, clock + 1)
  }

  /** What is still missing after the lookup of a tweet: nothing, unless it answers with one tweet whose date
      parses, and then those of its references that no read finds. */
  function MissedAfter(env: nat -> Answer, store: map<string, Tweet>, clock: nat): seq<string> {
    var a := env(clock);
    if a.ok && |a.tweets| == 1 && a.tweets[0].createdAt.Some?
    then Missed(env, store, a.tweets[0].refs, 0, clock + 1)
    else []
  }

  /** What a call asks Twitter for: its tweet, unless a read finds it, and then what is still missing. */
  function LookupsOf(env: nat -> Answer, store: map<string, Tweet>, id: string, clock: nat): seq<seq<string>> {
    if env(clock).ok && id in store then []
    else
      var missed := MissedAfter(env, store, clock + 1);
      [[id]] + if missed == [] then [] else [missed]
  }

  predicate Finished(ph: Phase) {
    ph.Done? || ph.Failed?
  }

  // ---------- any number of workers ----------

  datatype System = System(sh: Shared, workers: seq<Phase>)

  /** A task is taken up, a worker makes its next call, or Redis evicts a key. */
  datatype Event = Begin(id: string) | Act(worker: nat, answer: Answer) | Evict(id: string)

  function Apply(sys: System, e: Event): System {
    match e
    case Begin(id) => sys.(workers := sys.workers + [Checking(id)])
    case Act(w, a) =>
      if w >= |sys.workers| then sys
      else
        var (sh, ph) := Step(sys.sh, sys.workers[w], a);
        System(sh, sys.workers[w := ph])
    case Evict(id) =>
      sys.(sh := sys.sh.(store := sys.sh.store - {id}, lost := sys.sh.lost + {id}))
  }

  function Exec(sys: System, events: seq<Event>): System
    decreases |events|
  {
    if events == [] then sys else Exec(Apply(sys, events[0]), events[1..])
  }

  /** An empty cache, any user table, no worker. */
  function Start(rows: seq<User>): System {
    System(Shared(map[], rows, {}, {}), [])
  }

  // ---------- one call running alone ----------

  function Rank(ph: Phase): nat {
    match ph
    case Checking(_) => 9
    case Fetching(_) => 8
    case Collecting(_, _, _, _, _) => 7
    case LookingUp(_, _, _, _) => 6
    case AskingAuthors(job) => if job.ForCopies? then 5 else 2
    case CreatingAuthors(job, _, _) => if job.ForCopies? then 4 else 1
    case StoringCopies(_, _, _) => 3
    case StoringParent(_) => 0
    case Done(_) => 0
    case Failed => 0
  }

  function Size(ph: Phase): nat {
    match ph
    case Collecting(_, refs, at, _, _) => if at < |refs| then |refs| - at else 0
    case CreatingAuthors(_, todo, absent) => 2 * |todo| + (if absent then 0 else 1)
    case StoringCopies(_, copies, at) => if at < |copies| then |copies| - at else 0
    case StoringParent(_) => 1
    case _ => 0
  }

  predicate Descends(ph: Phase, ph': Phase) {
    Rank(ph') < Rank(ph) || (Rank(ph') == Rank(ph) && Size(ph') < Size(ph))
  }

  lemma GatheringDescends(sh: Shared, ph: Phase, a: Answer)
    requires ph.Checking? || ph.Fetching? || ph.Collecting? || ph.LookingUp?
    ensures Descends(ph, Step(sh, ph, a).1)
  {
  }

  lemma SavingDescends(sh: Shared, ph: Phase, a: Answer)
    requires ph.AskingAuthors? || ph.CreatingAuthors? || ph.StoringCopies? || ph.StoringParent?
    ensures Descends(ph, Step(sh, ph, a).1)
  {
  }

  lemma StepDescends(sh: Shared, ph: Phase, a: Answer)
    requires !Finished(ph)
    ensures Descends(ph, Step(sh, ph, a).1)
  {
    if ph.Checking? || ph.Fetching? || ph.Collecting? || ph.LookingUp? {
      GatheringDescends(sh, ph, a);
    } else {
      SavingDescends(sh, ph, a);
    }
  }

  datatype Final = Final(sh: Shared, phase: Phase, clock: nat)

  /** The call runs to its end with nobody else acting; `env(n)` answers its n-th call. */
  function Finish(env: nat -> Answer, sh: Shared, ph: Phase, clock: nat): (f: Final)
    ensures Finished(f.phase) && f.clock >= clock && (!Finished(ph) ==> f.clock > clock)
    decreases Rank(ph), Size(ph)
  {
    if Finished(ph) then Final(sh, ph, clock)
    else
      var (sh', ph') := Step(sh, ph, env(clock));
      StepDescends(sh, ph, env(clock));
      Finish(env, sh', ph', clock + 1)
  }

  lemma FinishStep(env: nat -> Answer, sh: Shared, ph: Phase, clock: nat, sh': Shared, ph': Phase)
    requires !Finished(ph) && Step(sh, ph, env(clock)) == (sh', ph')
    ensures Finish(env, sh, ph, clock) == Finish(env, sh', ph', clock + 1)
  {
  }
}

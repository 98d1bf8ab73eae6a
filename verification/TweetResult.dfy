/** What a call of SaveTweetAndReferences that runs alone returns and leaves in the cache, in closed form: as a
    function of the cache it finds and of the answers it gets. */
module TweetResult {
  import opened Options
  import opened Environment
  import opened Tweets
  import opened TweetSaver

  type Store = map<string, Tweet>

  // ---------- the references ----------

  function RawIds(raws: seq<RawTweet>): (r: seq<string>)
    ensures |r| == |raws| && forall i | 0 <= i < |raws| :: r[i] == raws[i].id
  {
    seq(|raws|, i requires 0 <= i < |raws| => raws[i].id)
  }

  function RefIds(refs: seq<RawRef>): (r: seq<string>)
    ensures |r| == |refs| && forall i | 0 <= i < |refs| :: r[i] == refs[i].id
  {
    seq(|refs|, i requires 0 <= i < |refs| => refs[i].id)
  }

  /** Whether the read of the i-th reference finds it. The reads are the calls from number 2 on. */
  predicate Found(env: nat -> Answer, sh: Shared, refs: seq<RawRef>, i: nat)
    requires i < |refs|
  {
    env(2 + i).ok && refs[i].id in sh.store
  }

  function KnownOf(env: nat -> Answer, sh: Shared, refs: seq<RawRef>, n: nat): seq<Tweet>
    requires n <= |refs|
  {
    if n == 0 then []
    else
      var front := KnownOf(env, sh, refs, n - 1);
      if Found(env, sh, refs, n - 1) then front + [Normal(sh.store[refs[n - 1].id])] else front
  }

  function MissingOf(env: nat -> Answer, sh: Shared, refs: seq<RawRef>, n: nat): seq<string>
    requires n <= |refs|
  {
    if n == 0 then []
    else
      var front := MissingOf(env, sh, refs, n - 1);
      if Found(env, sh, refs, n - 1) then front else front + [refs[n - 1].id]
  }

  /** The lookup of the missing references comes after the reads. */
  function LookupOf(env: nat -> Answer, refs: seq<RawRef>): Answer {
    env(2 + |refs|)
  }

  function FetchedOf(env: nat -> Answer, sh: Shared, refs: seq<RawRef>): seq<Tweet> {
    var a := LookupOf(env, refs);
    var converted := ConvertAll(a.tweets, refs, a.includes);
    if MissingOf(env, sh, refs, |refs|) == [] || converted.None? then [] else converted.value
  }

  /** The copies, in the order in which they are stored. */
  function CopiesOf(env: nat -> Answer, sh: Shared, refs: seq<RawRef>): seq<Tweet> {
    KnownOf(env, sh, refs, |refs|) + FetchedOf(env, sh, refs)
  }

  lemma ReadsOne(env: nat -> Answer, sh: Shared, parent: Tweet, refs: seq<RawRef>, at: nat,
                 known: seq<Tweet>, missing: seq<string>)
    requires at < |refs|
    ensures Finish(env, sh, Collecting(parent, refs, at, known, missing), 2 + at)
         == Finish(env, sh,
                   if Found(env, sh, refs, at)
                   then Collect(parent, refs, at + 1, known + [Normal(sh.store[refs[at].id])], missing)
                   else Collect(parent, refs, at + 1, known, missing + [refs[at].id]), 3 + at)
  {
    var ph := Collecting(parent, refs, at, known, missing);
    FinishStep(env, sh, ph, 2 + at, sh, Step(sh, ph, env(2 + at)).1);
  }

  /** The loop over the references, from the one at `at` on. */
  lemma {:induction false} Collects(env: nat -> Answer, sh: Shared, parent: Tweet, refs: seq<RawRef>, at: nat,
                                    known: seq<Tweet>, missing: seq<string>)
    requires at < |refs| && known == KnownOf(env, sh, refs, at) && missing == MissingOf(env, sh, refs, at)
    ensures Finish(env, sh, Collecting(parent, refs, at, known, missing), 2 + at)
         == Finish(env, sh, AfterReads(env, sh, parent, refs), 2 + |refs|)
    decreases |refs| - at
  {
    ReadsOne(env, sh, parent, refs, at, known, missing);
    if at + 1 < |refs| {
      Collects(env, sh, parent, refs, at + 1, KnownOf(env, sh, refs, at + 1), MissingOf(env, sh, refs, at + 1));
    }
  }

  function AfterReads(env: nat -> Answer, sh: Shared, parent: Tweet, refs: seq<RawRef>): Phase {
    Collect(parent, refs, |refs|, KnownOf(env, sh, refs, |refs|), MissingOf(env, sh, refs, |refs|))
  }

  /** The point where all copies are at hand. */
  function GatheredAt(env: nat -> Answer, sh: Shared, refs: seq<RawRef>): nat {
    2 + |refs| + if MissingOf(env, sh, refs, |refs|) == [] then 0 else 1
  }

  /** A call that returns has an answer with one tweet for each missing reference. */
  predicate LookedUp(env: nat -> Answer, sh: Shared, refs: seq<RawRef>) {
    var a := LookupOf(env, refs);
    var missing := MissingOf(env, sh, refs, |refs|);
    missing != [] ==> a.ok && |a.tweets| == |missing| && ConvertAll(a.tweets, refs, a.includes).Some?
  }

  /** Where a call stands when its copies are at hand, if it gets there. */
  function Gathered(env: nat -> Answer, sh: Shared, parent: Tweet, refs: seq<RawRef>): Phase {
    if LookedUp(env, sh, refs) then AskingAuthors(ForCopies(parent, CopiesOf(env, sh, refs))) else Failed
  }

  lemma NothingMissing(env: nat -> Answer, sh: Shared, parent: Tweet, refs: seq<RawRef>)
    requires MissingOf(env, sh, refs, |refs|) == []
    ensures AfterReads(env, sh, parent, refs) == Gathered(env, sh, parent, refs)
    ensures GatheredAt(env, sh, refs) == 2 + |refs|
  {
    assert KnownOf(env, sh, refs, |refs|) + [] == KnownOf(env, sh, refs, |refs|);
  }

  lemma SomeMissing(env: nat -> Answer, sh: Shared, parent: Tweet, refs: seq<RawRef>)
    requires MissingOf(env, sh, refs, |refs|) != []
    ensures !Finished(AfterReads(env, sh, parent, refs)) && GatheredAt(env, sh, refs) == 3 + |refs|
    ensures Step(sh, AfterReads(env, sh, parent, refs), env(2 + |refs|)) == (sh, Gathered(env, sh, parent, refs))
  {
  }

  /** One phase is the other, or leads to it by one call that changes nothing. */
  predicate LeadsTo(env: nat -> Answer, sh: Shared, ph: Phase, clock: nat, next: Phase, later: nat) {
    || (ph == next && later == clock)
    || (!Finished(ph) && Step(sh, ph, env(clock)) == (sh, next) && later == clock + 1)
  }

  lemma GoesOn(env: nat -> Answer, sh: Shared, first: Phase, start: nat, ph: Phase, clock: nat, next: Phase, later: nat)
    requires Finish(env, sh, first, start) == Finish(env, sh, ph, clock) && LeadsTo(env, sh, ph, clock, next, later)
    ensures Finish(env, sh, first, start) == Finish(env, sh, next, later)
  {
  }

  lemma ReadsLead(env: nat -> Answer, sh: Shared, parent: Tweet, refs: seq<RawRef>)
    ensures LeadsTo(env, sh, AfterReads(env, sh, parent, refs), 2 + |refs|,
                    Gathered(env, sh, parent, refs), GatheredAt(env, sh, refs))
  {
    if MissingOf(env, sh, refs, |refs|) == [] {
      NothingMissing(env, sh, parent, refs);
    } else {
      SomeMissing(env, sh, parent, refs);
    }
  }

  /** The reads and the lookup lead to the copies, or to the end of the call. */
  lemma GathersOrFails(env: nat -> Answer, sh: Shared, parent: Tweet, refs: seq<RawRef>)
    requires refs != []
    ensures Finish(env, sh, Collecting(parent, refs, 0, [], []), 2)
         == Finish(env, sh, Gathered(env, sh, parent, refs), GatheredAt(env, sh, refs))
  {
    Collects(env, sh, parent, refs, 0, [], []);
    ReadsLead(env, sh, parent, refs);
    GoesOn(env, sh, Collecting(parent, refs, 0, [], []), 2, AfterReads(env, sh, parent, refs), 2 + |refs|,
           Gathered(env, sh, parent, refs), GatheredAt(env, sh, refs));
  }

  lemma Gathers(env: nat -> Answer, sh: Shared, parent: Tweet, refs: seq<RawRef>)
    requires refs != [] && Finish(env, sh, Collecting(parent, refs, 0, [], []), 2).phase.Done?
    ensures LookedUp(env, sh, refs)
    ensures Finish(env, sh, Collecting(parent, refs, 0, [], []), 2)
         == Finish(env, sh, AskingAuthors(ForCopies(parent, CopiesOf(env, sh, refs))), GatheredAt(env, sh, refs))
  {
    GathersOrFails(env, sh, parent, refs);
  }

  lemma {:induction false} AllAreCopied(env: nat -> Answer, sh: Shared, refs: seq<RawRef>, n: nat)
    requires n <= |refs|
    ensures |KnownOf(env, sh, refs, n)| + |MissingOf(env, sh, refs, n)| == n
  {
    if n > 0 {
      AllAreCopied(env, sh, refs, n - 1);
    }
  }

  // ---------- the writes ----------

  /** The cache after the first n copies are written, the first of them by the call at `clock`. */
  function Wrote(env: nat -> Answer, store: Store, copies: seq<Tweet>, clock: nat, n: nat): Store
    requires n <= |copies|
  {
    if n == 0 then store
    else
      var m := Wrote(env, store, copies, clock, n - 1);
      if env(clock + n - 1).lands then m[copies[n - 1].id := Normal(copies[n - 1])] else m
  }

  function WroteParent(env: nat -> Answer, store: Store, parent: Tweet, clock: nat): Store {
    if env(clock).lands then store[parent.id := Normal(parent)] else store
  }

  predicate Creates(ph: Phase, job: Job) {
    match ph
    case AskingAuthors(j) => j == job
    case CreatingAuthors(j, _, _) => j == job
    case _ => false
  }

  /** A call about the authors leaves the cache as it is. */
  lemma CreatesOne(env: nat -> Answer, sh: Shared, ph: Phase, clock: nat, job: Job) returns (sh': Shared, ph': Phase)
    requires Creates(ph, job) && Finish(env, sh, ph, clock).phase.Done?
    ensures sh'.store == sh.store && (Creates(ph', job) || ph' == Create(job, []))
    ensures Finish(env, sh, ph, clock) == Finish(env, sh', ph', clock + 1) && Finish(env, sh, ph, clock).clock > clock
  {
    sh', ph' := Step(sh, ph, env(clock)).0, Step(sh, ph, env(clock)).1;
    FinishStep(env, sh, ph, clock, sh', ph');
  }

  /** The authors of a job are created. */
  lemma {:induction false} CreatesAll(env: nat -> Answer, sh: Shared, ph: Phase, clock: nat, job: Job)
    returns (sh': Shared, from: nat)
    requires Creates(ph, job) && Finish(env, sh, ph, clock).phase.Done?
    ensures sh'.store == sh.store && from > clock
    ensures Finish(env, sh, ph, clock) == Finish(env, sh', Create(job, []), from)
    decreases Finish(env, sh, ph, clock).clock - clock
  {
    var ph';
    sh', ph' := CreatesOne(env, sh, ph, clock, job);
    from := clock + 1;
    if ph' != Create(job, []) {
      sh', from := CreatesAll(env, sh', ph', clock + 1, job);
    }
  }

  lemma StoresCopy(env: nat -> Answer, sh: Shared, parent: Tweet, copies: seq<Tweet>, at: nat, clock: nat)
    requires at < |copies| && Finish(env, sh, StoringCopies(parent, copies, at), clock).phase.Done?
    ensures Finish(env, sh, StoringCopies(parent, copies, at), clock)
         == Finish(env, Write(sh, copies[at], env(clock).lands), StoreCopies(parent, copies, at + 1), clock + 1)
  {
    var (sh1, ph1) := Step(sh, StoringCopies(parent, copies, at), env(clock));
    FinishStep(env, sh, StoringCopies(parent, copies, at), clock, sh1, ph1);
  }

  lemma WritesNext(env: nat -> Answer, sh: Shared, store: Store, copies: seq<Tweet>, clock: nat, at: nat)
    requires at < |copies| && sh.store == Wrote(env, store, copies, clock, at)
    ensures Write(sh, copies[at], env(clock + at).lands).store == Wrote(env, store, copies, clock, at + 1)
  {
  }

  /** The loop over the copies, from the one at `at` on. */
  lemma {:induction false} StoresCopies(env: nat -> Answer, sh: Shared, store: Store, parent: Tweet, copies: seq<Tweet>,
                                         clock: nat, at: nat) returns (sh': Shared)
    requires at < |copies| && sh.store == Wrote(env, store, copies, clock, at)
    requires Finish(env, sh, StoringCopies(parent, copies, at), clock + at).phase.Done?
    ensures sh'.store == Wrote(env, store, copies, clock, |copies|)
    ensures Finish(env, sh, StoringCopies(parent, copies, at), clock + at)
         == Finish(env, sh', AskingAuthors(ForParent(WithCopies(parent, copies))), clock + |copies|)
    decreases |copies| - at
  {
    sh' := Write(sh, copies[at], env(clock + at).lands);
    StoresCopy(env, sh, parent, copies, at, clock + at);
    WritesNext(env, sh, store, copies, clock, at);
    if at + 1 < |copies| {
      sh' := StoresCopies(env, sh', store, parent, copies, clock, at + 1);
    }
  }

  lemma WritesParent(env: nat -> Answer, sh: Shared, parent: Tweet, clock: nat)
    requires Finish(env, sh, StoringParent(parent), clock).phase.Done?
    ensures var f := Finish(env, sh, StoringParent(parent), clock);
            && f.clock == clock + 1 && f.phase == Done(Normal(parent))
            && f.sh.store == WroteParent(env, sh.store, parent, clock)
  {
    var (sh1, ph1) := Step(sh, StoringParent(parent), env(clock));
    FinishStep(env, sh, StoringParent(parent), clock, sh1, ph1);
  }

  /** The author of the parent is created, and the parent written by the last call. */
  lemma StoresParent(env: nat -> Answer, sh: Shared, parent: Tweet, clock: nat)
    requires Finish(env, sh, AskingAuthors(ForParent(parent)), clock).phase.Done?
    ensures var f := Finish(env, sh, AskingAuthors(ForParent(parent)), clock);
            && f.clock > clock && f.phase == Done(Normal(parent))
            && f.sh.store == WroteParent(env, sh.store, parent, f.clock - 1)
  {
    var sh', from := CreatesAll(env, sh, AskingAuthors(ForParent(parent)), clock, ForParent(parent));
    WritesParent(env, sh', parent, from);
  }

  /** The parent once its copies are attached. */
  function WithCopies(parent: Tweet, copies: seq<Tweet>): Tweet {
    parent.(refs := NormalAll(copies))
  }

  /** A call ends like this when it stores the copies from a clock on and then the parent. */
  predicate Stores(env: nat -> Answer, store: Store, parent: Tweet, copies: seq<Tweet>, from: nat, f: Final) {
    && f.clock > 0 && f.phase == Done(Normal(WithCopies(parent, copies)))
    && f.sh.store
       == WroteParent(env, Wrote(env, store, copies, from, |copies|), WithCopies(parent, copies), f.clock - 1)
  }

  lemma StoresBoth(env: nat -> Answer, store: Store, mid: Store, parent: Tweet, copies: seq<Tweet>, clock: nat,
      f: Final)
    requires mid == Wrote(env, store, copies, clock, |copies|)
    requires f.clock > 0 && f.phase == Done(Normal(WithCopies(parent, copies)))
    requires f.sh.store == WroteParent(env, mid, WithCopies(parent, copies), f.clock - 1)
    ensures Stores(env, store, parent, copies, clock, f)
  {
  }

  lemma StoresRest(env: nat -> Answer, store: Store, sh: Shared, parent: Tweet, copies: seq<Tweet>, clock: nat,
      f: Final)
    requires sh.store == Wrote(env, store, copies, clock, |copies|) && f.phase.Done?
    requires f == Finish(env, sh, AskingAuthors(ForParent(WithCopies(parent, copies))), clock + |copies|)
    ensures Stores(env, store, parent, copies, clock, f)
  {
    StoresParent(env, sh, WithCopies(parent, copies), clock + |copies|);
    StoresBoth(env, store, sh.store, parent, copies, clock, f);
  }

  /** What such an end leaves, in terms of the tweet that the call returns. */
  lemma StoresMeans(env: nat -> Answer, store: Store, parent: Tweet, copies: seq<Tweet>, from: nat, f: Final)
    requires Stores(env, store, parent, copies, from, f)
    ensures var m, t := Wrote(env, store, copies, from, |copies|), Normal(WithCopies(parent, copies));
            && f.clock > 0 && f.phase == Done(t)
            && f.sh.store == if env(f.clock - 1).lands then m[t.id := t] else m
  {
  }

  /** From the first write of a copy on. */
  lemma StoresAll(env: nat -> Answer, sh: Shared, parent: Tweet, copies: seq<Tweet>, clock: nat)
    requires copies != [] && Finish(env, sh, StoringCopies(parent, copies, 0), clock).phase.Done?
    ensures Stores(env, sh.store, parent, copies, clock, Finish(env, sh, StoringCopies(parent, copies, 0), clock))
  {
    var sh' := StoresCopies(env, sh, sh.store, parent, copies, clock, 0);
    StoresRest(env, sh.store, sh', parent, copies, clock, Finish(env, sh, StoringCopies(parent, copies, 0), clock));
  }

  // ---------- the whole call ----------

  /** The tweet that a call returns when it has to fetch it. */
  function FreshResult(env: nat -> Answer, sh: Shared): Tweet
    requires |env(1).tweets| == 1 && Convert(env(1).tweets[0], "", env(1).includes).Some?
  {
    var raw := env(1).tweets[0];
    Normal(WithCopies(Convert(raw, "", env(1).includes).value, CopiesOf(env, sh, raw.refs)))
  }

  /** A call that has to fetch its tweet has an answer with just that one. */
  predicate FetchedOne(env: nat -> Answer) {
    env(1).ok && |env(1).tweets| == 1 && Convert(env(1).tweets[0], "", env(1).includes).Some?
  }

  /** The value a call returns, for every way in which the references split into found and missing ones. */
  lemma CallReturnsExactly(env: nat -> Answer, sh: Shared, id: string)
    requires Finish(env, sh, Checking(id), 0).phase.Done?
    ensures var t := Finish(env, sh, Checking(id), 0).phase.tweet;
            if Hit(sh, id, env(0)) then t == Normal(sh.store[id])
            else FetchedOne(env) && LookedUp(env, sh, env(1).tweets[0].refs) && t == FreshResult(env, sh)
  {
    if !Hit(sh, id, env(0)) {
      var from := CallStoresExactly(env, sh, id);
    }
  }

  lemma Fetches(env: nat -> Answer, sh: Shared, id: string)
    requires Finish(env, sh, Checking(id), 0).phase.Done? && !Hit(sh, id, env(0))
    ensures FetchedOne(env)
    ensures var parent, refs := Convert(env(1).tweets[0], "", env(1).includes).value, env(1).tweets[0].refs;
            parent.refs == [] && Finish(env, sh, Checking(id), 0) == Finish(env, sh, AfterFetch(parent, refs), 2)
  {
    FinishStep(env, sh, Checking(id), 0, sh, Fetching(id));
    FinishStep(env, sh, Fetching(id), 1, sh, Step(sh, Fetching(id), env(1)).1);
  }

  lemma StoresWithoutReferences(env: nat -> Answer, sh: Shared, parent: Tweet, clock: nat)
    requires parent.refs == [] && Finish(env, sh, AskingAuthors(ForParent(parent)), clock).phase.Done?
    ensures Stores(env, sh.store, parent, [], clock, Finish(env, sh, AskingAuthors(ForParent(parent)), clock))
  {
    StoresParent(env, sh, parent, clock);
    assert WithCopies(parent, []) == parent;
  }

  lemma StoresGathered(env: nat -> Answer, sh: Shared, parent: Tweet, copies: seq<Tweet>, clock: nat)
    returns (from: nat)
    requires copies != [] && Finish(env, sh, AskingAuthors(ForCopies(parent, copies)), clock).phase.Done?
    ensures Stores(env, sh.store, parent, copies, from,
            Finish(env, sh, AskingAuthors(ForCopies(parent, copies)), clock))
  {
    var sh';
    sh', from := CreatesAll(env, sh, AskingAuthors(ForCopies(parent, copies)), clock, ForCopies(parent, copies));
    StoresAll(env, sh', parent, copies, from);
  }

  /** The call from the point where the tweet is fetched. */
  lemma StoresFetched(env: nat -> Answer, sh: Shared, parent: Tweet, refs: seq<RawRef>) returns (from: nat)
    requires parent.refs == [] && Finish(env, sh, AfterFetch(parent, refs), 2).phase.Done?
    ensures LookedUp(env, sh, refs)
    ensures Stores(env, sh.store, parent, CopiesOf(env, sh, refs), from, Finish(env, sh, AfterFetch(parent, refs), 2))
  {
    if refs == [] {
      from := 2;
      StoresWithoutReferences(env, sh, parent, 2);
    } else {
      Gathers(env, sh, parent, refs);
      CopiesNotEmpty(env, sh, refs);
      from := StoresGathered(env, sh, parent, CopiesOf(env, sh, refs), GatheredAt(env, sh, refs));
    }
  }

  lemma CopiesNotEmpty(env: nat -> Answer, sh: Shared, refs: seq<RawRef>)
    requires refs != [] && LookedUp(env, sh, refs)
    ensures CopiesOf(env, sh, refs) != []
  {
    AllAreCopied(env, sh, refs, |refs|);
  }

  /** And what it leaves in the cache, from the clock at which it starts to store the copies. */
  lemma CallStoresExactly(env: nat -> Answer, sh: Shared, id: string) returns (from: nat)
    requires Finish(env, sh, Checking(id), 0).phase.Done? && !Hit(sh, id, env(0))
    ensures FetchedOne(env) && LookedUp(env, sh, env(1).tweets[0].refs)
    ensures var f := Finish(env, sh, Checking(id), 0);
            var copies := CopiesOf(env, sh, env(1).tweets[0].refs);
            var m, t := Wrote(env, sh.store, copies, from, |copies|), FreshResult(env, sh);
            && f.clock > 0 && f.phase.tweet == t
            && f.sh.store == if env(f.clock - 1).lands then m[t.id := t] else m
  {
    Fetches(env, sh, id);
    var parent, refs := Convert(env(1).tweets[0], "", env(1).includes).value, env(1).tweets[0].refs;
    from := StoresFetched(env, sh, parent, refs);
    StoresMeans(env, sh.store, parent, CopiesOf(env, sh, refs), from, Finish(env, sh, AfterFetch(parent, refs), 2));
  }

  // ---------- the references of the result ----------

  /** Every tweet is under its own ID and in normal form. */
  predicate Normalised(store: Store) {
    forall k | k in store :: store[k].id == k && Normal(store[k]) == store[k]
  }

  lemma StepKeepsNormalised(sh: Shared, ph: Phase, a: Answer)
    requires Normalised(sh.store)
    ensures Normalised(Step(sh, ph, a).0.store)
  {
    match ph
    case StoringCopies(_, copies, at) =>
      if at < |copies| {
        NormalTwice(copies[at]);
      }
    case StoringParent(parent) => NormalTwice(parent);
    case _ =>
  }

  /** Every cache that any interleaving of workers can leave is like this. */
  lemma {:induction false} RunsKeepNormalised(sys: System, events: seq<Event>)
    requires Normalised(sys.sh.store)
    ensures Normalised(Exec(sys, events).sh.store)
    decreases |events|
  {
    if events != [] {
      match events[0] {
        case Act(w, a) =>
          if w < |sys.workers| {
            StepKeepsNormalised(sys.sh, sys.workers[w], a);
          }
        case _ =>
      }
      RunsKeepNormalised(Apply(sys, events[0]), events[1..]);
    }
  }

  /** The references that Twitter lists for the fetched tweet. */
  function RefsOf(env: nat -> Answer): seq<RawRef> {
    if |env(1).tweets| == 1 then env(1).tweets[0].refs else []
  }

  /** The lookup of the missing references, if there is one, answers with the tweets asked for. */
  predicate AnswersAsked(env: nat -> Answer, sh: Shared, refs: seq<RawRef>) {
    var missing := MissingOf(env, sh, refs, |refs|);
    missing != [] ==> multiset(RawIds(LookupOf(env, refs).tweets)) == multiset(missing)
  }

  lemma NextRefId(refs: seq<RawRef>, at: nat)
    requires at < |refs|
    ensures multiset(RefIds(refs[..at + 1])) == multiset(RefIds(refs[..at])) + multiset{refs[at].id}
  {
    assert RefIds(refs[..at + 1]) == RefIds(refs[..at]) + [refs[at].id];
  }

  lemma NextId(known: seq<Tweet>, t: Tweet)
    ensures multiset(Ids(known + [t])) == multiset(Ids(known)) + multiset{t.id}
  {
    assert Ids(known + [t]) == Ids(known) + [t.id];
  }

  /** Every reference is either found or missing. */
  lemma {:induction false} ReadsSplit(env: nat -> Answer, sh: Shared, refs: seq<RawRef>, n: nat)
    requires n <= |refs| && Normalised(sh.store)
    ensures multiset(Ids(KnownOf(env, sh, refs, n))) + multiset(MissingOf(env, sh, refs, n))
            == multiset(RefIds(refs[..n]))
  {
    if n > 0 {
      ReadsSplit(env, sh, refs, n - 1);
      NextRefId(refs, n - 1);
      if Found(env, sh, refs, n - 1) {
        NextId(KnownOf(env, sh, refs, n - 1), Normal(sh.store[refs[n - 1].id]));
      }
    }
  }

  lemma IdsOfBoth(known: seq<Tweet>, fetched: seq<Tweet>)
    ensures multiset(Ids(known + fetched)) == multiset(Ids(known)) + multiset(Ids(fetched))
  {
    assert Ids(known + fetched) == Ids(known) + Ids(fetched);
  }

  lemma CopiesArePermuted(env: nat -> Answer, sh: Shared, refs: seq<RawRef>)
    requires Normalised(sh.store) && LookedUp(env, sh, refs) && AnswersAsked(env, sh, refs)
    ensures multiset(Ids(CopiesOf(env, sh, refs))) == multiset(RefIds(refs))
  {
    var fetched := FetchedOf(env, sh, refs);
    ReadsSplit(env, sh, refs, |refs|);
    IdsOfBoth(KnownOf(env, sh, refs, |refs|), fetched);
    assert refs[..|refs|] == refs;
    if fetched != [] {
      assert Ids(fetched) == RawIds(LookupOf(env, refs).tweets);
    }
  }

  /** However the references split into found and missing ones, and a read that fails is a miss, a call that
      fetches its tweet returns it with Twitter's content and a permutation of the references Twitter lists.
      A call that finds the tweet returns the cached value instead. */
  lemma ReferencesArePermuted(env: nat -> Answer, sh: Shared, id: string)
    requires Normalised(sh.store) && Finish(env, sh, Checking(id), 0).phase.Done?
    requires !Hit(sh, id, env(0)) ==> AnswersAsked(env, sh, RefsOf(env))
    ensures var t := Finish(env, sh, Checking(id), 0).phase.tweet;
            if Hit(sh, id, env(0)) then t == Normal(sh.store[id])
            else
              && |env(1).tweets| == 1 && CarriesCore(env(1).tweets[0], t)
              && multiset(Ids(t.refs)) == multiset(RefIds(env(1).tweets[0].refs))
  {
    CallReturnsExactly(env, sh, id);
    if !Hit(sh, id, env(0)) {
      var copies := CopiesOf(env, sh, RefsOf(env));
      CopiesArePermuted(env, sh, RefsOf(env));
      assert Ids(NormalAll(copies)) == Ids(copies);
    }
  }

  // ---------- retweets ----------

  /** The type that the copy of the i-th reference gets: the stored one if it is found. */
  function TypeOf(env: nat -> Answer, sh: Shared, refs: seq<RawRef>, i: nat): string
    requires i < |refs|
  {
    if Found(env, sh, refs, i) then sh.store[refs[i].id].referencedType else KindOf(refs, refs[i].id)
  }

  predicate HasType(ts: seq<Tweet>, kind: string) {
    exists i | 0 <= i < |ts| :: ts[i].referencedType == kind
  }

  lemma {:induction false} KnownTypes(env: nat -> Answer, sh: Shared, refs: seq<RawRef>, n: nat, kind: string)
    requires n <= |refs|
    ensures HasType(KnownOf(env, sh, refs, n), kind)
       <==> exists i | 0 <= i < n :: Found(env, sh, refs, i) && TypeOf(env, sh, refs, i) == kind
  {
    if n > 0 {
      KnownTypes(env, sh, refs, n - 1, kind);
      var front, known := KnownOf(env, sh, refs, n - 1), KnownOf(env, sh, refs, n);
      if HasType(front, kind) {
        var i :| 0 <= i < |front| && front[i].referencedType == kind;
        assert known[i].referencedType == kind;
      }
      if Found(env, sh, refs, n - 1) {
        assert known[|front|].referencedType == TypeOf(env, sh, refs, n - 1);
      }
    }
  }

  lemma {:induction false} MissingIds(env: nat -> Answer, sh: Shared, refs: seq<RawRef>, n: nat, id: string)
    requires n <= |refs|
    ensures id in MissingOf(env, sh, refs, n) <==> exists i | 0 <= i < n :: !Found(env, sh, refs, i) && refs[i].id == id
  {
    if n > 0 {
      MissingIds(env, sh, refs, n - 1, id);
    }
  }

  /** The raw tweet of a missing reference, and the reference of a raw tweet. */
  lemma AskedIsAnswered(env: nat -> Answer, sh: Shared, refs: seq<RawRef>, i: nat) returns (j: nat)
    requires LookedUp(env, sh, refs) && AnswersAsked(env, sh, refs) && i < |refs| && !Found(env, sh, refs, i)
    ensures j < |LookupOf(env, refs).tweets| && LookupOf(env, refs).tweets[j].id == refs[i].id
  {
    MissingIds(env, sh, refs, |refs|, refs[i].id);
    var ids := RawIds(LookupOf(env, refs).tweets);
    assert refs[i].id in multiset(ids);
    j :| 0 <= j < |ids| && ids[j] == refs[i].id;
  }

  lemma AnsweredIsAsked(env: nat -> Answer, sh: Shared, refs: seq<RawRef>, j: nat) returns (i: nat)
    requires MissingOf(env, sh, refs, |refs|) != [] && AnswersAsked(env, sh, refs) && j < |LookupOf(env, refs).tweets|
    ensures i < |refs| && !Found(env, sh, refs, i) && refs[i].id == LookupOf(env, refs).tweets[j].id
  {
    var id := LookupOf(env, refs).tweets[j].id;
    assert RawIds(LookupOf(env, refs).tweets)[j] in multiset(MissingOf(env, sh, refs, |refs|));
    MissingIds(env, sh, refs, |refs|, id);
    i :| 0 <= i < |refs| && !Found(env, sh, refs, i) && refs[i].id == id;
  }

  lemma FetchedTypes(env: nat -> Answer, sh: Shared, refs: seq<RawRef>, kind: string)
    requires LookedUp(env, sh, refs) && AnswersAsked(env, sh, refs)
    ensures HasType(FetchedOf(env, sh, refs), kind)
       <==> exists i | 0 <= i < |refs| :: !Found(env, sh, refs, i) && TypeOf(env, sh, refs, i) == kind
  {
    var fetched := FetchedOf(env, sh, refs);
    if HasType(fetched, kind) {
      var j :| 0 <= j < |fetched| && fetched[j].referencedType == kind;
      var i := AnsweredIsAsked(env, sh, refs, j);
      assert TypeOf(env, sh, refs, i) == kind;
    }
    if i :| 0 <= i < |refs| && !Found(env, sh, refs, i) && TypeOf(env, sh, refs, i) == kind {
      MissingIds(env, sh, refs, |refs|, refs[i].id);
      var j := AskedIsAnswered(env, sh, refs, i);
      assert fetched[j].referencedType == kind;
    }
  }

  /** The copy of the i-th reference has this type: the stored one if the reference is found, and otherwise the
      one under which Twitter lists its ID last. */
  predicate ComesAs(env: nat -> Answer, sh: Shared, refs: seq<RawRef>, i: nat, kind: string)
    requires i < |refs|
  {
    if env(2 + i).ok && refs[i].id in sh.store then sh.store[refs[i].id].referencedType == kind
    else Lists(refs, refs[i].id, kind)
  }

  /** With distinct IDs the type of a reference that is not found is the one it is listed with. */
  lemma ComesAsListed(env: nat -> Answer, sh: Shared, refs: seq<RawRef>, i: nat, kind: string)
    requires i < |refs| && !(env(2 + i).ok && refs[i].id in sh.store)
    requires forall j, k | 0 <= j < k < |refs| :: refs[j].id != refs[k].id
    ensures ComesAs(env, sh, refs, i, kind) <==> refs[i].kind == kind
  {
    if Lists(refs, refs[i].id, kind) {
      var j :| 0 <= j < |refs| && refs[j].id == refs[i].id && refs[j].kind == kind;
      assert i == j;
    }
  }

  /** A fetched tweet is recognised as a retweet exactly when a reference that is found came into the cache as
      a retweet, or one that is not found is listed as a retweet: a cached tweet keeps the type it was stored
      with, whatever Twitter says it is for this one. */
  lemma RetweetIsRecognisedExactly(env: nat -> Answer, sh: Shared, id: string)
    requires !Hit(sh, id, env(0)) && Finish(env, sh, Checking(id), 0).phase.Done?
    requires AnswersAsked(env, sh, RefsOf(env))
    ensures Retweet(Finish(env, sh, Checking(id), 0).phase.tweet).Some?
       <==> exists i | 0 <= i < |RefsOf(env)| :: ComesAs(env, sh, RefsOf(env), i, RETWEETED)
  {
    CallReturnsExactly(env, sh, id);
    forall i | 0 <= i < |RefsOf(env)|
      ensures TypeOf(env, sh, RefsOf(env), i) == RETWEETED <==> ComesAs(env, sh, RefsOf(env), i, RETWEETED)
    {
      KindIsListed(RefsOf(env), RefsOf(env)[i].id, RETWEETED);
    }
    var refs, t := RefsOf(env), Finish(env, sh, Checking(id), 0).phase.tweet;
    var known, fetched := KnownOf(env, sh, refs, |refs|), FetchedOf(env, sh, refs);
    KnownTypes(env, sh, refs, |refs|, RETWEETED);
    FetchedTypes(env, sh, refs, RETWEETED);
    TypesOfBoth(known, fetched, t.refs, RETWEETED);
    assert Retweet(t).Some? <==> HasType(t.refs, RETWEETED);
  }

  lemma TypesOfBoth(known: seq<Tweet>, fetched: seq<Tweet>, refs: seq<Tweet>, kind: string)
    requires refs == NormalAll(known + fetched)
    ensures HasType(refs, kind) <==> HasType(known, kind) || HasType(fetched, kind)
  {
    if HasType(refs, kind) {
      var i :| 0 <= i < |refs| && refs[i].referencedType == kind;
      if i < |known| {
        assert known[i].referencedType == kind;
      } else {
        assert fetched[i - |known|].referencedType == kind;
      }
    }
    if i :| 0 <= i < |known| && known[i].referencedType == kind {
      assert refs[i].referencedType == kind;
    }
    if i :| 0 <= i < |fetched| && fetched[i].referencedType == kind {
      assert refs[|known| + i].referencedType == kind;
    }
  }

  // ---------- the content of the result ----------

  lemma ConvertedStays(raw: RawTweet, kind: string, includes: Option<Includes>, t: Tweet)
    requires Convert(raw, kind, includes) == Some(t)
    ensures IsConverted(raw, kind, includes, Normal(t))
  {
    ConvertExactly(raw, kind, includes);
    if includes.Some? {
      NameIsLower(includes.value.users, raw.authorId);
    }
    assert Normal(t) == t;
  }

  /** A call that fetches its tweet returns it as the response gives it, without a type of its own. */
  lemma ResultIsConverted(env: nat -> Answer, sh: Shared, id: string)
    requires !Hit(sh, id, env(0)) && Finish(env, sh, Checking(id), 0).phase.Done?
    ensures |env(1).tweets| == 1
    ensures IsConverted(env(1).tweets[0], "", env(1).includes,
            Finish(env, sh, Checking(id), 0).phase.tweet.(refs := []))
  {
    CallReturnsExactly(env, sh, id);
    var raw, includes := env(1).tweets[0], env(1).includes;
    var parent := Convert(raw, "", includes).value;
    ConvertedStays(raw, "", includes, parent);
    assert FreshResult(env, sh).(refs := []) == Normal(parent);
  }

  /** The tweet as the lookup of the missing references gives it, with the type under which its ID is listed. */
  ghost predicate IsFetched(a: Answer, refs: seq<RawRef>, t: Tweet) {
    exists raw | raw in a.tweets ::
      && IsConverted(raw, t.referencedType, a.includes, t)
      && if IsListed(refs, raw.id) then Lists(refs, raw.id, t.referencedType) else t.referencedType == ""
  }

  lemma FetchedIsGiven(env: nat -> Answer, sh: Shared, refs: seq<RawRef>, t: Tweet)
    requires t in FetchedOf(env, sh, refs)
    ensures IsFetched(env(2 + |refs|), refs, Normal(t))
  {
    var j :| 0 <= j < |FetchedOf(env, sh, refs)| && FetchedOf(env, sh, refs)[j] == t;
    var a := LookupOf(env, refs);
    var raw, kind := a.tweets[j], KindOf(refs, a.tweets[j].id);
    ConvertedStays(raw, kind, a.includes, t);
    KindIsListed(refs, raw.id, kind);
    assert raw in a.tweets && IsConverted(raw, kind, a.includes, Normal(t));
  }

  /** The cached tweet of a reference that a read finds, or what the lookup gives. */
  ghost predicate IsCachedOrFetched(env: nat -> Answer, sh: Shared, refs: seq<RawRef>, t: Tweet) {
    || (exists i | 0 <= i < |refs| ::
          env(2 + i).ok && refs[i].id in sh.store && t == Normal(sh.store[refs[i].id]))
    || IsFetched(env(2 + |refs|), refs, t)
  }

  lemma KnownIsCached(env: nat -> Answer, sh: Shared, refs: seq<RawRef>, t: Tweet)
    requires t in KnownOf(env, sh, refs, |refs|)
    ensures IsCachedOrFetched(env, sh, refs, Normal(t))
  {
    var k :| 0 <= k < |KnownOf(env, sh, refs, |refs|)| && KnownOf(env, sh, refs, |refs|)[k] == t;
    var i := KnownIsFound(env, sh, refs, |refs|, k);
    NormalTwice(sh.store[refs[i].id]);
  }

  lemma CopyIsCachedOrFetched(env: nat -> Answer, sh: Shared, refs: seq<RawRef>, t: Tweet)
    requires t in CopiesOf(env, sh, refs)
    ensures IsCachedOrFetched(env, sh, refs, Normal(t))
  {
    if t in KnownOf(env, sh, refs, |refs|) {
      KnownIsCached(env, sh, refs, t);
    } else {
      FetchedIsGiven(env, sh, refs, t);
    }
  }

  /** Each of its references is the cached tweet of one that a read finds, or what the lookup gives. */
  lemma ReferenceIsCachedOrFetched(env: nat -> Answer, sh: Shared, id: string, k: nat)
    requires !Hit(sh, id, env(0)) && Finish(env, sh, Checking(id), 0).phase.Done?
    requires k < |Finish(env, sh, Checking(id), 0).phase.tweet.refs|
    ensures IsCachedOrFetched(env, sh, RefsOf(env), Finish(env, sh, Checking(id), 0).phase.tweet.refs[k])
  {
    CallReturnsExactly(env, sh, id);
    CopyIsCachedOrFetched(env, sh, RefsOf(env), CopiesOf(env, sh, RefsOf(env))[k]);
  }

  lemma {:induction false} KnownIsFound(env: nat -> Answer, sh: Shared, refs: seq<RawRef>, n: nat, k: nat)
    returns (i: nat)
    requires n <= |refs| && k < |KnownOf(env, sh, refs, n)|
    ensures i < n && Found(env, sh, refs, i) && KnownOf(env, sh, refs, n)[k] == Normal(sh.store[refs[i].id])
  {
    if k < |KnownOf(env, sh, refs, n - 1)| {
      i := KnownIsFound(env, sh, refs, n - 1, k);
    } else {
      i := n - 1;
    }
  }
}

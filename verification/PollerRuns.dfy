/** Whole runs of the poller against a Twitter where tweets keep being posted: which tweets are delivered,
    how often a task is enqueued, and how the sweep advances. */
module PollerRuns {
  import opened Sequences
  import opened Options
  import opened Poller

  /** The poller and its surroundings. Everything after `start` only records history.
      posts:    per account ID, the tweets that count for the bridge, with the time they were posted
      accounts: the account ID of each username
      start:    when the poller started
      served:   per username and tweet, the followers asked for in the poll that moved the cursor past it
      failures: per username, the polls that asked for its timeline and failed
      widest:   per username, the largest number of new tweets that a successful poll faced
      visited:  the positions polled with success since the user list was last renewed */
  datatype World = World(
    poll: PollState, posts: map<string, map<nat, int>>, accounts: map<string, string>, start: int,
    served: map<string, map<nat, seq<string>>>, failures: map<string, nat>, widest: map<string, nat>,
    visited: seq<nat>)

  datatype Event = Post(account: string, tweet: nat, at: int) | Poll(answer: PollAnswer)

  const MAX_RESULTS := 100

  function Lookup<V>(m: map<string, V>, key: string, default: V): V {
    if key in m then m[key] else default
  }

  // ---------- one user ----------

  /** What a run means for one username. */
  datatype View = View(
    posts: map<nat, int>, start: int, cursor: Option<nat>, served: map<nat, seq<string>>, widest: nat)

  function ViewOf(w: World, u: string): View {
    View(if u in w.accounts then Lookup(w.posts, w.accounts[u], map[]) else map[],
         w.start,
         if u in w.poll.cursors then Some(w.poll.cursors[u]) else None,
         Lookup(w.served, u, map[]),
         Lookup(w.widest, u, 0))
  }

  predicate Passed(v: View, t: nat) {
    v.cursor.Some? && t <= v.cursor.value
  }

  /** The new tweets: those after the cursor, or without a cursor those since the start. */
  function Window(v: View): set<nat> {
    set t | t in v.posts && if v.cursor.Some? then t > v.cursor.value else v.posts[t] >= v.start
  }

  /** A tweet that the cursor has passed and that the bridge was to deliver. */
  predicate Due(v: View, t: nat) {
    t in v.posts && v.posts[t] >= v.start && Passed(v, t)
  }

  predicate Complete(v: View) {
    forall t | t in v.posts :: Due(v, t) ==> t in v.served
  }

  /** Times follow IDs, and the cursor is a tweet of the account posted since the start. */
  predicate Timed(v: View) {
    && (forall t, s | t in v.posts && s in v.posts && t < s :: v.posts[t] <= v.posts[s])
    && (v.cursor.Some? ==> v.cursor.value in v.posts && v.posts[v.cursor.value] >= v.start)
    && forall t | t in v.served :: Passed(v, t)
  }

  predicate Exact(v: View) {
    v.widest <= MAX_RESULTS <==> Complete(v)
  }

  /** What `served` records is in the queue. */
  predicate Delivered(v: View, u: string, queue: seq<Task>) {
    forall t | t in v.served :: forall x | x in v.served[t] :: SendTweet(u, x, t) in queue
  }

  // ---------- what the outside may do ----------

  /** Twitter returns the newest tweets of the window, at most a hundred, and names the newest. */
  predicate HonestTimeline(window: set<nat>, timeline: Timeline) {
    && timeline.count == |timeline.ids| && NoRepeats(timeline.ids)
    && |timeline.ids| == (if |window| < MAX_RESULTS then |window| else MAX_RESULTS)
    && (forall t | t in timeline.ids :: t in window)
    && (forall t, s | t in window && t !in timeline.ids && s in timeline.ids :: t < s)
    && (timeline.ids != [] ==> timeline.newest in timeline.ids)
    && (forall s | s in timeline.ids :: s <= timeline.newest)
  }

  predicate Known(accounts: map<string, string>, users: seq<Account>) {
    forall u | u in users :: u.username in accounts && accounts[u.username] == u.id
  }

  ghost predicate DistinctFollowers(a: PollAnswer) {
    forall i | a.followers(i).Some? :: NoRepeats(a.followers(i).value)
  }

  /** Tweet IDs and times of an account grow; usernames keep their account; a user has a follower once;
      timelines are honest. Every call may fail. */
  ghost predicate Valid(w: World, e: Event) {
    match e
    case Post(id, tweet, at) => LaterThan(Lookup(w.posts, id, map[]), tweet, at)
    case Poll(a) =>
      && (a.refresh.Some? ==> Known(w.accounts, a.refresh.value))
      && DistinctFollowers(a)
      && (a.timeline.Some? && QueriesOf(w.poll, a) != [] ==>
            HonestTimeline(TweetsAsked(w, QueriesOf(w.poll, a)[0]), a.timeline.value))
  }

  /** The tweets a query is about. */
  function TweetsAsked(w: World, q: Query): set<nat> {
    var posts := Lookup(w.posts, q.id, map[]);
    set t | t in posts && if q.since.Some? then t > q.since.value else posts[t] >= w.start
  }

  predicate LaterThan(posts: map<nat, int>, tweet: nat, at: int) {
    forall t | t in posts :: t < tweet && posts[t] <= at
  }

  // ---------- runs ----------

  /** The followers that were asked for when tweet `t` was handled. */
  function FollowersOf(a: PollAnswer, ids: seq<nat>, t: nat): seq<string>
    requires t in ids
  {
    var i := IndexOf(ids, t);
    if a.followers(i).Some? then a.followers(i).value else []
  }

  function ServedBy(a: PollAnswer, ids: seq<nat>): map<nat, seq<string>> {
    map t | t in ids :: FollowersOf(a, ids, t)
  }

  function Larger(x: nat, y: nat): nat {
    if x < y then y else x
  }

  function Record(w: World, u: string, a: PollAnswer, outcome: Outcome): World {
    if outcome.Erred? || a.timeline.None? then w.(failures := w.failures[u := Lookup(w.failures, u, 0) + 1])
    else
      w.(served := w.served[u := Lookup(w.served, u, map[]) + ServedBy(a, a.timeline.value.ids)],
         widest := w.widest[u := Larger(Lookup(w.widest, u, 0), |Window(ViewOf(w, u))|)])
  }

  function Visit(w: World, a: PollAnswer, outcome: Outcome): seq<nat> {
    var since := if |w.poll.users| == w.poll.index then [] else w.visited;
    if outcome.Advanced? then since + [Swept(w.poll, a).index] else since
  }

  function Apply(w: World, e: Event): World {
    match e
    case Post(id, tweet, at) => w.(posts := w.posts[id := Lookup(w.posts, id, map[])[tweet := at]])
    case Poll(a) =>
      var (poll, outcome) := Fetch(w.poll, a);
      var user := Polled(w.poll, a);
      var recorded := if user.Some? then Record(w, user.value.username, a, outcome) else w;
      recorded.(poll := poll, visited := Visit(w, a, outcome))
  }

  function Run(w: World, events: seq<Event>): World
    decreases |events|
  {
    if events == [] then w else Run(Apply(w, events[0]), events[1..])
  }

  ghost predicate ValidRun(w: World, events: seq<Event>)
    decreases |events|
  {
    events == [] || (Valid(w, events[0]) && ValidRun(Apply(w, events[0]), events[1..]))
  }

  /** Just started, with the user list that ended the search for users. */
  predicate Initial(w: World) {
    && w.poll.index == 0 && w.poll.cursors == map[] && w.poll.queue == []
    && Known(w.accounts, w.poll.users)
    && w.served == map[] && w.failures == map[] && w.widest == map[] && w.visited == []
    && w.posts == map[]
  }

  // ---------- the sweep ----------

  predicate Ordered(w: World) {
    && w.poll.index <= |w.poll.users| && Known(w.accounts, w.poll.users)
    && |w.visited| == w.poll.index && forall i | 0 <= i < |w.visited| :: w.visited[i] == i
  }

  /** The list, the index and the record of visits after a poll. */
  lemma PollSweeps(w: World, a: PollAnswer)
    ensures var w' := Apply(w, Poll(a)); var s := Swept(w.poll, a);
            && w'.poll.users == s.users && w'.accounts == w.accounts
            && w'.visited == Visit(w, a, Fetch(w.poll, a).1)
            && w'.poll.index == s.index + (if Fetch(w.poll, a).1.Advanced? then 1 else 0)
            && (Fetch(w.poll, a).1.Advanced? ==> s.index < |s.users|)
  {
  }

  lemma StepKeepsOrder(w: World, e: Event)
    requires Ordered(w) && Valid(w, e)
    ensures Ordered(Apply(w, e))
  {
    if e.Poll? {
      PollSweeps(w, e.answer);
    }
  }

  /** A poll asks for the new tweets of its user. */
  lemma AsksForTheWindow(w: World, a: PollAnswer)
    requires Ordered(w) && Valid(w, Poll(a)) && Polled(w.poll, a).Some?
    ensures TweetsAsked(w, QueriesOf(w.poll, a)[0]) == Window(ViewOf(w, Polled(w.poll, a).value.username))
  {
    var user := Polled(w.poll, a).value;
    assert user in Swept(w.poll, a).users;
    assert w.accounts[user.username] == user.id;
  }

  // ---------- what a poll leaves in the queue ----------

  function Times(queue: seq<Task>, task: Task): nat {
    multiset(queue)[task]
  }

  lemma {:induction false} EnqueueAdds(
    queue: seq<Task>, user: Account, actors: seq<string>, tweet: nat, a: PollAnswer, i: nat, j: nat, task: Task)
    requires NoRepeats(actors) && j <= |actors|
    ensures var (q, ok) := EnqueueFrom(queue, user, actors, tweet, a, i, j);
            && queue <= q
            && Times(q, task) <= Times(queue, task) +
                 (if task.from == user.username && task.tweet == tweet && task.to in actors[j..] then 1 else 0)
            && (ok ==> forall x | x in actors[j..] :: SendTweet(user.username, x, tweet) in q)
    decreases |actors| - j
  {
    if j < |actors| {
      var added := queue + [SendTweet(user.username, actors[j], tweet)];
      assert actors[j..] == [actors[j]] + actors[j + 1..];
      assert actors[j] !in actors[j + 1..];
      if a.enqueue(i, j).Accepted? {
        EnqueueAdds(added, user, actors, tweet, a, i, j + 1, task);
        assert SendTweet(user.username, actors[j], tweet) in added;
      }
    }
  }

  predicate AllSent(queue: seq<Task>, u: string, a: PollAnswer, ids: seq<nat>, n: nat)
    requires n < |ids|
  {
    a.followers(n).Some? && forall x | x in a.followers(n).value :: SendTweet(u, x, ids[n]) in queue
  }

  lemma {:induction false} HandleAdds(
    queue: seq<Task>, user: Account, ids: seq<nat>, a: PollAnswer, i: nat, task: Task)
    requires i <= |ids| && NoRepeats(ids) && DistinctFollowers(a)
    ensures var (q, ok) := HandleFrom(queue, user, ids, a, i);
            && queue <= q
            && Times(q, task) <= Times(queue, task) +
                 (if task.from == user.username && task.tweet in ids[i..] then 1 else 0)
            && (ok ==> forall n | i <= n < |ids| :: AllSent(q, user.username, a, ids, n))
    decreases |ids| - i
  {
    if i < |ids| && a.followers(i).Some? {
      var actors := a.followers(i).value;
      assert ids[i..] == [ids[i]] + ids[i + 1..];
      assert ids[i] !in ids[i + 1..];
      assert actors[0..] == actors;
      EnqueueAdds(queue, user, actors, ids[i], a, i, 0, task);
      var (q, ok) := EnqueueFrom(queue, user, actors, ids[i], a, i, 0);
      if ok {
        HandleAdds(q, user, ids, a, i + 1, task);
      }
    }
  }

  lemma AllServed(queue: seq<Task>, user: Account, ids: seq<nat>, a: PollAnswer)
    requires NoRepeats(ids) && DistinctFollowers(a) && HandleFrom(queue, user, ids, a, 0).1
    ensures var q := HandleFrom(queue, user, ids, a, 0).0;
            forall t | t in ids :: forall x | x in ServedBy(a, ids)[t] :: SendTweet(user.username, x, t) in q
  {
    var q := HandleFrom(queue, user, ids, a, 0).0;
    HandleAdds(queue, user, ids, a, 0, SendTweet("", "", 0));
    forall t | t in ids ensures forall x | x in ServedBy(a, ids)[t] :: SendTweet(user.username, x, t) in q {
      assert AllSent(q, user.username, a, ids, IndexOf(ids, t));
    }
  }

  // ---------- one poll, for one user ----------

  function Elements(s: seq<nat>): set<nat> {
    set x | x in s
  }

  lemma {:induction false} SetOfDistinct(s: seq<nat>)
    requires NoRepeats(s)
    ensures |Elements(s)| == |s|
  {
    if s != [] {
      SetOfDistinct(s[1..]);
      assert s[0] !in Elements(s[1..]);
      assert Elements(s) == {s[0]} + Elements(s[1..]);
    }
  }

  lemma Subset(a: set<nat>, b: set<nat>)
    requires a <= b
    ensures |a| <= |b| && (|a| == |b| ==> a == b)
  {
    assert b == a + (b - a);
    assert |b| == |a| + |b - a|;
  }

  /** An answer holds the whole window exactly when the window is not larger than an answer can be. */
  lemma WholeWindow(window: set<nat>, timeline: Timeline)
    requires HonestTimeline(window, timeline)
    ensures |window| <= MAX_RESULTS <==> forall t | t in window :: t in timeline.ids
  {
    var got := Elements(timeline.ids);
    SetOfDistinct(timeline.ids);
    Subset(got, window);
    if forall t | t in window :: t in timeline.ids {
      assert window == got;
    }
  }

  lemma NewestIsLast(window: set<nat>, timeline: Timeline)
    requires HonestTimeline(window, timeline)
    ensures timeline.count == 0 <==> window == {}
    ensures window != {} ==> timeline.newest in window && forall t | t in window :: t <= timeline.newest
  {
    if window != {} {
      assert |window| > 0;
      assert timeline.ids[0] in timeline.ids;
    }
  }

  function Advance(v: View, timeline: Timeline, served: map<nat, seq<string>>): View {
    v.(cursor := if timeline.count == 0 then v.cursor else Some(timeline.newest),
       served := v.served + served,
       widest := Larger(v.widest, |Window(v)|))
  }

  lemma AdvancePasses(v: View, timeline: Timeline, served: map<nat, seq<string>>, t: nat)
    requires Timed(v) && HonestTimeline(Window(v), timeline)
    ensures t in Window(v) ==> Passed(Advance(v, timeline, served), t) && !Passed(v, t)
    ensures Passed(v, t) ==> Passed(Advance(v, timeline, served), t)
    ensures Due(Advance(v, timeline, served), t) <==> Due(v, t) || t in Window(v)
  {
    NewestIsLast(Window(v), timeline);
  }

  lemma AdvanceTimed(v: View, timeline: Timeline, served: map<nat, seq<string>>)
    requires Timed(v) && HonestTimeline(Window(v), timeline)
    requires forall t | t in served :: t in timeline.ids
    ensures Timed(Advance(v, timeline, served))
  {
    NewestIsLast(Window(v), timeline);
    forall t | t in Advance(v, timeline, served).served ensures Passed(Advance(v, timeline, served), t) {
      AdvancePasses(v, timeline, served, t);
    }
  }

  /** A window that is too wide leaves a tweet behind for good; any other leaves none. */
  lemma AdvanceExact(v: View, timeline: Timeline, served: map<nat, seq<string>>)
    requires Timed(v) && Exact(v) && HonestTimeline(Window(v), timeline)
    requires forall t :: t in served <==> t in timeline.ids
    ensures Exact(Advance(v, timeline, served))
  {
    var v' := Advance(v, timeline, served);
    WholeWindow(Window(v), timeline);
    forall t ensures Due(v', t) <==> Due(v, t) || t in Window(v) {
      AdvancePasses(v, timeline, served, t);
    }
    if |Window(v)| > MAX_RESULTS {
      var t :| t in Window(v) && t !in timeline.ids;
      assert Due(v', t) && t !in v'.served;
    } else if Complete(v) {
      assert forall t | t in v'.posts && Due(v', t) :: t in v'.served;
    } else {
      var t :| t in v.posts && Due(v, t) && t !in v.served;
      assert t !in Window(v);
      assert Due(v', t) && t !in v'.served;
    }
  }

  lemma PostView(v: View, tweet: nat, at: int)
    requires Timed(v) && Exact(v) && LaterThan(v.posts, tweet, at)
    ensures Timed(v.(posts := v.posts[tweet := at])) && Exact(v.(posts := v.posts[tweet := at]))
  {
    var v' := v.(posts := v.posts[tweet := at]);
    assert !Passed(v, tweet);
    forall t ensures Due(v', t) == Due(v, t) {
    }
    if Complete(v) {
      assert forall t | t in v'.posts && Due(v', t) :: t in v.posts;
    } else {
      var t :| t in v.posts && Due(v, t) && t !in v.served;
      assert t in v'.posts && Due(v', t);
    }
  }

  // ---------- the invariant of a run ----------

  predicate Bounded(w: World, task: Task) {
    Times(w.poll.queue, task)
    <= Lookup(w.failures, task.from, 0) + if task.tweet in ViewOf(w, task.from).served then 1 else 0
  }

  predicate UserInv(w: World, u: string) {
    var v := ViewOf(w, u);
    Timed(v) && Exact(v) && Delivered(v, u, w.poll.queue)
  }

  ghost predicate Inv(w: World) {
    Ordered(w) && (forall u :: UserInv(w, u)) && (forall task :: Bounded(w, task))
  }

  lemma PostKeepsInv(w: World, id: string, tweet: nat, at: int)
    requires Inv(w) && Valid(w, Post(id, tweet, at))
    ensures Inv(Apply(w, Post(id, tweet, at)))
  {
    var w' := Apply(w, Post(id, tweet, at));
    forall u ensures UserInv(w', u) {
      assert UserInv(w, u);
      var v := ViewOf(w, u);
      if u in w.accounts && w.accounts[u] == id {
        PostView(v, tweet, at);
        assert ViewOf(w', u) == v.(posts := v.posts[tweet := at]);
      } else {
        assert ViewOf(w', u) == v;
      }
    }
    forall task ensures Bounded(w', task) {
      assert Bounded(w, task);
    }
  }

  /** What a poll does to the queue. */
  lemma PollQueue(w: World, a: PollAnswer)
    requires Valid(w, Poll(a))
    ensures w.poll.queue <= Apply(w, Poll(a)).poll.queue
  {
    var user := Polled(w.poll, a);
    if user.Some? && a.timeline.Some? {
      HandleAdds(w.poll.queue, user.value, a.timeline.value.ids, a, 0, SendTweet("", "", 0));
    }
  }

  predicate Moves(w: World, a: PollAnswer, u: string) {
    && Fetch(w.poll, a).1.Advanced? && a.timeline.Some?
    && Polled(w.poll, a).Some? && Polled(w.poll, a).value.username == u
  }

  lemma FetchCursors(st: PollState, a: PollAnswer)
    ensures var (st', outcome) := Fetch(st, a);
            st'.cursors == if outcome.Advanced? && Polled(st, a).Some? && a.timeline.Some? && a.timeline.value.count > 0
                           then st.cursors[Polled(st, a).value.username := a.timeline.value.newest] else st.cursors
  {
  }

  lemma RecordOfOther(w: World, name: string, a: PollAnswer, outcome: Outcome, u: string)
    requires outcome.Advanced? && a.timeline.Some? ==> name != u
    requires !outcome.Idle?
    ensures var w' := Record(w, name, a, outcome);
            && Lookup(w'.served, u, map[]) == Lookup(w.served, u, map[])
            && Lookup(w'.widest, u, 0) == Lookup(w.widest, u, 0)
  {
  }

  lemma RecordStays(w: World, u: string, a: PollAnswer)
    requires !Moves(w, a, u)
    ensures var w' := Apply(w, Poll(a));
            && Lookup(w'.served, u, map[]) == Lookup(w.served, u, map[])
            && Lookup(w'.widest, u, 0) == Lookup(w.widest, u, 0)
  {
    var user, outcome := Polled(w.poll, a), Fetch(w.poll, a).1;
    if user.Some? {
      PolledIsNotIdle(w.poll, a);
      RecordOfOther(w, user.value.username, a, outcome, u);
    }
  }

  lemma PolledIsNotIdle(st: PollState, a: PollAnswer)
    requires Polled(st, a).Some?
    ensures !Fetch(st, a).1.Idle?
  {
  }

  lemma RecordMoves(w: World, u: string, a: PollAnswer)
    requires Moves(w, a, u)
    ensures var w' := Apply(w, Poll(a));
            && Lookup(w'.served, u, map[]) == Lookup(w.served, u, map[]) + ServedBy(a, a.timeline.value.ids)
            && Lookup(w'.widest, u, 0) == Larger(Lookup(w.widest, u, 0), |Window(ViewOf(w, u))|)
  {
  }

  lemma PollKeepsTweets(w: World, a: PollAnswer)
    ensures var w' := Apply(w, Poll(a)); w'.posts == w.posts && w'.accounts == w.accounts && w'.start == w.start
  {
  }

  /** What it does to the view of a user. */
  lemma PollView(w: World, a: PollAnswer, u: string)
    ensures ViewOf(Apply(w, Poll(a)), u)
         == if Moves(w, a, u) then Advance(ViewOf(w, u), a.timeline.value, ServedBy(a, a.timeline.value.ids))
            else ViewOf(w, u)
  {
    FetchCursors(w.poll, a);
    PollKeepsTweets(w, a);
    if Moves(w, a, u) {
      RecordMoves(w, u, a);
    } else {
      RecordStays(w, u, a);
    }
  }

  lemma PollSends(w: World, a: PollAnswer, u: string)
    requires Valid(w, Poll(a)) && Moves(w, a, u)
    ensures var ids := a.timeline.value.ids;
            forall t | t in ids :: forall x | x in ServedBy(a, ids)[t] ::
                SendTweet(u, x, t) in Apply(w, Poll(a)).poll.queue
  {
    var ids := a.timeline.value.ids;
    if ids != [] {
      AllServed(w.poll.queue, Polled(w.poll, a).value, ids, a);
    }
  }

  lemma PollKeepsUser(w: World, a: PollAnswer, u: string)
    requires Ordered(w) && Valid(w, Poll(a)) && UserInv(w, u)
    ensures UserInv(Apply(w, Poll(a)), u)
  {
    PollQueue(w, a);
    PollView(w, a, u);
    if Moves(w, a, u) {
      var served := ServedBy(a, a.timeline.value.ids);
      AsksForTheWindow(w, a);
      PollSends(w, a, u);
      AdvanceTimed(ViewOf(w, u), a.timeline.value, served);
      AdvanceExact(ViewOf(w, u), a.timeline.value, served);
    }
  }

  /** What a poll adds to the number of times a task is queued. */
  lemma PollAdds(w: World, a: PollAnswer, task: Task)
    requires Valid(w, Poll(a))
    ensures var before := Times(w.poll.queue, task); var after := Times(Apply(w, Poll(a)).poll.queue, task);
            var user := Polled(w.poll, a);
            if user.Some? && a.timeline.Some? && user.value.username == task.from && task.tweet in a.timeline.value.ids
            then after <= before + 1 else after <= before
  {
    var user := Polled(w.poll, a);
    if user.Some? && a.timeline.Some? {
      var ids := a.timeline.value.ids;
      assert ids[0..] == ids;
      HandleAdds(w.poll.queue, user.value, ids, a, 0, task);
    }
  }

  /** One poll adds a task at most once, and only for a tweet the cursor has not passed. */
  lemma PollBounded(w: World, a: PollAnswer, task: Task)
    requires Ordered(w) && Valid(w, Poll(a)) && UserInv(w, task.from) && Bounded(w, task)
    ensures Bounded(Apply(w, Poll(a)), task)
  {
    PollAdds(w, a, task);
    PollView(w, a, task.from);
    PollFailures(w, a, task.from);
    if Polled(w.poll, a).Some? && a.timeline.Some? && Polled(w.poll, a).value.username == task.from {
      AsksForTheWindow(w, a);
      AdvancePasses(ViewOf(w, task.from), a.timeline.value, ServedBy(a, a.timeline.value.ids), task.tweet);
    }
  }

  lemma PollFailures(w: World, a: PollAnswer, u: string)
    ensures var user := Polled(w.poll, a);
            Lookup(Apply(w, Poll(a)).failures, u, 0)
            == Lookup(w.failures, u, 0) + if user.Some? && user.value.username == u && !Moves(w, a, u) then 1 else 0
  {
  }

  lemma PollKeepsInv(w: World, a: PollAnswer)
    requires Inv(w) && Valid(w, Poll(a))
    ensures Inv(Apply(w, Poll(a)))
  {
    StepKeepsOrder(w, Poll(a));
    forall u ensures UserInv(Apply(w, Poll(a)), u) {
      assert UserInv(w, u);
      PollKeepsUser(w, a, u);
    }
    forall task ensures Bounded(Apply(w, Poll(a)), task) {
      assert Bounded(w, task) && UserInv(w, task.from);
      PollBounded(w, a, task);
    }
  }

  // ---------- whole runs ----------

  lemma {:induction false} RunKeepsInv(w: World, events: seq<Event>)
    requires Inv(w) && ValidRun(w, events)
    ensures Inv(Run(w, events))
    decreases |events|
  {
    if events != [] {
      match events[0] {
        case Post(id, tweet, at) => PostKeepsInv(w, id, tweet, at);
        case Poll(a) => PollKeepsInv(w, a);
      }
      RunKeepsInv(Apply(w, events[0]), events[1..]);
    }
  }

  lemma InitialInv(w: World)
    requires Initial(w)
    ensures Inv(w)
  {
    forall u ensures UserInv(w, u) {
      assert ViewOf(w, u) == View(map[], w.start, None, map[], 0);
    }
  }

  /** Every tweet of a user posted since the start and not after the cursor was served by the poll that moved
      the cursor past it, exactly when no successful poll of the user ever faced more than a hundred new
      tweets. Whatever was served is in the queue for each follower the table listed then. Failed polls, in any
      number, lose nothing. */
  lemma NoTweetIsLostExactly(w: World, events: seq<Event>, u: string)
    requires Initial(w) && ValidRun(w, events)
    ensures var v := ViewOf(Run(w, events), u); var queue := Run(w, events).poll.queue;
            && (v.widest <= MAX_RESULTS <==> forall t | t in v.posts && Due(v, t) :: t in v.served)
            && forall t | t in v.served :: forall x | x in v.served[t] :: SendTweet(u, x, t) in queue
  {
    InitialInv(w);
    RunKeepsInv(w, events);
    assert UserInv(Run(w, events), u);
  }

  /** A task is enqueued at most once more often than the polls of its user failed; for a tweet that no
      successful poll has served, at most as often as they failed. */
  lemma DuplicatesAreBounded(w: World, events: seq<Event>, task: Task)
    requires Initial(w) && ValidRun(w, events)
    ensures var end := Run(w, events);
            Times(end.poll.queue, task)
            <= Lookup(end.failures, task.from, 0) + if task.tweet in ViewOf(end, task.from).served then 1 else 0
  {
    InitialInv(w);
    RunKeepsInv(w, events);
    assert Bounded(Run(w, events), task);
  }

  /** Without a failed poll of the user, a tweet that no successful poll has served is queued for nobody. With
      the statement above: no due tweet is missing from the queue exactly when no poll was too wide. */
  lemma UnservedIsNeverQueued(w: World, events: seq<Event>, u: string, x: string, t: nat)
    requires Initial(w) && ValidRun(w, events)
    requires Lookup(Run(w, events).failures, u, 0) == 0 && t !in ViewOf(Run(w, events), u).served
    ensures SendTweet(u, x, t) !in Run(w, events).poll.queue
  {
    DuplicatesAreBounded(w, events, SendTweet(u, x, t));
    assert SendTweet(u, x, t) !in multiset(Run(w, events).poll.queue);
  }

  /** Without a failed poll of the user, each of its tweets is queued exactly once for each follower, although
      the user is polled once in a sweep for every follower it has. */
  lemma QueuedExactlyOnce(w: World, events: seq<Event>, u: string, x: string, t: nat)
    requires Initial(w) && ValidRun(w, events)
    requires var v := ViewOf(Run(w, events), u);
             v.widest <= MAX_RESULTS && Due(v, t) && (t in v.served ==> x in v.served[t])
    requires Lookup(Run(w, events).failures, u, 0) == 0
    ensures Times(Run(w, events).poll.queue, SendTweet(u, x, t)) == 1
  {
    NoTweetIsLostExactly(w, events, u);
    DuplicatesAreBounded(w, events, SendTweet(u, x, t));
    assert SendTweet(u, x, t) in multiset(Run(w, events).poll.queue);
  }

  /** Cursors never go back, and what is in the queue stays there. */
  lemma {:induction false} CursorsNeverDecrease(w: World, events: seq<Event>, u: string, t: nat)
    requires Inv(w) && ValidRun(w, events) && Passed(ViewOf(w, u), t)
    ensures Passed(ViewOf(Run(w, events), u), t) && w.poll.queue <= Run(w, events).poll.queue
    decreases |events|
  {
    if events != [] {
      match events[0] {
        case Post(id, tweet, at) => PostKeepsInv(w, id, tweet, at);
        case Poll(a) =>
          PollKeepsInv(w, a);
          PollQueue(w, a);
          PollView(w, a, u);
          assert UserInv(w, u);
          if a.timeline.Some? && Polled(w.poll, a).Some? && Polled(w.poll, a).value.username == u {
            AsksForTheWindow(w, a);
            AdvancePasses(ViewOf(w, u), a.timeline.value, ServedBy(a, a.timeline.value.ids), t);
          }
      }
      CursorsNeverDecrease(Apply(w, events[0]), events[1..], u, t);
    }
  }

  /** In every reachable state the positions polled since the list was last renewed are 0, 1, 2, ... in
      this order, each once, and the index has not run past the list. A next call that errs keeps the position
      of the sweep, one that succeeds visits the next. */
  lemma SweepVisitsInOrder(w: World, events: seq<Event>, a: PollAnswer)
    requires Initial(w) && ValidRun(w, events)
    ensures var end := Run(w, events);
            && end.poll.index <= |end.poll.users|
            && end.visited == seq(end.poll.index, i => i)
    ensures var end, next := Run(w, events), Apply(Run(w, events), Poll(a));
            && (Fetch(end.poll, a).1.Erred? ==> next.poll.index == Swept(end.poll, a).index)
            && (Fetch(end.poll, a).1.Advanced? ==> next.visited == Visit(end, a, Idle) + [|Visit(end, a, Idle)|])
  {
    InitialInv(w);
    RunKeepsInv(w, events);
    PollSweeps(Run(w, events), a);
  }

  /** In every reachable state the next call finds a user to poll at its index, unless it renews the list and
      gets none: the test for equality at the end of the list is enough. */
  lemma AccessIsInRange(w: World, events: seq<Event>, a: PollAnswer)
    requires Initial(w) && ValidRun(w, events)
    ensures var st := Run(w, events).poll;
            Polled(st, a).None? <==> |st.users| == st.index && (a.refresh.None? || a.refresh.value == [])
  {
    InitialInv(w);
    RunKeepsInv(w, events);
  }
}

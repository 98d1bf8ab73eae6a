/** What one call of FetchTweets does, and what a sweep does, told from the list of users and from the answers. */
module PollerRules {
  import opened Options
  import opened Poller

  // ---------- the tasks of a timeline ----------

  /** One task for each follower, in their order. */
  function TasksFor(u: string, followers: seq<string>, tweet: nat): seq<Task> {
    seq(|followers|, j requires 0 <= j < |followers| => SendTweet(u, followers[j], tweet))
  }

  function FollowersAt(a: PollAnswer, i: nat): seq<string> {
    if a.followers(i).Some? then a.followers(i).value else []
  }

  /** The tasks of the tweets at the positions from i on and before n, tweet by tweet. */
  function TasksOf(u: string, ids: seq<nat>, a: PollAnswer, i: nat, n: nat): seq<Task>
    requires n <= |ids|
    decreases n - i
  {
    if i >= n then [] else TasksFor(u, FollowersAt(a, i), ids[i]) + TasksOf(u, ids, a, i + 1, n)
  }

  /** No call about this tweet fails: the followers are found, and the queue takes each task. */
  predicate Taken(a: PollAnswer, i: nat) {
    a.followers(i).Some? && forall j | 0 <= j < |a.followers(i).value| :: a.enqueue(i, j).Accepted?
  }

  /** The queue refuses the task for this follower and took those before it. */
  predicate RefusedAt(a: PollAnswer, i: nat, from: nat, j: nat) {
    from <= j && a.enqueue(i, j).Refused? && forall k | from <= k < j :: a.enqueue(i, k).Accepted?
  }

  lemma TasksForFirst(u: string, followers: seq<string>, tweet: nat, j: nat, n: nat)
    requires j < n <= |followers|
    ensures TasksFor(u, followers[j..n], tweet)
         == [SendTweet(u, followers[j], tweet)] + TasksFor(u, followers[j + 1..n], tweet)
  {
    assert followers[j..n] == [followers[j]] + followers[j + 1..n];
  }

  lemma Appended<T>(a: seq<T>, b: seq<T>, c: seq<T>)
    ensures a + b + c == a + (b + c)
  {
  }

  /** What stays in the queue of the tasks for the followers from j on, when one of them is refused. */
  predicate PartOf(queue: seq<Task>, q: seq<Task>, u: string, followers: seq<string>, tweet: nat, a: PollAnswer, i: nat,
                   j: nat) {
    exists k | j <= k < |followers| ::
      RefusedAt(a, i, j, k)
      && q == queue + TasksFor(u, followers[j..k + if a.enqueue(i, k).added then 1 else 0], tweet)
  }

  lemma {:induction false} EnqueueExactly(
    queue: seq<Task>, user: Account, followers: seq<string>, tweet: nat, a: PollAnswer, i: nat, j: nat)
    requires j <= |followers|
    ensures var (q, ok) := EnqueueFrom(queue, user, followers, tweet, a, i, j);
            && (ok <==> forall k | j <= k < |followers| :: a.enqueue(i, k).Accepted?)
            && if ok then q == queue + TasksFor(user.username, followers[j..], tweet)
               else PartOf(queue, q, user.username, followers, tweet, a, i, j)
    decreases |followers| - j
  {
    var u := user.username;
    if j == |followers| {
      assert TasksFor(u, followers[j..], tweet) == [];
    } else {
      var task := SendTweet(u, followers[j], tweet);
      match a.enqueue(i, j) {
        case Accepted =>
          EnqueueExactly(queue + [task], user, followers, tweet, a, i, j + 1);
          var (q, ok) := EnqueueFrom(queue + [task], user, followers, tweet, a, i, j + 1);
          if ok {
            OneMoreTask(queue, u, followers, tweet, j, |followers|);
          } else {
            PartOfMore(queue, q, u, followers, tweet, a, i, j);
          }
        case Refused(added) =>
          assert RefusedAt(a, i, j, j);
          assert TasksFor(u, followers[j..j], tweet) == [];
          OneMoreTask(queue, u, followers, tweet, j, j + 1);
          assert TasksFor(u, followers[j + 1..j + 1], tweet) == [];
      }
    }
  }

  lemma OneMoreTask(queue: seq<Task>, u: string, followers: seq<string>, tweet: nat, j: nat, n: nat)
    requires j < n <= |followers|
    ensures queue + [SendTweet(u, followers[j], tweet)] + TasksFor(u, followers[j + 1..n], tweet)
         == queue + TasksFor(u, followers[j..n], tweet)
  {
    TasksForFirst(u, followers, tweet, j, n);
    Appended(queue, [SendTweet(u, followers[j], tweet)], TasksFor(u, followers[j + 1..n], tweet));
  }

  lemma PartOfMore(queue: seq<Task>, q: seq<Task>, u: string, followers: seq<string>, tweet: nat, a: PollAnswer,
                   i: nat, j: nat)
    requires j < |followers| && a.enqueue(i, j).Accepted?
    requires PartOf(queue + [SendTweet(u, followers[j], tweet)], q, u, followers, tweet, a, i, j + 1)
    ensures PartOf(queue, q, u, followers, tweet, a, i, j)
  {
    var k :| j + 1 <= k < |followers| && RefusedAt(a, i, j + 1, k)
             && q == queue + [SendTweet(u, followers[j], tweet)]
                     + TasksFor(u, followers[j + 1..k + if a.enqueue(i, k).added then 1 else 0], tweet);
    OneMoreTask(queue, u, followers, tweet, j, k + if a.enqueue(i, k).added then 1 else 0);
    assert RefusedAt(a, i, j, k);
  }

  /** The tweets before the n-th are all queued, and of the n-th what its failure leaves. */
  predicate FailedAt(queue: seq<Task>, q: seq<Task>, u: string, ids: seq<nat>, a: PollAnswer, i: nat, n: nat)
    requires n < |ids|
  {
    && i <= n && !Taken(a, n) && (forall m | i <= m < n :: Taken(a, m))
    && var before := queue + TasksOf(u, ids, a, i, n);
       match a.followers(n)
       case None => q == before
       case Some(followers) => PartOf(before, q, u, followers, ids[n], a, n, 0)
  }

  /** The loop over the tweets gets through exactly when no call about any of them fails, and has then queued
      their tasks in order. Otherwise it stops at the first that fails. */
  lemma {:induction false} HandleExactly(queue: seq<Task>, user: Account, ids: seq<nat>, a: PollAnswer, i: nat)
    requires i <= |ids|
    ensures var (q, ok) := HandleFrom(queue, user, ids, a, i);
            && (ok <==> forall m | i <= m < |ids| :: Taken(a, m))
            && if ok then q == queue + TasksOf(user.username, ids, a, i, |ids|)
               else exists n | i <= n < |ids| :: FailedAt(queue, q, user.username, ids, a, i, n)
    decreases |ids| - i
  {
    var u := user.username;
    if i < |ids| {
      var (q, ok) := HandleOne(queue, user, ids[i], a, i);
      HandleOneExactly(queue, user, ids[i], a, i);
      if ok {
        HandleExactly(q, user, ids, a, i + 1);
        var (q', ok') := HandleFrom(q, user, ids, a, i + 1);
        if ok' {
          Appended(queue, TasksFor(u, FollowersAt(a, i), ids[i]), TasksOf(u, ids, a, i + 1, |ids|));
        } else {
          var n :| i + 1 <= n < |ids| && FailedAt(q, q', u, ids, a, i + 1, n);
          FailedLater(queue, q, q', u, ids, a, i, n);
        }
      } else {
        assert queue + TasksOf(u, ids, a, i, i) == queue;
        assert FailedAt(queue, q, u, ids, a, i, i);
      }
    }
  }

  lemma HandleOneExactly(queue: seq<Task>, user: Account, tweet: nat, a: PollAnswer, i: nat)
    ensures var (q, ok) := HandleOne(queue, user, tweet, a, i);
            && (ok <==> Taken(a, i))
            && (ok ==> q == queue + TasksFor(user.username, FollowersAt(a, i), tweet))
            && (!ok && a.followers(i).None? ==> q == queue)
            && (!ok && a.followers(i).Some? ==> PartOf(queue, q, user.username, a.followers(i).value, tweet, a, i, 0))
  {
    if a.followers(i).Some? {
      var followers := a.followers(i).value;
      EnqueueExactly(queue, user, followers, tweet, a, i, 0);
      assert followers[0..] == followers;
    }
  }

  lemma FailedLater(queue: seq<Task>, q: seq<Task>, q': seq<Task>, u: string, ids: seq<nat>, a: PollAnswer, i: nat,
      n: nat)
    requires i < n < |ids| && Taken(a, i) && q == queue + TasksFor(u, FollowersAt(a, i), ids[i])
    requires FailedAt(q, q', u, ids, a, i + 1, n)
    ensures FailedAt(queue, q', u, ids, a, i, n)
  {
    Appended(queue, TasksFor(u, FollowersAt(a, i), ids[i]), TasksOf(u, ids, a, i + 1, n));
  }

  // ---------- one call ----------

  /** One poll of a user, from the state before it and the answers: an error, in which case neither a cursor nor
      the position changes and a first part of the tasks may be queued; or a success that queues every task, moves
      just the cursor of this user, and goes on to the next position. Without new tweets only the position moves. */
  predicate Polls(st: PollState, user: Account, a: PollAnswer, st': PollState, outcome: Outcome) {
    st'.users == st.users &&
    match a.timeline
    case None => outcome == Erred && st' == st
    case Some(timeline) =>
      if timeline.count == 0 then outcome == Advanced && st' == st.(index := st.index + 1)
      else if forall m | 0 <= m < |timeline.ids| :: Taken(a, m) then
        && outcome == Advanced && st'.index == st.index + 1
        && st'.queue == st.queue + TasksOf(user.username, timeline.ids, a, 0, |timeline.ids|)
        && st'.cursors == st.cursors[user.username := timeline.newest]
      else
        && outcome == Erred && st'.index == st.index && st'.cursors == st.cursors
        && exists n | 0 <= n < |timeline.ids| ::
             FailedAt(st.queue, st'.queue, user.username, timeline.ids, a, 0, n)
  }

  /** A call polls the user at the current position. At the end of the list it first fetches a new one and polls
      the user at its head; a list that cannot be fetched or is empty leaves nobody to poll. */
  lemma FetchExactly(st: PollState, a: PollAnswer)
    requires st.index <= |st.users|
    ensures var (st', outcome) := Fetch(st, a);
            if st.index < |st.users| then Polls(st, st.users[st.index], a, st', outcome)
            else match a.refresh
              case None => outcome == Erred && st' == st.(users := [], index := 0)
              case Some(users) =>
                if users == [] then outcome == Idle && st' == st.(users := [], index := 0)
                else Polls(st.(users := users, index := 0), users[0], a, st', outcome)
  {
    if a.timeline.Some? {
      var s := if st.index < |st.users| then st
               else st.(index := 0, users := if a.refresh.Some? then a.refresh.value else []);
      if s.index < |s.users| {
        HandleExactly(s.queue, s.users[s.index], a.timeline.value.ids, a, 0);
      }
    }
  }

  /** The query goes to the account of the user at the position, after that user's cursor. */
  predicate AsksFor(st: PollState, user: Account, asked: seq<Query>) {
    && |asked| == 1 && asked[0].id == user.id
    && (if user.username in st.cursors then asked[0].since == Some(st.cursors[user.username])
        else asked[0].since == None)
  }

  lemma QueryExactly(st: PollState, a: PollAnswer)
    requires st.index <= |st.users|
    ensures var asked := QueriesOf(st, a);
            if st.index < |st.users| then AsksFor(st, st.users[st.index], asked)
            else if a.refresh.Some? && a.refresh.value != [] then AsksFor(st, a.refresh.value[0], asked)
            else asked == []
  {
  }

  // ---------- a sweep ----------

  /** A poll without any failed call. */
  predicate Succeeds(a: PollAnswer) {
    a.timeline.Some? && (a.timeline.value.count > 0 ==> forall m | 0 <= m < |a.timeline.value.ids| :: Taken(a, m))
  }

  function TasksOfPoll(u: string, a: PollAnswer): seq<Task> {
    if a.timeline.Some? && a.timeline.value.count > 0
    then TasksOf(u, a.timeline.value.ids, a, 0, |a.timeline.value.ids|)
    else []
  }

  /** The tasks of the first n positions of the list: for each position those of the poll with that number. */
  function TasksOfSweep(users: seq<Account>, answers: seq<PollAnswer>, n: nat): seq<Task>
    requires n <= |users| && n <= |answers|
  {
    if n == 0 then []
    else TasksOfSweep(users, answers, n - 1) + TasksOfPoll(users[n - 1].username, answers[n - 1])
  }

  predicate HasNews(a: PollAnswer) {
    a.timeline.Some? && a.timeline.value.count > 0
  }

  /** Position k is the last one of this name, among the first n, whose poll had new tweets. */
  predicate IsLastNews(users: seq<Account>, answers: seq<PollAnswer>, n: nat, u: string, k: nat)
    requires n <= |users| && n <= |answers|
  {
    k < n && users[k].username == u && HasNews(answers[k]) && NoNews(users, answers, k + 1, n, u)
  }

  predicate NoNews(users: seq<Account>, answers: seq<PollAnswer>, from: nat, n: nat, u: string)
    requires n <= |users| && n <= |answers|
  {
    forall k | from <= k < n && users[k].username == u :: !HasNews(answers[k])
  }

  /** The cursor is the newest tweet of the last poll of the name that had new tweets, and stays without one. */
  ghost predicate CursorIsLatest(before: map<string, nat>, after: map<string, nat>, users: seq<Account>,
                           answers: seq<PollAnswer>, n: nat, u: string)
    requires n <= |users| && n <= |answers|
  {
    && (forall k: nat | IsLastNews(users, answers, n, u, k) ::
          u in after && after[u] == answers[k].timeline.value.newest)
    && (NoNews(users, answers, 0, n, u) ==> (u in after <==> u in before) && (u in before ==> after[u] == before[u]))
  }

  lemma FetchOfSweep(st: PollState, a: PollAnswer)
    requires st.index < |st.users| && Succeeds(a)
    ensures var st' := Fetch(st, a).0; var u := st.users[st.index].username;
            && st'.users == st.users && st'.index == st.index + 1 && st'.queue == st.queue + TasksOfPoll(u, a)
            && st'.cursors == if HasNews(a) then st.cursors[u := a.timeline.value.newest] else st.cursors
  {
    FetchExactly(st, a);
    assert st.queue + [] == st.queue;
  }

  /** What a sweep has done after the given polls. */
  ghost predicate SweepDone(st: PollState, answers: seq<PollAnswer>, u: string, st': PollState)
    requires |answers| <= |st.users|
  {
    && st'.users == st.users && st'.index == |answers|
    && st'.queue == st.queue + TasksOfSweep(st.users, answers, |answers|)
    && CursorIsLatest(st.cursors, st'.cursors, st.users, answers, |answers|, u)
  }

  lemma SweepGoesOn(st: PollState, answers: seq<PollAnswer>, u: string, mid: PollState)
    requires answers != [] && |answers| <= |st.users| && Succeeds(answers[|answers| - 1])
    requires SweepDone(st, answers[..|answers| - 1], u, mid)
    ensures SweepDone(st, answers, u, Fetch(mid, answers[|answers| - 1]).0)
  {
    var n := |answers| - 1;
    FetchOfSweep(mid, answers[n]);
    SameTasks(st.users, answers, n, n);
    Appended(st.queue, TasksOfSweep(st.users, answers, n), TasksOfPoll(st.users[n].username, answers[n]));
    LaterCursor(st.cursors, mid.cursors, Fetch(mid, answers[n]).0.cursors, st.users, answers, u);
  }

  lemma {:induction false} SweepServes(st: PollState, answers: seq<PollAnswer>, u: string)
    requires st.index == 0 && |answers| <= |st.users| && forall a | a in answers :: Succeeds(a)
    ensures SweepDone(st, answers, u, FetchAll(st, answers))
    decreases |answers|
  {
    if answers == [] {
      assert st.queue + [] == st.queue;
    } else {
      var front := answers[..|answers| - 1];
      assert forall a | a in front :: a in answers;
      SweepServes(st, front, u);
      SweepGoesOn(st, answers, u, FetchAll(st, front));
    }
  }

  /** Polls without errors, from the start of a list: the n-th is for the user at the n-th position, which gets
      the tasks of its new tweets in the queue and its cursor at the newest. A user that the list repeats is
      polled once for each of its positions. */
  lemma SweepServesEachPosition(st: PollState, answers: seq<PollAnswer>, u: string)
    requires st.index == 0 && |answers| <= |st.users| && forall a | a in answers :: Succeeds(a)
    ensures var st' := FetchAll(st, answers); var n := |answers|;
            && st'.users == st.users && st'.index == n
            && st'.queue == st.queue + TasksOfSweep(st.users, answers, n)
            && CursorIsLatest(st.cursors, st'.cursors, st.users, answers, n, u)
  {
    SweepServes(st, answers, u);
  }

  lemma {:induction false} SameTasks(users: seq<Account>, answers: seq<PollAnswer>, m: nat, n: nat)
    requires n <= m <= |answers| && m <= |users|
    ensures TasksOfSweep(users, answers[..m], n) == TasksOfSweep(users, answers, n)
  {
    if n > 0 {
      SameTasks(users, answers, m, n - 1);
    }
  }

  /** A last poll without news for the name makes no difference. */
  lemma NoLaterNews(users: seq<Account>, answers: seq<PollAnswer>, u: string, k: nat)
    requires answers != [] && |answers| <= |users|
    requires var n := |answers| - 1; !(users[n].username == u && HasNews(answers[n]))
    ensures var n := |answers| - 1;
            && (IsLastNews(users, answers, n + 1, u, k) <==> IsLastNews(users, answers[..n], n, u, k))
            && (NoNews(users, answers, 0, n + 1, u) ==> NoNews(users, answers[..n], 0, n, u))
  {
    var n := |answers| - 1;
    assert forall l | 0 <= l < n :: answers[..n][l] == answers[l];
  }

  lemma LastNewsIsLast(users: seq<Account>, answers: seq<PollAnswer>, u: string, k: nat)
    requires answers != [] && |answers| <= |users|
    requires var n := |answers| - 1; users[n].username == u && HasNews(answers[n])
    ensures IsLastNews(users, answers, |answers|, u, k) ==> k == |answers| - 1
    ensures !NoNews(users, answers, 0, |answers|, u)
  {
  }

  lemma LaterCursor(before: map<string, nat>, mid: map<string, nat>, after: map<string, nat>, users: seq<Account>,
                    answers: seq<PollAnswer>, u: string)
    requires answers != [] && |answers| <= |users|
    requires var n := |answers| - 1;
             && CursorIsLatest(before, mid, users, answers[..n], n, u)
             && after == if HasNews(answers[n]) then mid[users[n].username := answers[n].timeline.value.newest] else mid
    ensures CursorIsLatest(before, after, users, answers, |answers|, u)
  {
    var n := |answers| - 1;
    if users[n].username == u && HasNews(answers[n]) {
      LastNewsIsLast(users, answers, u, n);
      forall k: nat | IsLastNews(users, answers, n + 1, u, k)
        ensures u in after && after[u] == answers[k].timeline.value.newest
      {
        LastNewsIsLast(users, answers, u, k);
      }
    } else {
      NoLaterNews(users, answers, u, n);
      forall k: nat | IsLastNews(users, answers, n + 1, u, k)
        ensures u in after && after[u] == answers[k].timeline.value.newest
      {
        NoLaterNews(users, answers, u, k);
      }
    }
  }
}

/** A run of the poller that loses a tweet: a hundred and one new tweets meet one poll that succeeds. */
module PollerLimits {
  import opened Options
  import opened Poller
  import opened PollerRuns

  const POSTS: nat := MAX_RESULTS + 1

  function Stamped(n: nat): (posts: map<nat, int>)
    ensures forall t :: t in posts <==> 1 <= t <= n
    ensures forall t | t in posts :: posts[t] == t
  {
    if n == 0 then map[] else Stamped(n - 1)[n := n]
  }

  /** One bridged account with its first n tweets, and nothing polled yet. */
  function Having(n: nat): World {
    World(PollState([Account("u", "i")], 0, map[], []), if n == 0 then map[] else map["i" := Stamped(n)],
          map["u" := "i"], 0, map[], map[], map[], [])
  }

  /** The newest hundred tweets are returned, the table has one follower, the queue takes every task. */
  function Everything(): PollAnswer {
    PollAnswer(None, Some(Timeline(MAX_RESULTS, Newest(), POSTS)), i => Some(["x"]), (i, j) => Accepted)
  }

  function Newest(): seq<nat> {
    seq(MAX_RESULTS, i requires 0 <= i < MAX_RESULTS => i + 2)
  }

  /** The posts up to the n-th, and then the poll. */
  function PostsAndPoll(n: nat): seq<Event> {
    seq(n + 1, k requires 0 <= k <= n => if k < n then Post("i", k + 1, k + 1) else Poll(Everything()))
  }

  lemma RunStep(w: World, events: seq<Event>, next: World)
    requires events != [] && Valid(w, events[0]) && Apply(w, events[0]) == next && ValidRun(next, events[1..])
    ensures Run(w, events) == Run(next, events[1..]) && ValidRun(w, events)
  {
  }

  lemma PostsOne(k: nat)
    ensures Apply(Having(k), Post("i", k + 1, k + 1)) == Having(k + 1) && Valid(Having(k), Post("i", k + 1, k + 1))
  {
    assert Stamped(k + 1) == Stamped(k)[k + 1 := k + 1];
  }

  lemma WindowOfAll()
    ensures var window := Window(ViewOf(Having(POSTS), "u"));
            |window| == POSTS && forall t :: t in window <==> 1 <= t <= POSTS
  {
    var all := seq(POSTS, i requires 0 <= i < POSTS => i + 1);
    SetOfDistinct(all);
    forall t ensures t in Elements(all) <==> 1 <= t <= POSTS {
      if 1 <= t <= POSTS {
        assert all[t - 1] == t;
      }
    }
    assert Window(ViewOf(Having(POSTS), "u")) == Elements(all);
  }

  lemma TheAnswerIsHonest()
    ensures Valid(Having(POSTS), Poll(Everything()))
  {
    WindowOfAll();
    var window, ids := Window(ViewOf(Having(POSTS), "u")), Newest();
    forall t ensures t in ids <==> 2 <= t <= POSTS {
      if 2 <= t <= POSTS {
        assert ids[t - 2] == t;
      }
    }
    assert HonestTimeline(window, Everything().timeline.value);
  }

  lemma {:induction false} NothingFails(queue: seq<Task>, user: Account, ids: seq<nat>, i: nat)
    ensures HandleFrom(queue, user, ids, Everything(), i).1
    decreases |ids| - i
  {
    if i < |ids| {
      NothingFails(HandleOne(queue, user, ids[i], Everything(), i).0, user, ids, i + 1);
    }
  }

  /** The poll succeeds, and the cursor is past the first tweet, which it did not serve. */
  lemma TheFirstIsPassed()
    ensures var w := Apply(Having(POSTS), Poll(Everything()));
            Due(ViewOf(w, "u"), 1) && 1 !in ViewOf(w, "u").served && Lookup(w.failures, "u", 0) == 0
  {
    var w, a := Having(POSTS), Everything();
    NothingFails([], Account("u", "i"), Newest(), 0);
    assert Moves(w, a, "u");
    PollView(w, a, "u");
    PollFailures(w, a, "u");
  }

  lemma QueuedForNobody(w: World, events: seq<Event>, u: string, t: nat)
    requires Initial(w) && ValidRun(w, events)
    requires Lookup(Run(w, events).failures, u, 0) == 0 && t !in ViewOf(Run(w, events), u).served
    ensures forall x :: SendTweet(u, x, t) !in Run(w, events).poll.queue
  {
    forall x ensures SendTweet(u, x, t) !in Run(w, events).poll.queue {
      UnservedIsNeverQueued(w, events, u, x, t);
    }
  }

  lemma EventsFrom(n: nat, k: nat)
    requires k <= n
    ensures var events := PostsAndPoll(n)[k..];
            && events[0] == (if k < n then Post("i", k + 1, k + 1) else Poll(Everything()))
            && events[1..] == PostsAndPoll(n)[k + 1..]
  {
  }

  lemma LastEvent(w: World, end: World)
    requires Valid(w, Poll(Everything())) && Apply(w, Poll(Everything())) == end
    ensures Run(w, [Poll(Everything())]) == end && ValidRun(w, [Poll(Everything())])
  {
    assert Run(end, []) == end && ValidRun(end, []);
    RunStep(w, [Poll(Everything())], end);
  }

  /** The rest of the run once the first k tweets are posted. */
  lemma {:induction false} RunPosts(n: nat, k: nat)
    requires k <= n && Valid(Having(n), Poll(Everything()))
    ensures Run(Having(k), PostsAndPoll(n)[k..]) == Apply(Having(n), Poll(Everything()))
    ensures ValidRun(Having(k), PostsAndPoll(n)[k..])
    decreases n - k
  {
    EventsFrom(n, k);
    if k == n {
      assert PostsAndPoll(n)[k..] == [Poll(Everything())];
      LastEvent(Having(n), Apply(Having(n), Poll(Everything())));
    } else {
      PostsOne(k);
      RunPosts(n, k + 1);
      RunStep(Having(k), PostsAndPoll(n)[k..], Having(k + 1));
    }
  }

  /** With no failure anywhere, a tweet of the account that the cursor has passed is queued for nobody. */
  lemma TheOldestIsLost()
    ensures exists w: World, events: seq<Event> :: Initial(w) && ValidRun(w, events)
              && Due(ViewOf(Run(w, events), "u"), 1) && Lookup(Run(w, events).failures, "u", 0) == 0
              && forall x :: SendTweet("u", x, 1) !in Run(w, events).poll.queue
  {
    TheAnswerIsHonest();
    RunPosts(POSTS, 0);
    assert PostsAndPoll(POSTS)[0..] == PostsAndPoll(POSTS);
    TheFirstIsPassed();
    QueuedForNobody(Having(0), PostsAndPoll(POSTS), "u", 1);
    assert Initial(Having(0));
  }
}

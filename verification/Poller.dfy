/** The poller (internal/twitter/poller/poller.go). Tweet IDs are compared as numbers by Twitter; here they
    are natural numbers. */
module Poller {
  import opened Options

  datatype Account = Account(username: string, id: string)

  datatype Task = SendTweet(from: string, to: string, tweet: nat)

  datatype Timeline = Timeline(count: nat, ids: seq<nat>, newest: nat)

  /** The queue accepts a task, or reports an error although the task may have been added. */
  datatype Enqueue = Accepted | Refused(added: bool)

  /** What the outside says during one FetchTweets. None is an error.
      refresh:   the rows of GetWithFollowers, one per pair of a user and a follower
      timeline:  the answer of the tweet timeline
      followers: the answer of GetFollowers for the i-th tweet of the timeline
      enqueue:   the answer of the queue for the i-th tweet and its j-th follower */
  datatype PollAnswer = PollAnswer(
    refresh: Option<seq<Account>>, timeline: Option<Timeline>,
    followers: nat -> Option<seq<string>>, enqueue: (nat, nat) -> Enqueue)

  datatype PollState = PollState(
    users: seq<Account>, index: nat, cursors: map<string, nat>, queue: seq<Task>)

  datatype Outcome = Advanced | Idle | Erred

  /** What a poll asks Twitter: the tweets of an account after a tweet, or without one those since the poller
      started. */
  datatype Query = Query(id: string, since: Option<nat>)

  // ---------- what one call does ----------

  function EnqueueFrom(
    queue: seq<Task>, user: Account, actors: seq<string>, tweet: nat, a: PollAnswer, i: nat, j: nat): (seq<Task>, bool)
    decreases |actors| - j
  {
    if j >= |actors| then (queue, true)
    else
      var added := queue + [SendTweet(user.username, actors[j], tweet)];
      match a.enqueue(i, j)
      case Accepted => EnqueueFrom(added, user, actors, tweet, a, i, j + 1)
      case Refused(wasAdded) => (if wasAdded then added else queue, false)
  }

  function HandleOne(queue: seq<Task>, user: Account, tweet: nat, a: PollAnswer, i: nat): (seq<Task>, bool) {
    match a.followers(i)
    case None => (queue, false)
    case Some(actors) => EnqueueFrom(queue, user, actors, tweet, a, i, 0)
  }

  function HandleFrom(queue: seq<Task>, user: Account, ids: seq<nat>, a: PollAnswer, i: nat): (seq<Task>, bool)
    decreases |ids| - i
  {
    if i >= |ids| then (queue, true)
    else
      var (q, ok) := HandleOne(queue, user, ids[i], a, i);
      if ok then HandleFrom(q, user, ids, a, i + 1) else (q, false)
  }

  /** At the end of the list the sweep starts over with a new list; a failed query leaves none. */
  function Swept(st: PollState, a: PollAnswer): PollState {
    if |st.users| == st.index then
      st.(index := 0, users := if a.refresh.Some? then a.refresh.value else [])
    else st
  }

  /** Whose timeline the call asks for, if it gets that far. */
  function Polled(st: PollState, a: PollAnswer): Option<Account> {
    var s := Swept(st, a);
    if s.index < |s.users| then Some(s.users[s.index]) else None
  }

  function QueryFor(st: PollState, user: Account): Query {
    Query(user.id, if user.username in st.cursors then Some(st.cursors[user.username]) else None)
  }

  /** The query of the call; a call without a user to poll asks nothing. */
  function QueriesOf(st: PollState, a: PollAnswer): seq<Query> {
    var user := Polled(st, a);
    if user.Some? then [QueryFor(st, user.value)] else []
  }

  /** With no user to poll: an error when the refresh failed, nothing when the table is empty, and otherwise
      the index is out of range and the panic is recovered into an error. */
  function Fetch(st: PollState, a: PollAnswer): (PollState, Outcome) {
    var s := Swept(st, a);
    match Polled(st, a)
    case None => (s, if |st.users| == st.index && a.refresh.Some? then Idle else Erred)
    case Some(user) => FetchUser(s, user, a)
  }

  function FetchUser(s: PollState, user: Account, a: PollAnswer): (PollState, Outcome) {
    match a.timeline
    case None => (s, Erred)
    case Some(timeline) =>
      if timeline.count == 0 then (s.(index := s.index + 1), Advanced)
      else
        var (queue, ok) := HandleFrom(s.queue, user, timeline.ids, a, 0);
        if ok then
          (s.(queue := queue, cursors := s.cursors[user.username := timeline.newest], index := s.index + 1), Advanced)
        else (s.(queue := queue), Erred)
  }

  function FetchAll(st: PollState, answers: seq<PollAnswer>): PollState {
    if answers == [] then st
    else Fetch(FetchAll(st, answers[..|answers| - 1]), answers[|answers| - 1]).0
  }

  /** The n-th question for users is the first that is answered with some, after answers with none. */
  predicate IsFirstList(refreshes: seq<Option<seq<Account>>>, n: nat)
    requires n < |refreshes|
  {
    refreshes[n].Some? && refreshes[n].value != [] && forall k | 0 <= k < n :: refreshes[k] == Some([])
  }

  class TwitterPoller {
    var users: seq<Account>
    var userIndex: nat
    var userCursors: map<string, nat>
    var queue: seq<Task>
    /** The queries so far. */
    var asked: seq<Query>

    constructor ()
      ensures State() == PollState([], 0, map[], []) && asked == []
    {
      asked := [];
      users := [];
      userIndex := 0;
      userCursors := map[];
      queue := [];
    }

    ghost function State(): PollState
      reads this
    {
      PollState(users, userIndex, userCursors, queue)
    }

    /** True unless the query failed or found nobody. */
    method RefreshUserList(answer: Option<seq<Account>>) returns (ok: bool)
      modifies this`users
      ensures users == if answer.Some? then answer.value else []
      ensures ok <==> answer.Some? && answer.value != []
    {
      users := if answer.Some? then answer.value else [];
      ok := |users| != 0;
    }

    method HandleTweet(user: Account, tweet: nat, a: PollAnswer, i: nat) returns (ok: bool)
      modifies this`queue
      ensures (queue, ok) == HandleOne(old(queue), user, tweet, a, i)
    {
      var actors := a.followers(i);
      if actors.None? {
        return false;
      }
      var j := 0;
      while j < |actors.value|
        invariant 0 <= j <= |actors.value|
        invariant EnqueueFrom(old(queue), user, actors.value, tweet, a, i, 0)
               == EnqueueFrom(queue, user, actors.value, tweet, a, i, j)
      {
        var task := SendTweet(user.username, actors.value[j], tweet);
        match a.enqueue(i, j) {
          case Accepted =>
            queue := queue + [task];
          case Refused(added) =>
            queue := if added then queue + [task] else queue;
            return false;
        }
        j := j + 1;
      }
      return true;
    }

    method FetchTweets(a: PollAnswer) returns (outcome: Outcome)
      modifies this
      ensures asked == old(asked) + QueriesOf(old(State()), a)
      ensures (State(), outcome) == Fetch(old(State()), a)
    {
      if |users| == userIndex {
        userIndex := 0;
        var ok := RefreshUserList(a.refresh);
        if !ok {
          return if a.refresh.Some? then Idle else Erred;
        }
      }
      if userIndex >= |users| {
        return Erred;
      }
      outcome := PollUser(users[userIndex], a);
    }

    /** The rest of FetchTweets, once the user is known. */
    method PollUser(user: Account, a: PollAnswer) returns (outcome: Outcome)
      modifies this`queue, this`userCursors, this`userIndex, this`asked
      ensures asked == old(asked) + [QueryFor(old(State()), user)]
      ensures (State(), outcome) == FetchUser(old(State()), user, a)
    {
      var since := if user.username in userCursors then Some(userCursors[user.username]) else None;
      asked := asked + [Query(user.id, since)];
      if a.timeline.None? {
        return Erred;
      }
      var timeline := a.timeline.value;
      if timeline.count > 0 {
        var i := 0;
        while i < |timeline.ids|
          invariant 0 <= i <= |timeline.ids|
          invariant userCursors == old(userCursors) && userIndex == old(userIndex)
          invariant asked == old(asked) + [QueryFor(old(State()), user)]
          invariant HandleFrom(old(queue), user, timeline.ids, a, 0) == HandleFrom(queue, user, timeline.ids, a, i)
        {
          var ok := HandleTweet(user, timeline.ids[i], a, i);
          if !ok {
            return Erred;
          }
          i := i + 1;
        }
        userCursors := userCursors[user.username := timeline.newest];
      }
      userIndex := userIndex + 1;
      return Advanced;
    }

    /** Asks for the user list until it gets users or an error. */
    method FindUsers(refreshes: seq<Option<seq<Account>>>) returns (found: bool, ghost n: nat)
      requires users == []
      modifies this`users
      ensures if found then n < |refreshes| && IsFirstList(refreshes, n) && users == refreshes[n].value
              else users == [] && forall k | 0 <= k < |refreshes| :: !IsFirstList(refreshes, k)
    {
      n := 0;
      var next := 0;
      while next < |refreshes|
        invariant 0 <= next <= |refreshes| && users == []
        invariant forall k | 0 <= k < next :: refreshes[k] == Some([])
      {
        found := RefreshUserList(refreshes[next]);
        if found {
          return true, next;
        }
        if refreshes[next].None? {
          return false, 0;
        }
        next := next + 1;
      }
      found := false;
    }

    /** The service's loop, stopped after the given ticks. Before the first tick it asks for the user list:
        an error of the first query or of a repeated one ends it, an empty table makes it ask again. */
    method Start(refreshes: seq<Option<seq<Account>>>, ticks: seq<PollAnswer>) returns (started: bool)
      requires users == [] && userIndex == 0
      modifies this
      ensures started <==> exists n | 0 <= n < |refreshes| :: IsFirstList(refreshes, n)
      ensures forall n | 0 <= n < |refreshes| && IsFirstList(refreshes, n) ::
                State() == FetchAll(old(State()).(users := refreshes[n].value), ticks)
      ensures !started ==> State() == old(State())
    {
      ghost var first;
      started, first := FindUsers(refreshes);
      if !started {
        return;
      }
      assert forall n | 0 <= n < |refreshes| && IsFirstList(refreshes, n) :: n == first;
      ghost var list := users;
      for i := 0 to |ticks|
        invariant State() == FetchAll(old(State()).(users := list), ticks[..i])
      {
        var _ := FetchTweets(ticks[i]);
        assert ticks[..i + 1][..i] == ticks[..i];
      }
      assert ticks[..|ticks|] == ticks;
    }
  }
}

/** One send-tweet task: the handler, the error wrapper and the retries of the queue. */
module SendTask {
  import opened Options
  import opened Poller
  import opened PollerRuns

  datatype Saving = Saved | RateLimited | SavingFailed

  datatype Posting = InboxAccepted | InboxRefused | PostingFailed

  /** What happens to one attempt, call by call. */
  datatype Attempt = Attempt(
    decodes: bool, saving: Saving, userFound: bool, actorFound: bool, noteBuilt: bool, posting: Posting)

  datatype TaskError = TaskError(skipRetry: bool)

  /** What the queue sees: done, archived without another try, or to be tried again. */
  datatype Verdict = Finished | Archived | Retried

  /** asynq.MaxRetry(5): six attempts in all. */
  const MAX_RETRY := 5

  /** The attempt gets as far as the POST to the inbox. */
  predicate Posts(a: Attempt) {
    a.decodes && a.saving.Saved? && a.userFound && a.actorFound && a.noteBuilt
  }

  predicate HitsTheRateLimit(a: Attempt) {
    a.decodes && a.saving.RateLimited?
  }

  function Handle(a: Attempt): Option<TaskError> {
    if Posts(a) && a.posting.InboxAccepted? then None
    else Some(TaskError(!HitsTheRateLimit(a)))
  }

  function Wrap(err: Option<TaskError>): Verdict {
    if err.None? then Finished else if err.value.skipRetry then Archived else Retried
  }

  class Worker {
    var posted: nat

    /** HandleSendTweet: each call may end it. */
    method HandleSendTweet(a: Attempt) returns (err: Option<TaskError>)
      modifies this
      ensures err == Handle(a)
      ensures posted == old(posted)
                        + if a.decodes && a.saving.Saved? && a.userFound && a.actorFound && a.noteBuilt then 1 else 0
      ensures err.None? <==> posted > old(posted) && a.posting.InboxAccepted?
      ensures err.Some? ==> (err.value.skipRetry <==> !(a.decodes && a.saving.RateLimited?))
    {
      if !a.decodes {
        return Some(TaskError(true));
      }
      if !a.saving.Saved? {
        return Some(TaskError(!a.saving.RateLimited?));
      }
      if !a.userFound {
        return Some(TaskError(true));
      }
      if !a.actorFound {
        return Some(TaskError(true));
      }
      if !a.noteBuilt {
        return Some(TaskError(true));
      }
      posted := posted + 1;
      match a.posting {
        case InboxAccepted => return None;
        case InboxRefused => return Some(TaskError(true));
        case PostingFailed => return Some(TaskError(true));
      }
    }

    /** ErrorHandler around it. */
    method Process(a: Attempt) returns (verdict: Verdict)
      modifies this
      ensures verdict == Wrap(Handle(a))
      ensures posted == old(posted)
                        + if a.decodes && a.saving.Saved? && a.userFound && a.actorFound && a.noteBuilt then 1 else 0
      ensures verdict == Finished <==> posted > old(posted) && a.posting.InboxAccepted?
      ensures verdict == Retried <==> a.decodes && a.saving.RateLimited?
    {
      var err := HandleSendTweet(a);
      if err.Some? {
        return if err.value.skipRetry then Archived else Retried;
      }
      return Finished;
    }

    /** The queue runs the task until it is finished, archived or out of retries; the verdict is the last one. */
    method RunTask(attempts: nat -> Attempt) returns (verdict: Verdict)
      modifies this
      ensures posted == old(posted) + PostsFrom(attempts, 0)
      ensures verdict == VerdictFrom(attempts, 0)
    {
      var n := 0;
      verdict := Retried;
      while n <= MAX_RETRY
        invariant posted + PostsFrom(attempts, n) == old(posted) + PostsFrom(attempts, 0)
        invariant verdict == Retried && VerdictFrom(attempts, n) == VerdictFrom(attempts, 0)
        decreases MAX_RETRY + 1 - n
      {
        verdict := Process(attempts(n));
        if !verdict.Retried? {
          return;
        }
        n := n + 1;
      }
    }
  }

  /** The POSTs of the attempts from the n-th on. */
  function PostsFrom(attempts: nat -> Attempt, n: nat): nat
    decreases MAX_RETRY + 1 - n
  {
    if n > MAX_RETRY then 0
    else
      (if Posts(attempts(n)) then 1 else 0) +
      if Wrap(Handle(attempts(n))).Retried? then PostsFrom(attempts, n + 1) else 0
  }

  /** The verdict on the last of the attempts from the n-th on. */
  function VerdictFrom(attempts: nat -> Attempt, n: nat): Verdict
    decreases MAX_RETRY + 1 - n
  {
    if n > MAX_RETRY then Retried
    else
      var verdict := Wrap(Handle(attempts(n)));
      if verdict.Retried? then VerdictFrom(attempts, n + 1) else verdict
  }

  /** The k-th attempt is the first from the n-th on that meets no rate limit. */
  predicate Decides(attempts: nat -> Attempt, n: nat, k: nat) {
    && n <= k < 6 && !(attempts(k).decodes && attempts(k).saving.RateLimited?)
    && forall i: nat | n <= i < k :: attempts(i).decodes && attempts(i).saving.RateLimited?
  }

  /** A task is finished exactly when the first attempt without a rate limit posts and the inbox accepts, archived
      exactly when there is such an attempt and it does not, and still to be retried when all of them meet rate
      limits. */
  lemma {:induction false} VerdictExactly(attempts: nat -> Attempt, n: nat)
    ensures VerdictFrom(attempts, n) == Finished
       <==> exists k: nat :: Decides(attempts, n, k) && Posts(attempts(k)) && attempts(k).posting.InboxAccepted?
    ensures VerdictFrom(attempts, n) == Archived
       <==> exists k: nat :: Decides(attempts, n, k) && !(Posts(attempts(k)) && attempts(k).posting.InboxAccepted?)
    ensures VerdictFrom(attempts, n) == Retried
       <==> forall i: nat | n <= i < 6 :: attempts(i).decodes && attempts(i).saving.RateLimited?
    decreases MAX_RETRY + 1 - n
  {
    if n <= MAX_RETRY {
      if attempts(n).decodes && attempts(n).saving.RateLimited? {
        VerdictExactly(attempts, n + 1);
        forall k: nat ensures Decides(attempts, n, k) <==> Decides(attempts, n + 1, k) {
        }
      } else {
        assert Decides(attempts, n, n);
        forall k: nat | Decides(attempts, n, k) ensures k == n {
        }
      }
    }
  }

  /** One of the attempts from the n-th on posts, after nothing but rate limits. */
  predicate GetsThrough(attempts: nat -> Attempt, n: nat) {
    exists k: nat | n <= k <= MAX_RETRY ::
      Posts(attempts(k)) && forall i: nat | n <= i < k :: HitsTheRateLimit(attempts(i))
  }

  /** A task POSTs at most once over all its attempts, and it does so exactly when one of the six attempts
      gets through after nothing but rate limits. */
  lemma {:induction false} PostsOnceExactly(attempts: nat -> Attempt, n: nat)
    ensures PostsFrom(attempts, n) <= 1
    ensures PostsFrom(attempts, n) == 1 <==> GetsThrough(attempts, n)
    decreases MAX_RETRY + 1 - n
  {
    if n <= MAX_RETRY {
      if HitsTheRateLimit(attempts(n)) {
        PostsOnceExactly(attempts, n + 1);
      }
    }
  }

  // ---------- from the poll to the POST ----------

  /** The POSTs made for one task, when entry i of the queue runs with the attempts `runs(i)`. */
  function TotalPosts(queue: seq<Task>, runs: nat -> nat -> Attempt, task: Task): nat {
    if queue == [] then 0
    else
      var n := |queue| - 1;
      TotalPosts(queue[..n], runs, task) + if queue[n] == task then PostsFrom(runs(n), 0) else 0
  }

  lemma {:induction false} OnePostPerEntry(queue: seq<Task>, runs: nat -> nat -> Attempt, task: Task)
    ensures TotalPosts(queue, runs, task) <= Times(queue, task)
  {
    if queue != [] {
      var n := |queue| - 1;
      OnePostPerEntry(queue[..n], runs, task);
      PostsOnceExactly(runs(n), 0);
      assert queue == queue[..n] + [queue[n]];
    }
  }

  /** From the poll to the inbox: over any run of the poller and any fate of its tasks, a tweet of u reaches
      the inbox of a follower at most once more often than polls of u failed. */
  lemma InboxPostsAreBounded(w: World, events: seq<Event>, runs: nat -> nat -> Attempt, task: Task)
    requires Initial(w) && ValidRun(w, events)
    ensures var end := Run(w, events);
            TotalPosts(end.poll.queue, runs, task) <= Lookup(end.failures, task.from, 0) + 1
  {
    OnePostPerEntry(Run(w, events).poll.queue, runs, task);
    DuplicatesAreBounded(w, events, task);
  }

  /** One of the entries of the queue for the task gets through. */
  predicate EntryGetsThrough(queue: seq<Task>, runs: nat -> nat -> Attempt, task: Task) {
    exists i | 0 <= i < |queue| :: queue[i] == task && GetsThrough(runs(i), 0)
  }

  lemma {:induction false} QueuedIsPosted(queue: seq<Task>, runs: nat -> nat -> Attempt, task: Task)
    ensures TotalPosts(queue, runs, task) >= 1 <==> EntryGetsThrough(queue, runs, task)
  {
    if queue != [] {
      var n := |queue| - 1;
      QueuedIsPosted(queue[..n], runs, task);
      PostsOnceExactly(runs(n), 0);
      assert forall i | 0 <= i < n :: queue[..n][i] == queue[i];
    }
  }

  /** A tweet that no poll of u skipped is queued for the follower, and reaches its inbox exactly when one of
      its entries in the queue gets through. */
  lemma DueTweetsAreDelivered(w: World, events: seq<Event>, runs: nat -> nat -> Attempt, u: string, t: nat, x: string)
    requires Initial(w) && ValidRun(w, events)
    requires var v := ViewOf(Run(w, events), u);
             v.widest <= MAX_RESULTS && Due(v, t) && (t in v.served ==> x in v.served[t])
    ensures var queue := Run(w, events).poll.queue;
            && SendTweet(u, x, t) in queue
            && (TotalPosts(queue, runs, SendTweet(u, x, t)) >= 1 <==> EntryGetsThrough(queue, runs, SendTweet(u, x, t)))
  {
    NoTweetIsLostExactly(w, events, u);
    QueuedIsPosted(Run(w, events).poll.queue, runs, SendTweet(u, x, t));
  }
}

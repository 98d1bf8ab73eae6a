/** The promises of the inbox: over every run of concurrent requests, and for requests that run alone. */
module InboxRuns {
  import opened Options
  import opened Text
  import opened Users
  import opened Voter
  import opened Inbox
  import opened InboxSafety

  // ---------- every run ----------

  lemma {:induction false} InTrace(log: seq<Effect>, e: Effect)
    requires e in log
    ensures e in Trace(log, e.request)
  {
    var n := |log| - 1;
    if log[n] != e {
      assert log == log[..n] + [log[n]];
      InTrace(log[..n], e);
    }
  }

  lemma TracePrefix(log: seq<Effect>, n: nat)
    requires log != []
    ensures var front := Trace(log[..|log| - 1], n);
            |front| <= |Trace(log, n)| && forall p | 0 <= p < |front| :: Trace(log, n)[p] == front[p]
  {
  }

  lemma {:induction false} InOrder(log: seq<Effect>, i: nat, j: nat)
    requires i < j < |log| && log[i].request == log[j].request
    ensures var trace := Trace(log, log[i].request);
            exists p, q | 0 <= p < q < |trace| :: trace[p] == log[i] && trace[q] == log[j]
  {
    var n := |log| - 1;
    var trace, front := Trace(log, log[i].request), Trace(log[..n], log[i].request);
    if j < n {
      InOrder(log[..n], i, j);
      TracePrefix(log, log[i].request);
      var p, q :| 0 <= p < q < |front| && front[p] == log[..n][i] && front[q] == log[..n][j];
      assert trace[p] == front[p] && trace[q] == front[q];
    } else {
      assert j == n && log[..n][i] in log[..n];
      InTrace(log[..n], log[i]);
      var p :| 0 <= p < |front| && front[p] == log[i];
      var q := |front|;
      TracePrefix(log, log[i].request);
      assert trace == front + [log[n]];
      assert 0 <= p < q < |trace| && trace[p] == log[i] && trace[q] == log[j];
    }
  }

  predicate IsAnswer(e: Effect) {
    e.Accepted? || e.Rejected?
  }

  lemma RunOk(c: Config, users: seq<User>, events: seq<Event>)
    ensures Inv(c, Exec(c, Start(users), events))
  {
    ExecKeepsInv(c, Start(users), events);
  }

  /** A request schedules at most one of Accept and Reject. */
  lemma AtMostOneAnswer(c: Config, users: seq<User>, events: seq<Event>, i: nat, j: nat)
    requires var log := Exec(c, Start(users), events).world.log;
             i < |log| && j < |log| && IsAnswer(log[i]) && IsAnswer(log[j]) && log[i].request == log[j].request
    ensures i == j
  {
    var sys := Exec(c, Start(users), events);
    var log, n := sys.world.log, Exec(c, Start(users), events).world.log[i].request;
    RunOk(c, users, events);
    assert log[i] in log;
    assert TaskOk(c, sys.world, n, sys.tasks[n]);
    if i < j {
      InOrder(log, i, j);
    } else if j < i {
      InOrder(log, j, i);
    }
  }

  lemma AcceptanceShape(trace: seq<Effect>, req: Request, ph: Phase, e: Effect)
    requires Shape(trace, req, ph) && e in trace && e.Accepted?
    ensures IsAcceptance(trace)
  {
  }

  /** An Accept is scheduled only after the request has inserted its own pair. */
  lemma AcceptAfterOwnInsert(c: Config, users: seq<User>, events: seq<Event>, j: nat)
    requires var log := Exec(c, Start(users), events).world.log; j < |log| && log[j].Accepted?
    ensures var log := Exec(c, Start(users), events).world.log;
            exists i | 0 <= i < j :: log[i].Inserted? && log[i].request == log[j].request && log[i].user == log[j].user
  {
    var sys := Exec(c, Start(users), events);
    var log, n := sys.world.log, sys.world.log[j].request;
    RunOk(c, users, events);
    assert log[j] in log;
    assert TaskOk(c, sys.world, n, sys.tasks[n]);
    InTrace(log, log[j]);
    AcceptanceShape(Trace(log, n), sys.tasks[n].req, sys.tasks[n].phase, log[j]);
    AcceptanceInOrder(log, n, j);
  }

  lemma AcceptanceInOrder(log: seq<Effect>, n: nat, j: nat)
    requires j < |log| && log[j].Accepted? && log[j].request == n && IsAcceptance(Trace(log, n))
    requires log[j] in Trace(log, n)
    ensures exists i | 0 <= i < j :: log[i].Inserted? && log[i].request == n && log[i].user == log[j].user
  {
    var i := FromTrace(log, n, Trace(log, n)[0]);
    if j < i {
      InOrder(log, j, i);
    }
  }

  /** A Reject is scheduled only by a request that inserts nothing. */
  lemma RejectInsertsNothing(c: Config, users: seq<User>, events: seq<Event>, i: nat, j: nat)
    requires var log := Exec(c, Start(users), events).world.log;
             i < |log| && j < |log| && log[i].Inserted? && log[j].Rejected?
    ensures var log := Exec(c, Start(users), events).world.log; log[i].request != log[j].request
  {
    var sys := Exec(c, Start(users), events);
    var log, n := sys.world.log, sys.world.log[j].request;
    RunOk(c, users, events);
    assert log[j] in log;
    assert TaskOk(c, sys.world, n, sys.tasks[n]);
    InTrace(log, log[i]);
    InTrace(log, log[j]);
  }

  lemma {:induction false} FromTrace(log: seq<Effect>, n: nat, e: Effect) returns (i: nat)
    requires e in Trace(log, n)
    ensures i < |log| && log[i] == e && e.request == n
  {
    var last := |log| - 1;
    if e in Trace(log[..last], n) {
      i := FromTrace(log[..last], n, e);
    } else {
      i := last;
    }
  }

  /** Every effect was one its request is entitled to: an actor enters or leaves the table only by a request
      of its own about the user the request names, and enters only if it is allowed to follow. */
  lemma EffectsAreEntitled(c: Config, users: seq<User>, events: seq<Event>)
    ensures var sys := Exec(c, Start(users), events);
            forall e | e in sys.world.log ::
                e.request < |sys.tasks| && Entitled(c, sys.world, sys.tasks[e.request].req, e)
  {
    var sys := Exec(c, Start(users), events);
    RunOk(c, users, events);
    forall e | e in sys.world.log
      ensures e.request < |sys.tasks| && Entitled(c, sys.world, sys.tasks[e.request].req, e)
    {
      InTrace(sys.world.log, e);
      assert TaskOk(c, sys.world, e.request, sys.tasks[e.request]);
    }
  }

  /** Every row of the follower table joins a user that exists and an actor that exists and is authorised. */
  lemma FollowersAreAuthorised(c: Config, users: seq<User>, events: seq<Event>, user: string, actor: string)
    requires (user, actor) in Exec(c, Start(users), events).world.followers
    ensures var w := Exec(c, Start(users), events).world;
            && HasName(w.users, user)
            && exists row | row in w.actors :: row.id == actor && IsGranted(c.voters, [Some(row.url)], CanFollow)
  {
    var sys := Exec(c, Start(users), events);
    RunOk(c, users, events);
    LastEffectDecides(c, users, events, user, actor);
    EffectsAreEntitled(c, users, events);
    var log := sys.world.log;
    var i :| 0 <= i < |log| && log[i].Inserted? && Touches(log[i], user, actor);
    var req := sys.tasks[log[i].request].req;
    assert Entitled(c, sys.world, req, log[i]);
    var row :| row in sys.world.actors && row.id == actor && SingleIri(req.actor) == Some(row.url);
    assert req.actor == [Some(row.url)];
  }

  /** Concurrent requests of a new actor never give it two rows, and no two actors share an identifier. */
  lemma OneRowPerActor(c: Config, users: seq<User>, events: seq<Event>)
    ensures ActorsDistinct(Exec(c, Start(users), events).world.actors)
  {
    RunOk(c, users, events);
  }

  // ---------- one request alone ----------

  /** Every call succeeds, and a new actor gets an identifier that no row has. */
  ghost predicate Reliable(env: nat -> Answer, w: World, clock: nat) {
    forall k: nat | k >= clock :: env(k).ok && !KnownActor(w.actors, env(k).id)
  }

  function Run(c: Config, env: nat -> Answer, w: World, n: nat, req: Request, clock: nat): Final {
    Finish(c, env, w, n, req, Begin(c, req), clock)
  }

  /** The world once the actor has a row, and the identifier in it. */
  function Enrolled(env: nat -> Answer, w: World, url: Url, clock: nat): (World, string) {
    match FindActor(w.actors, url)
    case Some(row) => (w, row.id)
    case None => (w.(actors := w.actors + [ActorRow(env(clock + 2).id, url, env(clock + 1).key)]), env(clock + 2).id)
  }

  /** At most a row for the actor has come. */
  predicate OnlyEnrolls(w: World, w': World) {
    w' == w.(actors := w'.actors) && w.actors <= w'.actors
  }

  /** Either the actor gets or has its row, or a call fails and the request ends. */
  lemma FindsActor(c: Config, env: nat -> Answer, w: World, n: nat, req: Request, user: string, url: Url, clock: nat)
    returns (later: nat, found: bool)
    ensures var f := Finish(c, env, w, n, req, FindingActor(user, url), clock);
            var (w', actor) := Enrolled(env, w, url, clock);
            if found then
              && (FindActor(w.actors, url).None? ==> !KnownActor(w.actors, actor))
              && later > clock && f == Finish(c, env, w', n, req, AfterActor(c, req, user, actor), later)
            else f.outcome == Broken && (f.world == w || f.world == w')
    ensures Reliable(env, w, clock) ==> found
  {
    var (w', actor) := Enrolled(env, w, url, clock);
    found := env(clock).ok;
    if !env(clock).ok {
      later := clock;
      LastStep(c, env, w, n, req, FindingActor(user, url), clock, w, Broken);
    } else if FindActor(w.actors, url).Some? {
      later := clock + 1;
      FinishStep(c, env, w, n, req, FindingActor(user, url), clock, w, AfterActor(c, req, user, actor));
    } else {
      FinishStep(c, env, w, n, req, FindingActor(user, url), clock, w, FetchingKey(user, url));
      later, found := CreatesActor(c, env, w, n, req, user, url, clock);
    }
  }

  lemma CreatesActor(c: Config, env: nat -> Answer, w: World, n: nat, req: Request, user: string, url: Url, clock: nat)
    returns (later: nat, found: bool)
    requires FindActor(w.actors, url).None?
    ensures var f := Finish(c, env, w, n, req, FetchingKey(user, url), clock + 1);
            var (w', actor) := Enrolled(env, w, url, clock);
            if found then
              && !KnownActor(w.actors, actor)
              && later > clock && f == Finish(c, env, w', n, req, AfterActor(c, req, user, actor), later)
            else f.outcome == Broken && (f.world == w || f.world == w')
    ensures Reliable(env, w, clock) ==> found
  {
    var (w', actor) := Enrolled(env, w, url, clock);
    later := clock + 3;
    found := env(clock + 1).ok && env(clock + 2).ok && !KnownActor(w.actors, actor);
    if !env(clock + 1).ok {
      LastStep(c, env, w, n, req, FetchingKey(user, url), clock + 1, w, Broken);
    } else {
      var ph := CreatingActor(user, url, env(clock + 1).key);
      var (w1, ph1) := Step(c, w, n, req, ph, env(clock + 2));
      FinishStep(c, env, w, n, req, FetchingKey(user, url), clock + 1, w, ph);
      FinishStep(c, env, w, n, req, ph, clock + 2, w1, ph1);
    }
  }

  /** The user a request names, if the bridge knows it. */
  function UserOf(w: World, req: Request): Option<User> {
    match TargetOf(req)
    case None => None
    case Some(u) => Get(w.users, LastPiece(u.path))
  }

  predicate AlreadyFollows(w: World, req: Request) {
    match SingleIri(req.actor)
    case None => false
    case Some(url) =>
      UserOf(w, req).Some? && FindActor(w.actors, url).Some?
      && (UserOf(w, req).value.username, FindActor(w.actors, url).value.id) in w.followers
  }

  /** How a Follow ends. */
  function Verdict(c: Config, w: World, req: Request): Outcome {
    if TargetOf(req).None? then Panics
    else if TargetOf(req).value.host != c.host then MismatchDomain
    else if UserOf(w, req).None? then UserDoesNotExist
    else if SingleIri(req.actor).None? then Panics
    else if !Granted(c, req) then ActorNotAllowed
    else if AlreadyFollows(w, req) then Broken
    else Fine
  }

  lemma GetIsARow(users: seq<User>, name: string)
    requires LowerNames(users) && Get(users, name).Some?
    ensures HasName(users, Get(users, name).value.username)
  {
    GetNames(users, name);
    var row :| row in users && RowNamed(row, name, Get(users, name).value.username);
    assert Lower(row.username) == row.username;
  }

  lemma EnrolledKnown(env: nat -> Answer, w: World, url: Url, clock: nat)
    requires EndsExist(w) && (FindActor(w.actors, url).None? ==> !KnownActor(w.actors, env(clock + 2).id))
    ensures var (w', actor) := Enrolled(env, w, url, clock);
            && KnownActor(w'.actors, actor)
            && (FindActor(w.actors, url).None? ==> forall p | p in w.followers :: p.1 != actor)
            && (exists row | row in w'.actors :: row.id == actor && row.url == url)
  {
    var (w', actor) := Enrolled(env, w, url, clock);
    if FindActor(w.actors, url).None? {
      assert w'.actors[|w.actors|] in w'.actors;
    }
  }

  /** The last calls of a Follow whose actor has a row, when they succeed. */
  predicate Decided(c: Config, w: World, n: nat, req: Request, user: string, actor: string, f: Final) {
    if !Granted(c, req) then f.outcome == ActorNotAllowed && f.world == w.(log := w.log + [Rejected(n, user)])
    else if !PairFits(w, user, actor) then f.outcome == Broken && f.world == w
    else f.outcome == Fine
         && f.world == w.(followers := w.followers + {(user, actor)},
                          log := w.log + [Inserted(n, user, actor)] + [Accepted(n, user)])
  }

  /** What they can leave when one of them fails: nothing, a Reject, or the pair with or without its Accept. */
  predicate Stopped(w: World, w': World, n: nat, user: string, actor: string) {
    || w' == w
    || w' == w.(log := w.log + [Rejected(n, user)])
    || ((user, actor) !in w.followers
        && (w' == w.(followers := w.followers + {(user, actor)}, log := w.log + [Inserted(n, user, actor)])
            || w' == w.(followers := w.followers + {(user, actor)},
                        log := w.log + [Inserted(n, user, actor)] + [Accepted(n, user)])))
  }

  lemma Decides(c: Config, env: nat -> Answer, w: World, n: nat, req: Request, user: string, actor: string, clock: nat)
    requires req.FollowRequest?
    ensures var f := Finish(c, env, w, n, req, AfterActor(c, req, user, actor), clock);
            && (Decided(c, w, n, req, user, actor, f) || (f.outcome == Broken && Stopped(w, f.world, n, user, actor)))
            && (env(clock).ok && env(clock + 1).ok ==> Decided(c, w, n, req, user, actor, f))
  {
    var ph := AfterActor(c, req, user, actor);
    var (w1, ph1) := Step(c, w, n, req, ph, env(clock));
    FinishStep(c, env, w, n, req, ph, clock, w1, ph1);
    if ph1.Accepting? {
      var (w2, ph2) := Step(c, w1, n, req, ph1, env(clock + 1));
      FinishStep(c, env, w1, n, req, ph1, clock + 1, w2, ph2);
    }
  }

  /** Whoever asks for the actor of the request finds this identifier. */
  predicate FindsItsActor(w: World, req: Request, actor: string) {
    SingleIri(req.actor).Some?
    && FindActor(w.actors, SingleIri(req.actor).value).Some?
    && FindActor(w.actors, SingleIri(req.actor).value).value.id == actor
  }

  /** What a successful Follow leaves behind: one more pair, and one Accept after its insert. */
  ghost predicate Joined(w: World, w': World, n: nat, req: Request) {
    UserOf(w, req).Some? &&
    var user := UserOf(w, req).value.username;
    w'.users == w.users && w.actors <= w'.actors &&
    exists actor :: FindsItsActor(w', req, actor) && (user, actor) !in w.followers
      && w'.followers == w.followers + {(user, actor)}
      && w'.log == w.log + [Inserted(n, user, actor)] + [Accepted(n, user)]
  }

  /** No pair has come or gone, and one Reject is scheduled. */
  predicate TurnedAway(w: World, w': World, n: nat, req: Request) {
    && UserOf(w, req).Some? && w'.users == w.users && w.actors <= w'.actors && w'.followers == w.followers
    && SingleIri(req.actor).Some? && FindActor(w'.actors, SingleIri(req.actor).value).Some?
    && w'.log == w.log + [Rejected(n, UserOf(w, req).value.username)]
  }

  ghost predicate Followed(w: World, w': World, n: nat, req: Request, outcome: Outcome) {
    match outcome
    case Fine => Joined(w, w', n, req)
    case ActorNotAllowed => TurnedAway(w, w', n, req)
    case _ => w' == w
  }

  lemma {:induction false} FindsAppended(actors: seq<ActorRow>, row: ActorRow)
    requires FindActor(actors, row.url).None?
    ensures FindActor(actors + [row], row.url) == Some(row)
  {
    if actors != [] {
      assert (actors + [row])[1..] == actors[1..] + [row];
      assert actors[0] in actors;
      forall r | r in actors[1..] ensures r.url != row.url {
        assert r in actors;
      }
      FindsAppended(actors[1..], row);
    }
  }

  lemma EnrolledIsFound(env: nat -> Answer, w: World, req: Request, clock: nat)
    requires SingleIri(req.actor).Some?
    ensures var (w', actor) := Enrolled(env, w, SingleIri(req.actor).value, clock); FindsItsActor(w', req, actor)
  {
    var url := SingleIri(req.actor).value;
    if FindActor(w.actors, url).None? {
      FindsAppended(w.actors, ActorRow(env(clock + 2).id, url, env(clock + 1).key));
    }
  }

  /** What a Follow can leave when a call fails: perhaps a row for its actor, and of its own effects a first
      part, as `Stopped` lists them. */
  ghost predicate Interrupted(w: World, w': World, n: nat, req: Request) {
    || OnlyEnrolls(w, w')
    || (UserOf(w, req).Some? &&
        exists w1, actor :: OnlyEnrolls(w, w1) && FindsItsActor(w1, req, actor)
          && Stopped(w1, w', n, UserOf(w, req).value.username, actor))
  }

  /** One of the calls made from the first time to the second answers with an error. */
  predicate SomeCallFails(env: nat -> Answer, from: nat, to: nat) {
    exists k | from <= k < to :: !env(k).ok
  }

  lemma ErrorStops(c: Config, w: World, n: nat, req: Request, ph: Phase, a: Answer)
    requires !ph.Replied? && !a.ok
    ensures Step(c, w, n, req, ph, a).1 == Replied(Broken)
  {
  }

  /** An error of any call ends the request with an error. */
  lemma {:induction false} FailureIsReported(
    c: Config, env: nat -> Answer, w: World, n: nat, req: Request, ph: Phase, clock: nat)
    ensures var f := Finish(c, env, w, n, req, ph, clock); SomeCallFails(env, clock, f.clock) ==> f.outcome == Broken
    decreases Rank(ph), if ph.Replied? then 0 else 1
  {
    if !ph.Replied? {
      var (w', ph') := Step(c, w, n, req, ph, env(clock));
      FinishStep(c, env, w, n, req, ph, clock, w', ph');
      FailureIsReported(c, env, w', n, req, ph', clock + 1);
      if !env(clock).ok {
        ErrorStops(c, w, n, req, ph, env(clock));
      }
    }
  }

  /** How a Follow ends, whatever calls fail. By an allowed actor it joins the pair and schedules one Accept
      after it; by another, it schedules one Reject; and in every other case, the pair being there already
      among them, it changes nothing. If a call fails it ends with an error, after a first part of that. */
  lemma {:induction false} FollowEnds(c: Config, env: nat -> Answer, w: World, n: nat, req: Request, clock: nat)
    requires req.FollowRequest? && LowerNames(w.users) && EndsExist(w)
    ensures var f := Run(c, env, w, n, req, clock);
            && ((f.outcome == Verdict(c, w, req) && Followed(w, f.world, n, req, f.outcome))
                || (f.outcome == Broken && Interrupted(w, f.world, n, req)))
            && (SomeCallFails(env, clock, f.clock) ==> f.outcome == Broken)
            && (Reliable(env, w, clock) ==> f.outcome == Verdict(c, w, req) && Followed(w, f.world, n, req, f.outcome))
  {
    var ph := Begin(c, req);
    FailureIsReported(c, env, w, n, req, ph, clock);
    if ph.FindingUser? {
      var next := Step(c, w, n, req, ph, env(clock)).1;
      FinishStep(c, env, w, n, req, ph, clock, w, next);
      if next.FindingActor? {
        FollowFromActor(c, env, w, n, req, next.user, next.url, clock + 1);
      }
    }
  }

  lemma {:induction false} FollowAlone(c: Config, env: nat -> Answer, w: World, n: nat, req: Request, clock: nat)
    requires req.FollowRequest? && Reliable(env, w, clock) && LowerNames(w.users) && EndsExist(w)
    ensures var f := Run(c, env, w, n, req, clock);
            f.outcome == Verdict(c, w, req) && Followed(w, f.world, n, req, f.outcome)
  {
    FollowEnds(c, env, w, n, req, clock);
  }

  /** How a Follow ends once its user is known. */
  function ActorVerdict(c: Config, w: World, req: Request): Outcome {
    if !Granted(c, req) then ActorNotAllowed else if AlreadyFollows(w, req) then Broken else Fine
  }

  lemma FollowFromActor(c: Config, env: nat -> Answer, w: World, n: nat, req: Request, user: string, url: Url,
      clock: nat)
    requires req.FollowRequest? && LowerNames(w.users) && EndsExist(w)
    requires UserOf(w, req).Some? && UserOf(w, req).value.username == user && SingleIri(req.actor) == Some(url)
    ensures var f := Finish(c, env, w, n, req, FindingActor(user, url), clock);
            && ((f.outcome == ActorVerdict(c, w, req) && Followed(w, f.world, n, req, f.outcome))
                || (f.outcome == Broken && Interrupted(w, f.world, n, req)))
            && (Reliable(env, w, clock)
               ==> f.outcome == ActorVerdict(c, w, req) && Followed(w, f.world, n, req, f.outcome))
  {
    var later, found := FindsActor(c, env, w, n, req, user, url, clock);
    var f := Finish(c, env, w, n, req, FindingActor(user, url), clock);
    if found {
      var (w', actor) := Enrolled(env, w, url, clock);
      Decides(c, env, w', n, req, user, actor, later);
      EnrolledIsFound(env, w, req, clock);
      assert OnlyEnrolls(w, w');
      if Decided(c, w', n, req, user, actor, f) {
        DecidedIsFollowed(c, env, w, n, req, user, url, clock, f);
      }
    }
  }

  lemma DecidedIsFollowed(c: Config, env: nat -> Answer, w: World, n: nat, req: Request, user: string, url: Url,
      clock: nat, f: Final)
    requires req.FollowRequest? && LowerNames(w.users) && EndsExist(w)
    requires UserOf(w, req).Some? && UserOf(w, req).value.username == user && SingleIri(req.actor) == Some(url)
    requires FindActor(w.actors, url).None? ==> !KnownActor(w.actors, env(clock + 2).id)
    requires var (w', actor) := Enrolled(env, w, url, clock); Decided(c, w', n, req, user, actor, f)
    ensures f.outcome == ActorVerdict(c, w, req) && Followed(w, f.world, n, req, f.outcome)
  {
    var (w', actor) := Enrolled(env, w, url, clock);
    EnrolledKnown(env, w, url, clock);
    EnrolledIsFound(env, w, req, clock);
    GetIsARow(w.users, LastPiece(TargetOf(req).value.path));
    if f.outcome == Fine {
      assert FindsItsActor(f.world, req, actor);
    }
  }

  lemma JoinedKeepsEnds(w: World, w': World, n: nat, req: Request)
    requires Joined(w, w', n, req) && EndsExist(w) && LowerNames(w.users)
    ensures EndsExist(w')
  {
    var user := UserOf(w, req).value.username;
    GetIsARow(w.users, LastPiece(TargetOf(req).value.path));
    forall p | p in w'.followers ensures HasName(w'.users, p.0) && KnownActor(w'.actors, p.1) {
      if p in w.followers {
        EndsStay(w, w', p.0, p.1);
      } else {
        assert FindsItsActor(w', req, p.1);
      }
    }
  }

  /** Once joined, the same Follow again is refused by the primary key: it changes nothing and gets no Accept. */
  lemma SecondFollowIsRefused(c: Config, env: nat -> Answer, w: World, n: nat, req: Request, clock: nat,
                              env': nat -> Answer, n': nat, clock': nat)
    requires req.FollowRequest? && Reliable(env, w, clock) && LowerNames(w.users) && EndsExist(w)
    requires Run(c, env, w, n, req, clock).outcome == Fine
    requires Reliable(env', Run(c, env, w, n, req, clock).world, clock')
    ensures var w1 := Run(c, env, w, n, req, clock).world;
            var f := Run(c, env', w1, n', req, clock');
            f.outcome == Broken && f.world == w1
  {
    FollowAlone(c, env, w, n, req, clock);
    var w1 := Run(c, env, w, n, req, clock).world;
    JoinedKeepsEnds(w, w1, n, req);
    FollowAlone(c, env', w1, n', req, clock');
  }

  // ---------- Undo ----------

  predicate UndoneBy(w: World, w': World, n: nat, user: string, actor: string) {
    w'.followers == w.followers - {(user, actor)} && w'.log == w.log + [Deleted(n, user, actor)]
  }

  function UndoVerdict(w: World, req: Request): Outcome
    requires req.UndoRequest?
  {
    if SingleIri(req.actor).None? then Panics
    else if req.objects.None? then Panics
    else if |req.objects.value| != 1 then Fine
    else if req.objects.value[0].SomethingElse? then UnsupportedUndo
    else if TargetOf(req).None? then Panics
    else if UserOf(w, req).None? then Broken
    else Fine
  }

  /** What an Undo does that gets through. */
  ghost predicate Undone(w: World, w': World, n: nat, req: Request) {
    && w.actors <= w'.actors && w'.users == w.users
    && (if UserOf(w, req).Some? && SingleIri(req.actor).Some?
        then exists a :: FindsItsActor(w', req, a) && UndoneBy(w, w', n, UserOf(w, req).value.username, a)
        else w' == w)
  }

  /** How an Undo ends, whatever calls fail. An Undo of one Follow takes exactly the pair of that Follow out of
      the table, whether it was there or not. Any other Undo changes nothing; with no object, or with several,
      it still answers Fine. If a call fails it ends with an error, and has done all of that or, but perhaps
      for a row of its actor, nothing. */
  lemma UndoEnds(c: Config, env: nat -> Answer, w: World, n: nat, req: Request, clock: nat)
    requires req.UndoRequest?
    ensures var f := Run(c, env, w, n, req, clock);
            && ((f.outcome == UndoVerdict(w, req) && Undone(w, f.world, n, req))
                || (f.outcome == Broken && (Undone(w, f.world, n, req) || OnlyEnrolls(w, f.world))))
            && (SomeCallFails(env, clock, f.clock) ==> f.outcome == Broken)
            && (Reliable(env, w, clock) ==> f.outcome == UndoVerdict(w, req) && Undone(w, f.world, n, req))
  {
    var ph := Begin(c, req);
    FailureIsReported(c, env, w, n, req, ph, clock);
    if ph.FindingUser? {
      var next := Step(c, w, n, req, ph, env(clock)).1;
      FinishStep(c, env, w, n, req, ph, clock, w, next);
      if next.FindingActor? {
        UndoFromActor(c, env, w, n, req, next.user, next.url, clock + 1);
      }
    }
  }

  lemma UndoAlone(c: Config, env: nat -> Answer, w: World, n: nat, req: Request, clock: nat)
    requires req.UndoRequest? && Reliable(env, w, clock)
    ensures var f := Run(c, env, w, n, req, clock); f.outcome == UndoVerdict(w, req) && Undone(w, f.world, n, req)
  {
    UndoEnds(c, env, w, n, req, clock);
  }

  /** The deletion of the pair, once the actor is known. */
  lemma Deletes(c: Config, env: nat -> Answer, w: World, n: nat, req: Request, user: string, a: string, clock: nat)
    ensures var f := Finish(c, env, w, n, req, Deleting(user, a), clock);
            && f.outcome == (if env(clock).ok then Fine else Broken)
            && f.world == if TakesEffect(env(clock))
                          then w.(followers := w.followers - {(user, a)}, log := w.log + [Deleted(n, user, a)]) else w
  {
    var w' := Step(c, w, n, req, Deleting(user, a), env(clock)).0;
    LastStep(c, env, w, n, req, Deleting(user, a), clock, w', if env(clock).ok then Fine else Broken);
  }

  lemma UndoFromActor(c: Config, env: nat -> Answer, w: World, n: nat, req: Request, user: string, url: Url, clock: nat)
    requires req.UndoRequest? && SingleIri(req.actor) == Some(url)
    requires UserOf(w, req).Some? && UserOf(w, req).value.username == user
    ensures var f := Finish(c, env, w, n, req, FindingActor(user, url), clock);
            && ((f.outcome == Fine && Undone(w, f.world, n, req))
                || (f.outcome == Broken && (Undone(w, f.world, n, req) || OnlyEnrolls(w, f.world))))
            && (Reliable(env, w, clock) ==> f.outcome == Fine && Undone(w, f.world, n, req))
  {
    var later, found := FindsActor(c, env, w, n, req, user, url, clock);
    if found {
      var (w1, a) := Enrolled(env, w, url, clock);
      EnrolledIsFound(env, w, req, clock);
      Deletes(c, env, w1, n, req, user, a, later);
      var w2 := Finish(c, env, w1, n, req, Deleting(user, a), later).world;
      if TakesEffect(env(later)) {
        assert FindsItsActor(w2, req, a) && UndoneBy(w, w2, n, user, a);
      }
    }
  }

  /** Follow and then Undo leaves the follower table as it was before. */
  lemma UndoRestores(c: Config, env: nat -> Answer, w: World, n: nat, target: Property, actor: Property, clock: nat,
                     env': nat -> Answer, n': nat, clock': nat)
    requires Reliable(env, w, clock) && LowerNames(w.users) && EndsExist(w)
    requires Run(c, env, w, n, FollowRequest(target, actor), clock).outcome == Fine
    requires Reliable(env', Run(c, env, w, n, FollowRequest(target, actor), clock).world, clock')
    ensures var w1 := Run(c, env, w, n, FollowRequest(target, actor), clock).world;
            var f := Run(c, env', w1, n', UndoRequest(actor, Some([UndoneFollow(target)])), clock');
            f.outcome == Fine && f.world.followers == w.followers
  {
    var req, undo := FollowRequest(target, actor), UndoRequest(actor, Some([UndoneFollow(target)]));
    FollowAlone(c, env, w, n, req, clock);
    var w1 := Run(c, env, w, n, req, clock).world;
    UndoAlone(c, env', w1, n', undo, clock');
    var w2 := Run(c, env', w1, n', undo, clock').world;
    assert TargetOf(undo) == TargetOf(req) && UserOf(w1, undo) == UserOf(w, req);
    var user := UserOf(w, req).value.username;
    var a :| FindsItsActor(w1, req, a) && (user, a) !in w.followers && w1.followers == w.followers + {(user, a)};
    var b :| FindsItsActor(w2, undo, b) && UndoneBy(w1, w2, n', user, b);
    FindStays(w1.actors, w2.actors, SingleIri(actor).value);
    assert a == b;
  }

  lemma {:induction false} FindStays(actors: seq<ActorRow>, actors': seq<ActorRow>, url: Url)
    requires actors <= actors' && FindActor(actors, url).Some?
    ensures FindActor(actors', url) == FindActor(actors, url)
  {
    if actors[0].url != url {
      FindStays(actors[1..], actors'[1..], url);
    }
  }

  // ---------- the row of the actor ----------

  lemma {:induction false} LaterKeepsActors(
    c: Config, env: nat -> Answer, w: World, n: nat, req: Request, ph: Phase, clock: nat)
    requires !ph.FindingUser? && !ph.FindingActor? && !ph.FetchingKey? && !ph.CreatingActor?
    ensures Finish(c, env, w, n, req, ph, clock).world.actors == w.actors
    decreases Rank(ph), if ph.Replied? then 0 else 1
  {
    if !ph.Replied? {
      var (w', ph') := Step(c, w, n, req, ph, env(clock));
      FinishStep(c, env, w, n, req, ph, clock, w', ph');
      LaterKeepsActors(c, env, w', n, req, ph', clock + 1);
    }
  }

  /** The actor table is as it was, or has one more row: this actor, whom it did not hold, under the fresh
      identifier and with the key that the key server answered with. */
  predicate OneActorMore(w: World, w': World, url: Url, key: string, id: string) {
    && (forall row | row in w.actors :: row.url != url)
    && w'.actors == w.actors + [ActorRow(id, url, key)]
  }

  lemma ActorRowFrom(c: Config, env: nat -> Answer, w: World, n: nat, req: Request, user: string, url: Url, clock: nat)
    ensures var w' := Finish(c, env, w, n, req, FindingActor(user, url), clock).world;
            w'.actors == w.actors || OneActorMore(w, w', url, env(clock + 1).key, env(clock + 2).id)
  {
    var later, found := FindsActor(c, env, w, n, req, user, url, clock);
    if found {
      var (w1, actor) := Enrolled(env, w, url, clock);
      LaterKeepsActors(c, env, w1, n, req, AfterActor(c, req, user, actor), later);
    }
  }

  /** How a request changes the actor table: not at all, or by the one row of its own actor. The user is looked
      up by its first call, the actor by its second, the key by its third, and the row is inserted by its fourth. */
  lemma ActorRowExactly(c: Config, env: nat -> Answer, w: World, n: nat, req: Request, clock: nat)
    ensures var w' := Run(c, env, w, n, req, clock).world;
            w'.actors == w.actors
            || (SingleIri(req.actor).Some?
                && OneActorMore(w, w', SingleIri(req.actor).value, env(clock + 2).key, env(clock + 3).id))
  {
    var ph := Begin(c, req);
    if ph.FindingUser? {
      var next := Step(c, w, n, req, ph, env(clock)).1;
      FinishStep(c, env, w, n, req, ph, clock, w, next);
      if next.FindingActor? {
        ActorRowFrom(c, env, w, n, req, next.user, next.url, clock + 1);
      }
    }
  }

  // ---------- a request alone is one of the interleavings ----------

  function SoloEvents(c: Config, env: nat -> Answer, w: World, n: nat, req: Request, ph: Phase, clock: nat): seq<Event>
    decreases Rank(ph), if ph.Replied? then 0 else 1
  {
    if ph.Replied? then []
    else
      var (w', ph') := Step(c, w, n, req, ph, env(clock));
      [Act(n, env(clock))] + SoloEvents(c, env, w', n, req, ph', clock + 1)
  }

  /** What holds in every run holds for a request that nobody interrupts. */
  lemma {:induction false} AloneIsARun(c: Config, env: nat -> Answer, sys: System, n: nat, clock: nat)
    requires n < |sys.tasks|
    ensures var t := sys.tasks[n];
            var f := Finish(c, env, sys.world, n, t.req, t.phase, clock);
            Exec(c, sys, SoloEvents(c, env, sys.world, n, t.req, t.phase, clock))
            == System(f.world, sys.tasks[n := Task(t.req, Replied(f.outcome))])
    decreases Rank(sys.tasks[n].phase), if sys.tasks[n].phase.Replied? then 0 else 1
  {
    var t := sys.tasks[n];
    if t.phase.Replied? {
      assert sys.tasks[n := t] == sys.tasks;
    } else {
      var next := Apply(c, sys, Act(n, env(clock)));
      var rest := SoloEvents(c, env, next.world, n, t.req, next.tasks[n].phase, clock + 1);
      assert ([Act(n, env(clock))] + rest)[1..] == rest;
      AloneIsARun(c, env, next, n, clock + 1);
    }
  }
}

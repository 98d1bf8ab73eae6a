/** What every interleaving of inbox requests keeps. */
module InboxSafety {
  import opened Options
  import opened Text
  import opened Users
  import opened Voter
  import opened Inbox

  // ---------- the log ----------

  /** The effects of one request, in order. */
  function Trace(log: seq<Effect>, n: nat): seq<Effect> {
    if log == [] then []
    else
      var front := Trace(log[..|log| - 1], n);
      if log[|log| - 1].request == n then front + [log[|log| - 1]] else front
  }

  lemma TraceAppends(log: seq<Effect>, e: Effect, n: nat)
    ensures Trace(log + [e], n) == if e.request == n then Trace(log, n) + [e] else Trace(log, n)
  {
    assert (log + [e])[..|log|] == log;
  }

  predicate Touches(e: Effect, user: string, actor: string) {
    (e.Inserted? || e.Deleted?) && e.user == user && e.actor == actor
  }

  /** The last effect on the pair is an insert. */
  predicate Follows(log: seq<Effect>, user: string, actor: string) {
    log != [] &&
    var last := log[|log| - 1];
    if Touches(last, user, actor) then last.Inserted? else Follows(log[..|log| - 1], user, actor)
  }

  /** No insert of the pair while it follows. */
  predicate Alternates(log: seq<Effect>, user: string, actor: string) {
    log == [] ||
    var front, last := log[..|log| - 1], log[|log| - 1];
    Alternates(front, user, actor) && (Touches(last, user, actor) && last.Inserted? ==> !Follows(front, user, actor))
  }

  predicate PairOk(w: World, user: string, actor: string) {
    ((user, actor) in w.followers <==> Follows(w.log, user, actor)) && Alternates(w.log, user, actor)
  }

  lemma StepKeepsPair(c: Config, w: World, n: nat, req: Request, ph: Phase, a: Answer, user: string, actor: string)
    requires PairOk(w, user, actor)
    ensures PairOk(Step(c, w, n, req, ph, a).0, user, actor)
  {
    var w' := Step(c, w, n, req, ph, a).0;
    if w'.log != w.log {
      assert w'.log[..|w.log|] == w.log;
    }
  }

  lemma {:induction false} ExecKeepsPair(c: Config, sys: System, events: seq<Event>, user: string, actor: string)
    requires PairOk(sys.world, user, actor)
    ensures PairOk(Exec(c, sys, events).world, user, actor)
    decreases |events|
  {
    if events != [] {
      match events[0] {
        case Act(n, a) =>
          if n < |sys.tasks| {
            StepKeepsPair(c, sys.world, n, sys.tasks[n].req, sys.tasks[n].phase, a, user, actor);
          }
        case _ =>
      }
      ExecKeepsPair(c, Apply(c, sys, events[0]), events[1..], user, actor);
    }
  }

  lemma {:induction false} FollowsFromIndex(log: seq<Effect>, i: nat, user: string, actor: string)
    requires i < |log| && Touches(log[i], user, actor) && log[i].Inserted?
    requires forall k | i < k < |log| && Touches(log[k], user, actor) :: log[k].Inserted?
    ensures Follows(log, user, actor)
  {
    var n := |log| - 1;
    if i < n && !Touches(log[n], user, actor) {
      FollowsFromIndex(log[..n], i, user, actor);
    }
  }

  lemma {:induction false} IndexFromFollows(log: seq<Effect>, user: string, actor: string) returns (i: nat)
    requires Follows(log, user, actor)
    ensures i < |log| && Touches(log[i], user, actor) && log[i].Inserted?
    ensures forall k | i < k < |log| :: !Touches(log[k], user, actor)
  {
    var n := |log| - 1;
    if Touches(log[n], user, actor) {
      i := n;
    } else {
      i := IndexFromFollows(log[..n], user, actor);
    }
  }

  lemma {:induction false} AlternatesAt(log: seq<Effect>, j: nat, user: string, actor: string)
    requires Alternates(log, user, actor) && j < |log| && Touches(log[j], user, actor) && log[j].Inserted?
    ensures !Follows(log[..j], user, actor)
  {
    var n := |log| - 1;
    if j < n {
      AlternatesAt(log[..n], j, user, actor);
      assert log[..n][..j] == log[..j];
    }
  }

  /** In every run, a pair is in the follower table exactly when the last effect on it is an insert. */
  lemma LastEffectDecides(c: Config, users: seq<User>, events: seq<Event>, user: string, actor: string)
    ensures var w := Exec(c, Start(users), events).world;
            (user, actor) in w.followers <==>
            exists i | 0 <= i < |w.log| :: w.log[i].Inserted? && Touches(w.log[i], user, actor)
                       && forall k | i < k < |w.log| :: !Touches(w.log[k], user, actor)
  {
    ExecKeepsPair(c, Start(users), events, user, actor);
    var log := Exec(c, Start(users), events).world.log;
    if Follows(log, user, actor) {
      var i := IndexFromFollows(log, user, actor);
    }
    if i :| 0 <= i < |log| && log[i].Inserted? && Touches(log[i], user, actor)
            && forall k | i < k < |log| :: !Touches(log[k], user, actor) {
      FollowsFromIndex(log, i, user, actor);
    }
  }

  /** Between two inserts of a pair there is a delete of it. */
  lemma DeletedInBetween(c: Config, users: seq<User>, events: seq<Event>, i: nat, j: nat)
    requires var log := Exec(c, Start(users), events).world.log;
             i < j < |log| && log[i].Inserted? && log[j].Inserted?
             && log[i].user == log[j].user && log[i].actor == log[j].actor
    ensures var log := Exec(c, Start(users), events).world.log;
            exists k | i < k < j :: log[k].Deleted? && Touches(log[k], log[i].user, log[i].actor)
  {
    var log := Exec(c, Start(users), events).world.log;
    var user, actor := log[i].user, log[i].actor;
    ExecKeepsPair(c, Start(users), events, user, actor);
    AlternatesAt(log, j, user, actor);
    if forall k | i < k < j && Touches(log[k], user, actor) :: log[k].Inserted? {
      FollowsFromIndex(log[..j], i, user, actor);
    }
  }

  // ---------- requests ----------

  predicate Granted(c: Config, req: Request) {
    IsGranted(c.voters, req.actor, CanFollow)
  }

  /** The actor row with this ID is the actor of the request. */
  predicate IsActorOf(w: World, req: Request, actor: string) {
    exists row | row in w.actors :: row.id == actor && SingleIri(req.actor) == Some(row.url)
  }

  function TargetOf(req: Request): Option<Url> {
    match req
    case FollowRequest(target, _) => SingleIri(target)
    case UndoRequest(_, objects) =>
      if objects.Some? && |objects.value| == 1 && objects.value[0].UndoneFollow?
      then SingleIri(objects.value[0].target)
      else None
  }

  predicate RowNamed(row: User, name: string, user: string) {
    Lower(row.username) == user && (row.username == Lower(name) || row.id == Lower(name))
  }

  /** The user is the one the last piece of the target URL names, by name or by ID. */
  predicate IsTargetOf(w: World, req: Request, user: string) {
    TargetOf(req).Some? && exists row | row in w.users :: RowNamed(row, LastPiece(TargetOf(req).value.path), user)
  }

  /** What a request may have done when it stands at a phase. */
  predicate Shape(trace: seq<Effect>, req: Request, ph: Phase) {
    match ph
    case Accepting(user) => |trace| == 1 && trace[0].Inserted? && trace[0].user == user
    case Replied(outcome) => Settled(trace, req, outcome)
    case _ => trace == []
  }

  /** What a request has done when it has replied. */
  predicate Settled(trace: seq<Effect>, req: Request, outcome: Outcome) {
    match outcome
    case Fine =>
      if req.FollowRequest? then IsAcceptance(trace)
      else if req.objects.None? || |req.objects.value| != 1 then trace == []
      else |trace| == 1 && trace[0].Deleted?
    case ActorNotAllowed => |trace| == 1 && trace[0].Rejected?
    case Broken => (|trace| <= 1 && (trace != [] ==> !trace[0].Accepted?)) || IsAcceptance(trace)
    case _ => trace == []
  }

  predicate IsAcceptance(trace: seq<Effect>) {
    |trace| == 2 && trace[0].Inserted? && trace[1].Accepted? && trace[0].user == trace[1].user
  }

  predicate PhaseOk(c: Config, w: World, req: Request, ph: Phase) {
    match ph
    case FindingUser(name) => TargetOf(req).Some? && LastPiece(TargetOf(req).value.path) == name
    case FindingActor(user, url) => SingleIri(req.actor) == Some(url) && IsTargetOf(w, req, user)
    case FetchingKey(user, url) => SingleIri(req.actor) == Some(url) && IsTargetOf(w, req, user)
    case CreatingActor(user, url, _) => SingleIri(req.actor) == Some(url) && IsTargetOf(w, req, user)
    case Inserting(user, actor) =>
      req.FollowRequest? && Granted(c, req) && IsActorOf(w, req, actor) && IsTargetOf(w, req, user)
    case Accepting(user) => req.FollowRequest? && Granted(c, req) && IsTargetOf(w, req, user)
    case Rejecting(user) => req.FollowRequest? && !Granted(c, req) && IsTargetOf(w, req, user)
    case Deleting(user, actor) => req.UndoRequest? && IsActorOf(w, req, actor) && IsTargetOf(w, req, user)
    case Replied(outcome) => true
  }

  /** An effect is one its request was entitled to. */
  predicate Entitled(c: Config, w: World, req: Request, e: Effect) {
    && IsTargetOf(w, req, e.user)
    && match e
       case Inserted(_, _, actor) => req.FollowRequest? && Granted(c, req) && IsActorOf(w, req, actor)
       case Deleted(_, _, actor) => req.UndoRequest? && IsActorOf(w, req, actor)
       case Accepted(_, _) => req.FollowRequest? && Granted(c, req)
       case Rejected(_, _) => req.FollowRequest? && !Granted(c, req)
  }

  predicate TaskOk(c: Config, w: World, n: nat, t: Task) {
    && PhaseOk(c, w, t.req, t.phase)
    && Shape(Trace(w.log, n), t.req, t.phase)
    && forall e | e in Trace(w.log, n) :: Entitled(c, w, t.req, e)
  }

  predicate ActorsDistinct(actors: seq<ActorRow>) {
    forall i, j | 0 <= i < j < |actors| :: actors[i].id != actors[j].id && actors[i].url != actors[j].url
  }

  /** Both ends of every row exist. */
  predicate EndsExist(w: World) {
    forall p | p in w.followers :: HasName(w.users, p.0) && KnownActor(w.actors, p.1)
  }

  predicate Inv(c: Config, sys: System) {
    && ActorsDistinct(sys.world.actors)
    && EndsExist(sys.world)
    && (forall n | 0 <= n < |sys.tasks| :: TaskOk(c, sys.world, n, sys.tasks[n]))
    && (forall e | e in sys.world.log :: e.request < |sys.tasks|)
  }

  // ---------- one step ----------

  predicate Grows(w: World, w': World) {
    w.users <= w'.users && w.actors <= w'.actors
  }

  lemma StepGrows(c: Config, w: World, n: nat, req: Request, ph: Phase, a: Answer)
    ensures Grows(w, Step(c, w, n, req, ph, a).0)
  {
  }

  lemma TargetStays(w: World, w': World, req: Request, user: string)
    requires Grows(w, w') && IsTargetOf(w, req, user)
    ensures IsTargetOf(w', req, user)
  {
    var name := LastPiece(TargetOf(req).value.path);
    var row :| row in w.users && RowNamed(row, name, user);
    assert row in w'.users;
  }

  lemma ActorStays(w: World, w': World, req: Request, actor: string)
    requires Grows(w, w') && IsActorOf(w, req, actor)
    ensures IsActorOf(w', req, actor)
  {
    var row :| row in w.actors && row.id == actor && SingleIri(req.actor) == Some(row.url);
    assert row in w'.actors;
  }

  lemma PhaseStays(c: Config, w: World, w': World, req: Request, ph: Phase)
    requires Grows(w, w') && PhaseOk(c, w, req, ph)
    ensures PhaseOk(c, w', req, ph)
  {
    match ph
    case FindingActor(user, _) => TargetStays(w, w', req, user);
    case FetchingKey(user, _) => TargetStays(w, w', req, user);
    case CreatingActor(user, _, _) => TargetStays(w, w', req, user);
    case Inserting(user, actor) =>
      TargetStays(w, w', req, user);
      ActorStays(w, w', req, actor);
    case Accepting(user) => TargetStays(w, w', req, user);
    case Rejecting(user) => TargetStays(w, w', req, user);
    case Deleting(user, actor) =>
      TargetStays(w, w', req, user);
      ActorStays(w, w', req, actor);
    case _ =>
  }

  lemma EntitledStays(c: Config, w: World, w': World, req: Request, e: Effect)
    requires Grows(w, w') && Entitled(c, w, req, e)
    ensures Entitled(c, w', req, e)
  {
    TargetStays(w, w', req, e.user);
    match e
    case Inserted(_, _, actor) => ActorStays(w, w', req, actor);
    case Deleted(_, _, actor) => ActorStays(w, w', req, actor);
    case _ =>
  }

  /** A request that does not act keeps its standing while the others do. */
  lemma OthersStay(c: Config, w: World, w': World, n: nat, t: Task)
    requires Grows(w, w') && TaskOk(c, w, n, t) && Trace(w'.log, n) == Trace(w.log, n)
    ensures TaskOk(c, w', n, t)
  {
    PhaseStays(c, w, w', t.req, t.phase);
    forall e | e in Trace(w.log, n) ensures Entitled(c, w', t.req, e) {
      EntitledStays(c, w, w', t.req, e);
    }
  }

  lemma GetNames(users: seq<User>, name: string)
    requires Get(users, name).Some?
    ensures exists row | row in users :: RowNamed(row, name, Get(users, name).value.username)
  {
    var who := Lower(name);
    var byId := if IsInt64(who) then FindById(users, who) else None;
    var row := if byId.Some? then byId.value else FindByName(users, who).value;
    assert row in users && RowNamed(row, name, Get(users, name).value.username);
  }

  lemma StepKeepsPhase(c: Config, w: World, n: nat, req: Request, ph: Phase, a: Answer)
    requires PhaseOk(c, w, req, ph)
    ensures var (w', ph') := Step(c, w, n, req, ph, a); PhaseOk(c, w', req, ph')
  {
    var (w', ph') := Step(c, w, n, req, ph, a);
    StepGrows(c, w, n, req, ph, a);
    PhaseStays(c, w, w', req, ph);
    match ph
    case FindingUser(name) =>
      if a.ok && Get(w.users, name).Some? {
        GetNames(w.users, name);
      }
    case FindingActor(user, url) =>
      if a.ok && FindActor(w.actors, url).Some? {
        assert IsActorOf(w, req, FindActor(w.actors, url).value.id);
      }
    case CreatingActor(user, url, key) =>
      if !ph'.Replied? {
        assert ActorRow(a.id, url, key) in w'.actors;
        assert IsActorOf(w', req, a.id);
      }
    case _ =>
  }

  /** The effect of a step, if it has one, comes after the earlier ones of the request. */
  lemma StepTrace(c: Config, w: World, n: nat, req: Request, ph: Phase, a: Answer)
    ensures var trace, trace' := Trace(w.log, n), Trace(Step(c, w, n, req, ph, a).0.log, n);
            trace' == trace || (TakesEffect(a) && exists e :: trace' == trace + [e] && IsEffectOf(ph, e))
  {
    var w' := Step(c, w, n, req, ph, a).0;
    if w'.log != w.log {
      var e := w'.log[|w.log|];
      TraceAppends(w.log, e, n);
      assert w'.log == w.log + [e] && IsEffectOf(ph, e);
    }
  }

  predicate IsEffectOf(ph: Phase, e: Effect) {
    match ph
    case Inserting(user, actor) => e.Inserted? && e.user == user && e.actor == actor
    case Accepting(user) => e.Accepted? && e.user == user
    case Rejecting(user) => e.Rejected? && e.user == user
    case Deleting(user, actor) => e.Deleted? && e.user == user && e.actor == actor
    case _ => false
  }

  lemma StepKeepsShape(c: Config, w: World, n: nat, req: Request, ph: Phase, a: Answer)
    requires PhaseOk(c, w, req, ph) && Shape(Trace(w.log, n), req, ph)
    ensures var (w', ph') := Step(c, w, n, req, ph, a); Shape(Trace(w'.log, n), req, ph')
  {
    var (w', ph') := Step(c, w, n, req, ph, a);
    StepTrace(c, w, n, req, ph, a);
    match ph
    case Inserting(user, actor) => TraceOfEffect(w, w', n, Inserted(n, user, actor));
    case Accepting(user) => TraceOfEffect(w, w', n, Accepted(n, user));
    case Rejecting(user) => TraceOfEffect(w, w', n, Rejected(n, user));
    case Deleting(user, actor) => TraceOfEffect(w, w', n, Deleted(n, user, actor));
    case _ =>
  }

  lemma TraceOfEffect(w: World, w': World, n: nat, e: Effect)
    requires e.request == n
    ensures w'.log == w.log + [e] ==> Trace(w'.log, n) == Trace(w.log, n) + [e]
  {
    TraceAppends(w.log, e, n);
  }

  lemma StepKeepsEntitled(c: Config, w: World, n: nat, req: Request, ph: Phase, a: Answer)
    requires PhaseOk(c, w, req, ph) && forall e | e in Trace(w.log, n) :: Entitled(c, w, req, e)
    ensures var w' := Step(c, w, n, req, ph, a).0; forall e | e in Trace(w'.log, n) :: Entitled(c, w', req, e)
  {
    var w' := Step(c, w, n, req, ph, a).0;
    StepGrows(c, w, n, req, ph, a);
    StepTrace(c, w, n, req, ph, a);
    PhaseStays(c, w, w', req, ph);
    forall e | e in Trace(w'.log, n) ensures Entitled(c, w', req, e) {
      if e in Trace(w.log, n) {
        EntitledStays(c, w, w', req, e);
      } else {
        assert IsEffectOf(ph, e);
      }
    }
  }

  lemma StepKeepsTables(c: Config, w: World, n: nat, req: Request, ph: Phase, a: Answer)
    requires ActorsDistinct(w.actors) && EndsExist(w)
    ensures var w' := Step(c, w, n, req, ph, a).0; ActorsDistinct(w'.actors) && EndsExist(w')
  {
    var w' := Step(c, w, n, req, ph, a).0;
    StepGrows(c, w, n, req, ph, a);
    forall p | p in w'.followers ensures HasName(w'.users, p.0) && KnownActor(w'.actors, p.1) {
      assert HasName(w.users, p.0) && KnownActor(w.actors, p.1);
      EndsStay(w, w', p.0, p.1);
    }
    if w'.actors != w.actors {
      var n := |w.actors|;
      forall i | 0 <= i < n ensures w.actors[i].id != w'.actors[n].id && w.actors[i].url != w'.actors[n].url {
        assert w.actors[i] in w.actors;
      }
    }
  }

  lemma EndsStay(w: World, w': World, user: string, actor: string)
    requires Grows(w, w') && HasName(w.users, user) && KnownActor(w.actors, actor)
    ensures HasName(w'.users, user) && KnownActor(w'.actors, actor)
  {
    var row :| row in w.users && row.username == user;
    assert row in w'.users;
    var other :| other in w.actors && other.id == actor;
    assert other in w'.actors;
  }

  lemma TraceOfOthers(c: Config, w: World, n: nat, req: Request, ph: Phase, a: Answer, m: nat)
    requires m != n
    ensures Trace(Step(c, w, n, req, ph, a).0.log, m) == Trace(w.log, m)
  {
    var w' := Step(c, w, n, req, ph, a).0;
    if w'.log != w.log {
      TraceAppends(w.log, w'.log[|w.log|], m);
      assert w'.log == w.log + [w'.log[|w.log|]];
    }
  }

  lemma {:induction false} NoTrace(log: seq<Effect>, n: nat)
    requires forall e | e in log :: e.request < n
    ensures Trace(log, n) == []
  {
    if log != [] {
      assert log[|log| - 1] in log;
      NoTrace(log[..|log| - 1], n);
    }
  }

  lemma ActKeepsInv(c: Config, sys: System, n: nat, a: Answer)
    requires Inv(c, sys) && n < |sys.tasks|
    ensures Inv(c, Apply(c, sys, Act(n, a)))
  {
    var t := sys.tasks[n];
    var (w', ph') := Step(c, sys.world, n, t.req, t.phase, a);
    var sys' := Apply(c, sys, Act(n, a));
    StepGrows(c, sys.world, n, t.req, t.phase, a);
    StepKeepsTables(c, sys.world, n, t.req, t.phase, a);
    forall m | 0 <= m < |sys'.tasks| ensures TaskOk(c, w', m, sys'.tasks[m]) {
      if m == n {
        assert t == Task(t.req, t.phase);
        StepKeepsPhase(c, sys.world, n, t.req, t.phase, a);
        StepKeepsShape(c, sys.world, n, t.req, t.phase, a);
        StepKeepsEntitled(c, sys.world, n, t.req, t.phase, a);
      } else {
        TraceOfOthers(c, sys.world, n, t.req, t.phase, a, m);
        OthersStay(c, sys.world, w', m, sys.tasks[m]);
      }
    }
  }

  lemma ArriveKeepsInv(c: Config, sys: System, req: Request)
    requires Inv(c, sys)
    ensures Inv(c, Apply(c, sys, Arrive(req)))
  {
    NoTrace(sys.world.log, |sys.tasks|);
    var t := Task(req, Begin(c, req));
    assert TaskOk(c, sys.world, |sys.tasks|, t);
  }

  lemma NewUserKeepsInv(c: Config, sys: System, username: string, id: string, key: string)
    requires Inv(c, sys)
    ensures Inv(c, Apply(c, sys, NewUser(username, id, key)))
  {
    var sys' := Apply(c, sys, NewUser(username, id, key));
    forall n | 0 <= n < |sys.tasks| ensures TaskOk(c, sys'.world, n, sys.tasks[n]) {
      OthersStay(c, sys.world, sys'.world, n, sys.tasks[n]);
    }
    forall p | p in sys.world.followers ensures HasName(sys'.world.users, p.0) && KnownActor(sys'.world.actors, p.1) {
      EndsStay(sys.world, sys'.world, p.0, p.1);
    }
  }

  lemma {:induction false} ExecKeepsInv(c: Config, sys: System, events: seq<Event>)
    requires Inv(c, sys)
    ensures Inv(c, Exec(c, sys, events))
    decreases |events|
  {
    if events != [] {
      match events[0] {
        case Arrive(req) => ArriveKeepsInv(c, sys, req);
        case Act(n, a) =>
          if n < |sys.tasks| {
            ActKeepsInv(c, sys, n, a);
          }
        case NewUser(username, id, key) => NewUserKeepsInv(c, sys, username, id, key);
      }
      ExecKeepsInv(c, Apply(c, sys, events[0]), events[1..]);
    }
  }
}

/** Follow and UnFollow (internal/domain/inbox.go) as a machine that makes one call to the database, to a
    remote key server or to the task queue per step, so that several requests can interleave at every call. */
module Inbox {
  import opened Options
  import opened Users
  import opened Voter

  datatype ActorRow = ActorRow(id: string, url: Url, key: string)

  /** What a request did to the follower table and to the task queue. */
  datatype Effect =
    | Inserted(request: nat, user: string, actor: string)
    | Deleted(request: nat, user: string, actor: string)
    | Accepted(request: nat, user: string)
    | Rejected(request: nat, user: string)

  /** `followers` is the follower table: a set, because the pair is its primary key.
      `log` holds the effects in the order they took place. */
  datatype World = World(users: seq<User>, actors: seq<ActorRow>, followers: set<(string, string)>, log: seq<Effect>)

  datatype Config = Config(host: string, voters: seq<Voter>)

  datatype UndoObject = UndoneFollow(target: Property) | SomethingElse

  /** A Follow of the target, or an Undo of a list of objects; None when the property is missing. */
  datatype Request =
    | FollowRequest(target: Property, actor: Property)
    | UndoRequest(actor: Property, objects: Option<seq<UndoObject>>)

  /** Panics: the request dies on a type assertion or on a missing property. */
  datatype Outcome =
    Fine | MismatchDomain | UserDoesNotExist | ActorNotAllowed | UnsupportedUndo | Broken | Panics

  datatype Phase =
    | FindingUser(name: string)
    | FindingActor(user: string, url: Url)
    | FetchingKey(user: string, url: Url)
    | CreatingActor(user: string, url: Url, key: string)
    | Inserting(user: string, actor: string)
    | Accepting(user: string)
    | Rejecting(user: string)
    | Deleting(user: string, actor: string)
    | Replied(outcome: Outcome)

  /** The answer to one call. A call can report an error and still have taken effect.
      key: what the key server returns; id: the fresh identifier of a new actor. */
  datatype Answer = Answer(ok: bool, lands: bool, key: string, id: string)

  predicate TakesEffect(a: Answer) {
    a.ok || a.lands
  }

  function FindActor(actors: seq<ActorRow>, url: Url): (r: Option<ActorRow>)
    ensures r.Some? ==> r.value in actors && r.value.url == url
    ensures r.None? ==> forall row | row in actors :: row.url != url
  {
    if actors == [] then None
    else if actors[0].url == url then Some(actors[0])
    else FindActor(actors[1..], url)
  }

  predicate KnownActor(actors: seq<ActorRow>, id: string) {
    exists row | row in actors :: row.id == id
  }

  /** The primary key and the two foreign keys of the follower table. */
  predicate PairFits(w: World, user: string, actor: string) {
    (user, actor) !in w.followers && HasName(w.users, user) && KnownActor(w.actors, actor)
  }

  // ---------- control flow between two calls ----------

  /** Everything before the first call. */
  function Begin(c: Config, req: Request): Phase {
    match req
    case FollowRequest(target, _) =>
      (match SingleIri(target)
       case None => Replied(Panics)
       case Some(u) => if u.host != c.host then Replied(MismatchDomain) else FindingUser(LastPiece(u.path)))
    case UndoRequest(actor, objects) =>
      if SingleIri(actor).None? then Replied(Panics)
      else if objects.None? then Replied(Panics)
      else if |objects.value| != 1 then Replied(Fine)
      else
        match objects.value[0]
        case SomethingElse => Replied(UnsupportedUndo)
        case UndoneFollow(target) =>
          match SingleIri(target)
          case None => Replied(Panics)
          case Some(u) => FindingUser(LastPiece(u.path))
  }

  function NoUser(req: Request): Outcome {
    if req.FollowRequest? then UserDoesNotExist else Broken
  }

  function AfterUser(req: Request, user: string): Phase {
    match SingleIri(req.actor)
    case None => Replied(Panics)
    case Some(u) => FindingActor(user, u)
  }

  function AfterActor(c: Config, req: Request, user: string, actor: string): Phase {
    if req.UndoRequest? then Deleting(user, actor)
    else if IsGranted(c.voters, req.actor, CanFollow) then Inserting(user, actor)
    else Rejecting(user)
  }

  // ---------- the calls ----------

  /** The next call of request number n. */
  function Step(c: Config, w: World, n: nat, req: Request, ph: Phase, a: Answer): (World, Phase) {
    match ph
    case FindingUser(name) =>
      (w, if !a.ok then Replied(Broken)
          else
            match Get(w.users, name)
            case None => Replied(NoUser(req))
            case Some(user) => AfterUser(req, user.username))
    case FindingActor(user, url) =>
      (w, if !a.ok then Replied(Broken)
          else
            match FindActor(w.actors, url)
            case None => FetchingKey(user, url)
            case Some(row) => AfterActor(c, req, user, row.id))
    case FetchingKey(user, url) =>
      (w, if a.ok then CreatingActor(user, url, a.key) else Replied(Broken))
    case CreatingActor(user, url, key) =>
      if FindActor(w.actors, url).Some? || KnownActor(w.actors, a.id) then (w, Replied(Broken))
      else
        (if TakesEffect(a) then w.(actors := w.actors + [ActorRow(a.id, url, key)]) else w,
         if a.ok then AfterActor(c, req, user, a.id) else Replied(Broken))
    case Inserting(user, actor) =>
      if !PairFits(w, user, actor) then (w, Replied(Broken))
      else
        (if TakesEffect(a)
         then w.(followers := w.followers + {(user, actor)}, log := w.log + [Inserted(n, user, actor)])
         else w,
         if a.ok then Accepting(user) else Replied(Broken))
    case Accepting(user) =>
      (if TakesEffect(a) then w.(log := w.log + [Accepted(n, user)]) else w,
       Replied(if a.ok then Fine else Broken))
    case Rejecting(user) =>
      (if TakesEffect(a) then w.(log := w.log + [Rejected(n, user)]) else w,
       Replied(if a.ok then ActorNotAllowed else Broken))
    case Deleting(user, actor) =>
      (if TakesEffect(a)
       then w.(followers := w.followers - {(user, actor)}, log := w.log + [Deleted(n, user, actor)])
       else w,
       Replied(if a.ok then Fine else Broken))
    case Replied(_) => (w, ph)
  }

  // ---------- any number of requests ----------

  datatype Task = Task(req: Request, phase: Phase)

  datatype System = System(world: World, tasks: seq<Task>)

  /** A request arrives, makes its next call, or another part of the bridge creates a user. */
  datatype Event =
    | Arrive(req: Request)
    | Act(task: nat, answer: Answer)
    | NewUser(username: string, id: string, key: string)

  function Apply(c: Config, sys: System, e: Event): System {
    match e
    case Arrive(req) => sys.(tasks := sys.tasks + [Task(req, Begin(c, req))])
    case Act(n, a) =>
      if n >= |sys.tasks| then sys
      else
        var t := sys.tasks[n];
        var (w, ph) := Step(c, sys.world, n, t.req, t.phase, a);
        System(w, sys.tasks[n := t.(phase := ph)])
    case NewUser(username, id, key) =>
      match Insert(sys.world.users, username, id, key)
      case None => sys
      case Some(users) => sys.(world := sys.world.(users := users))
  }

  function Exec(c: Config, sys: System, events: seq<Event>): System
    decreases |events|
  {
    if events == [] then sys else Exec(c, Apply(c, sys, events[0]), events[1..])
  }

  /** Any users, nobody follows anybody yet. */
  function Start(users: seq<User>): System {
    System(World(users, [], {}, []), [])
  }

  // ---------- one request running alone ----------

  function Rank(ph: Phase): nat {
    match ph
    case FindingUser(_) => 5
    case FindingActor(_, _) => 4
    case FetchingKey(_, _) => 3
    case CreatingActor(_, _, _) => 2
    case Inserting(_, _) => 1
    case Replied(_) => 0
    case _ => 0
  }

  datatype Final = Final(world: World, outcome: Outcome, clock: nat)

  function Finish(c: Config, env: nat -> Answer, w: World, n: nat, req: Request, ph: Phase, clock: nat): Final
    decreases Rank(ph), if ph.Replied? then 0 else 1
  {
    if ph.Replied? then Final(w, ph.outcome, clock)
    else
      var (w', ph') := Step(c, w, n, req, ph, env(clock));
      Finish(c, env, w', n, req, ph', clock + 1)
  }

  lemma FinishStep(c: Config, env: nat -> Answer, w: World, n: nat, req: Request, ph: Phase, clock: nat, w': World,
      ph': Phase)
    requires !ph.Replied? && Step(c, w, n, req, ph, env(clock)) == (w', ph')
    ensures Finish(c, env, w, n, req, ph, clock) == Finish(c, env, w', n, req, ph', clock + 1)
  {
  }

  lemma LastStep(c: Config, env: nat -> Answer, w: World, n: nat, req: Request, ph: Phase, clock: nat,
                 w': World, outcome: Outcome)
    requires !ph.Replied? && Step(c, w, n, req, ph, env(clock)) == (w', Replied(outcome))
    ensures Finish(c, env, w, n, req, ph, clock) == Final(w', outcome, clock + 1)
  {
  }
}

/** The service itself, in the form of internal/domain/inbox.go and the repositories it calls. Its two methods
    are proved to do what the machine of module Inbox does when a request runs alone. */
module InboxService {
  import opened Options
  import opened Users
  import opened Voter
  import opened Inbox

  class InboxService {
    var users: seq<User>
    var actors: seq<ActorRow>
    var followers: set<(string, string)>
    var log: seq<Effect>
    var clock: nat
    const config: Config
    const env: nat -> Answer

    constructor (config: Config, users: seq<User>, env: nat -> Answer)
      ensures this.config == config && this.env == env && clock == 0 && State() == Start(users).world
    {
      this.config, this.env, this.users := config, env, users;
      actors, followers, log, clock := [], {}, [], 0;
    }

    ghost function State(): World
      reads this
    {
      World(users, actors, followers, log)
    }

    /** How request n ends if it stands at `ph` now. */
    ghost function Ending(n: nat, req: Request, ph: Phase): Final
      reads this
    {
      Finish(config, env, State(), n, req, ph, clock)
    }

    method Ask() returns (a: Answer)
      modifies this`clock
      ensures a == env(old(clock)) && clock == old(clock) + 1
    {
      a := env(clock);
      clock := clock + 1;
    }

    method GetUserFromURL(target: Url) returns (ok: bool, user: Option<User>)
      modifies this`clock
      ensures clock == old(clock) + 1 && ok == env(old(clock)).ok
      ensures user == if ok then Get(users, LastPiece(target.path)) else None
    {
      var a := Ask();
      ok := a.ok;
      user := if ok then Get(users, LastPiece(target.path)) else None;
    }

    /** None when a call fails. */
    method CreateActorIfNoExist(url: Url, ghost n: nat, ghost req: Request, ghost user: string)
      returns (actor: Option<string>)
      modifies this
      ensures users == old(users)
      ensures old(Ending(n, req, FindingActor(user, url)))
           == Ending(n, req, if actor.Some? then AfterActor(config, req, user, actor.value) else Replied(Broken))
    {
      var lookup := Ask();
      if !lookup.ok {
        LastStep(config, env, State(), n, req, FindingActor(user, url), old(clock), State(), Broken);
        return None;
      }
      var known := FindActor(actors, url);
      if known.Some? {
        return Some(known.value.id);
      }
      assert old(Ending(n, req, FindingActor(user, url))) == Ending(n, req, FetchingKey(user, url));
      var key := Ask();
      if !key.ok {
        LastStep(config, env, State(), n, req, FetchingKey(user, url), old(clock) + 1, State(), Broken);
        return None;
      }
      actor := CreateActor(url, key.key, n, req, user);
    }

    method CreateActor(url: Url, key: string, ghost n: nat, ghost req: Request, ghost user: string)
      returns (actor: Option<string>)
      modifies this
      ensures users == old(users)
      ensures old(Ending(n, req, CreatingActor(user, url, key)))
           == Ending(n, req, if actor.Some? then AfterActor(config, req, user, actor.value) else Replied(Broken))
    {
      var insert := Ask();
      if FindActor(actors, url).Some? || KnownActor(actors, insert.id) {
        return None;
      }
      if TakesEffect(insert) {
        actors := actors + [ActorRow(insert.id, url, key)];
      }
      return if insert.ok then Some(insert.id) else None;
    }

    /** The insert of the pair; the repository passes the error of the database on. */
    method FollowUser(n: nat, user: string, actor: string, ghost req: Request) returns (ok: bool)
      modifies this
      ensures users == old(users)
      ensures old(Ending(n, req, Inserting(user, actor)))
              == Ending(n, req, if ok then Accepting(user) else Replied(Broken))
    {
      var insert := Ask();
      if (user, actor) in followers || FindByName(users, user).None? || !KnownActor(actors, actor) {
        FitsOrNot(user, actor);
        return false;
      }
      FitsOrNot(user, actor);
      if TakesEffect(insert) {
        followers := followers + {(user, actor)};
        log := log + [Inserted(n, user, actor)];
      }
      return insert.ok;
    }

    lemma FitsOrNot(user: string, actor: string)
      ensures PairFits(State(), user, actor)
         <==> (user, actor) !in followers && FindByName(users, user).Some? && KnownActor(actors, actor)
    {
    }

    method Enqueue(task: Effect) returns (ok: bool)
      modifies this
      ensures clock == old(clock) + 1 && ok == env(old(clock)).ok
      ensures State() == if TakesEffect(env(old(clock))) then old(State()).(log := old(log) + [task]) else old(State())
    {
      var a := Ask();
      if TakesEffect(a) {
        log := log + [task];
      }
      ok := a.ok;
    }

    method Follow(n: nat, target: Property, actorProperty: Property) returns (outcome: Outcome)
      modifies this
      ensures var req := FollowRequest(target, actorProperty);
              Final(State(), outcome, clock) == old(Ending(n, req, Begin(config, req)))
    {
      var targetUrl := SingleIri(target);
      if targetUrl.None? {
        return Panics;
      }
      if targetUrl.value.host != config.host {
        return MismatchDomain;
      }
      outcome := FollowTarget(n, FollowRequest(target, actorProperty), targetUrl.value);
    }

    method FollowTarget(n: nat, req: Request, target: Url) returns (outcome: Outcome)
      requires req.FollowRequest?
      modifies this
      ensures Final(State(), outcome, clock) == old(Ending(n, req, FindingUser(LastPiece(target.path))))
    {
      ghost var ph := FindingUser(LastPiece(target.path));
      var ok, user := GetUserFromURL(target);
      if !ok || user.None? {
        outcome := if !ok then Broken else UserDoesNotExist;
        LastStep(config, env, State(), n, req, ph, old(clock), State(), outcome);
        return;
      }
      var name := user.value.username;
      FinishStep(config, env, State(), n, req, ph, old(clock), State(), AfterUser(req, name));
      var actorUrl := SingleIri(req.actor);
      if actorUrl.None? {
        return Panics;
      }
      outcome := FollowKnownUser(n, req, name, actorUrl.value);
    }

    method FollowKnownUser(n: nat, req: Request, user: string, url: Url) returns (outcome: Outcome)
      requires req.FollowRequest?
      modifies this
      ensures Final(State(), outcome, clock) == old(Ending(n, req, FindingActor(user, url)))
    {
      var actor := CreateActorIfNoExist(url, n, req, user);
      if actor.None? {
        return Broken;
      }
      if !IsGranted(config.voters, req.actor, CanFollow) {
        ghost var w, at := State(), clock;
        var rejected := Enqueue(Rejected(n, user));
        outcome := if rejected then ActorNotAllowed else Broken;
        LastStep(config, env, w, n, req, Rejecting(user), at, State(), outcome);
        return;
      }
      var inserted := FollowUser(n, user, actor.value, req);
      if !inserted {
        return Broken;
      }
      ghost var w, at := State(), clock;
      var accepted := Enqueue(Accepted(n, user));
      outcome := if accepted then Fine else Broken;
      LastStep(config, env, w, n, req, Accepting(user), at, State(), outcome);
    }

    method UnFollow(n: nat, actorProperty: Property, objects: Option<seq<UndoObject>>) returns (outcome: Outcome)
      modifies this
      ensures var req := UndoRequest(actorProperty, objects);
              Final(State(), outcome, clock) == old(Ending(n, req, Begin(config, req)))
    {
      var actorUrl := SingleIri(actorProperty);
      if actorUrl.None? || objects.None? {
        return Panics;
      }
      if |objects.value| == 0 {
        return Fine;
      }
      if |objects.value| != 1 {
        return Fine;
      }
      if objects.value[0].SomethingElse? {
        return UnsupportedUndo;
      }
      var targetUrl := SingleIri(objects.value[0].target);
      if targetUrl.None? {
        return Panics;
      }
      outcome := UndoTarget(n, UndoRequest(actorProperty, objects), targetUrl.value, actorUrl.value);
    }

    method UndoTarget(n: nat, ghost req: Request, target: Url, actorUrl: Url) returns (outcome: Outcome)
      requires req.UndoRequest? && SingleIri(req.actor) == Some(actorUrl)
      modifies this
      ensures Final(State(), outcome, clock) == old(Ending(n, req, FindingUser(LastPiece(target.path))))
    {
      ghost var ph := FindingUser(LastPiece(target.path));
      var ok, user := GetUserFromURL(target);
      if !ok || user.None? {
        LastStep(config, env, State(), n, req, ph, old(clock), State(), Broken);
        return Broken;
      }
      var name := user.value.username;
      FinishStep(config, env, State(), n, req, ph, old(clock), State(), FindingActor(name, actorUrl));
      var actor := CreateActorIfNoExist(actorUrl, n, req, name);
      if actor.None? {
        return Broken;
      }
      outcome := UnfollowUser(n, name, actor.value, req);
    }

    method UnfollowUser(n: nat, user: string, actor: string, ghost req: Request) returns (outcome: Outcome)
      modifies this
      ensures Final(State(), outcome, clock) == old(Ending(n, req, Deleting(user, actor)))
    {
      var delete := Ask();
      if TakesEffect(delete) {
        followers := followers - {(user, actor)};
        log := log + [Deleted(n, user, actor)];
      }
      outcome := if delete.ok then Fine else Broken;
      LastStep(config, env, old(State()), n, req, Deleting(user, actor), old(clock), State(), outcome);
    }
  }
}

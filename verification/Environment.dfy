/** What the outside world can say to the bridge: one Answer per call to Twitter, Redis or Postgres. */
module Environment {
  import opened Options

  datatype RawRef = RawRef(kind: string, id: string)

  /** A tweet as the Twitter API returns it; `createdAt` is None when the date does not parse. */
  datatype RawTweet = RawTweet(
    id: string, authorId: string, text: string, createdAt: Option<int>, sensitive: bool,
    mediaKeys: seq<string>, refs: seq<RawRef>)

  /** `createdAt` is false when the creation date of the account does not parse. */
  datatype TwitterUser = TwitterUser(id: string, userName: string, createdAt: bool)

  datatype RawMedia = RawMedia(key: string, kind: string, url: string, width: int, height: int)

  datatype Includes = Includes(users: seq<TwitterUser>, media: seq<RawMedia>)

  /** The answer to one call. Which fields matter depends on the call that is being answered.
      ok:       the call reports no error
      tweets, includes: what a tweet lookup returns
      users:    what a user lookup returns
      key:      the fresh private key of a new user
      lands:    a write takes effect. The cache discards the error of Redis, so a write to it can be reported
                as done and still be lost (internal/cache/redis.go:44); an insert of a user can report an error
                and still be done */
  datatype Answer = Answer(
    ok: bool, tweets: seq<RawTweet>, includes: Option<Includes>, users: seq<TwitterUser>,
    key: string, lands: bool)
}

/** Tweets as the bridge stores them, and the conversion from the Twitter API. */
module Tweets {
  import opened Options
  import opened Environment
  import opened Text

  datatype Media = Media(kind: string, url: string, width: int, height: int)

  datatype Tweet = Tweet(
    id: string, authorId: string, authorUsername: string, referencedType: string, text: string,
    published: int, sensitive: bool, refs: seq<Tweet>, medias: seq<Media>)

  // ---------- conversion ----------

  predicate IsSpace(c: char) {
    c == ' ' || c == '\t' || c == '\n' || c == '\r' || c == 12 as char
  }

  const LINK := "https://t.co/"

  /** The text ends in a white space and a shortened link of ten characters. */
  predicate EndsInLink(text: string) {
    && |text| >= 24
    && IsSpace(text[|text| - 24])
    && text[|text| - 23..|text| - 10] == LINK
    && '\n' !in text[|text| - 10..]
  }

  function DropLink(text: string): string {
    if EndsInLink(text) then text[..|text| - 24] else text
  }

  /** The text is the front, a white space, and a shortened link with the given code. */
  predicate WithLink(text: string, front: string, space: char, code: string) {
    text == front + [space] + LINK + code && IsSpace(space) && |code| == 10 && '\n' !in code
  }

  /** A text that ends in a white space and a shortened link loses just these; any other text stays. */
  lemma DropLinkExactly(text: string)
    ensures forall front, space, code | WithLink(text, front, space, code) :: DropLink(text) == front
    ensures DropLink(text) == text || exists space, code :: WithLink(text, DropLink(text), space, code)
  {
    forall front, space, code | WithLink(text, front, space, code) ensures DropLink(text) == front {
      var n := |front|;
      assert text[n] == space && text[n + 1..n + 14] == LINK && text[n + 14..] == code;
      assert text[..n] == front;
    }
    if EndsInLink(text) {
      var n := |text| - 24;
      assert text == text[..n] + [text[n]] + LINK + text[n + 14..];
      assert WithLink(text, DropLink(text), text[n], text[n + 14..]);
    }
  }

  function ToMedia(m: RawMedia): Media {
    Media(m.kind, m.url, m.width, m.height)
  }

  /** The media of the response with the given key, in order. */
  function MediaFor(key: string, media: seq<RawMedia>): seq<Media> {
    if media == [] then []
    else
      var n := |media| - 1;
      MediaFor(key, media[..n]) + if media[n].key == key then [ToMedia(media[n])] else []
  }

  function Medias(keys: seq<string>, media: seq<RawMedia>): seq<Media> {
    if keys == [] then []
    else Medias(keys[..|keys| - 1], media) + MediaFor(keys[|keys| - 1], media)
  }

  /** The lower-case name of the first listed user with this ID, or "". */
  function NameOf(users: seq<TwitterUser>, id: string): string {
    if users == [] then ""
    else if users[0].id == id then Lower(users[0].userName)
    else NameOf(users[1..], id)
  }

  function Convert(raw: RawTweet, kind: string, includes: Option<Includes>): Option<Tweet> {
    if raw.createdAt.None? then None
    else
      Some(Tweet(raw.id, raw.authorId,
                 if includes.Some? then NameOf(includes.value.users, raw.authorId) else "",
                 kind, DropLink(raw.text), raw.createdAt.value, raw.sensitive, [],
                 if includes.Some? then Medias(raw.mediaKeys, includes.value.media) else []))
  }

  /** The stored medium has all of what the response says about it. */
  predicate IsMediaOf(m: Media, raw: RawMedia) {
    m.kind == raw.kind && m.url == raw.url && m.width == raw.width && m.height == raw.height
  }

  lemma {:induction false} MediaIsFound(key: string, media: seq<RawMedia>, m: Media)
    ensures m in MediaFor(key, media) <==> exists r | r in media :: r.key == key && IsMediaOf(m, r)
  {
    if media != [] {
      var n := |media| - 1;
      MediaIsFound(key, media[..n], m);
      assert media == media[..n] + [media[n]];
      assert IsMediaOf(m, media[n]) <==> m == ToMedia(media[n]);
    }
  }

  /** A converted tweet has the media of the response whose keys the tweet names, and no others. */
  lemma {:induction false} MediasExactly(keys: seq<string>, media: seq<RawMedia>, m: Media)
    ensures m in Medias(keys, media) <==> exists r | r in media :: r.key in keys && IsMediaOf(m, r)
  {
    if keys != [] {
      var n := |keys| - 1;
      MediasExactly(keys[..n], media, m);
      MediaIsFound(keys[n], media, m);
      assert keys == keys[..n] + [keys[n]];
    }
  }

  /** The name of the first listed account with the ID, without capitals; empty when none is listed. */
  predicate IsNameOf(name: string, users: seq<TwitterUser>, id: string) {
    if exists i | 0 <= i < |users| :: users[i].id == id
    then (forall c | c in name :: !IsCapital(c))
         && exists i | 0 <= i < |users| ::
              users[i].id == id && SameButForCase(name, users[i].userName) && forall j | 0 <= j < i :: users[j].id != id
    else name == ""
  }

  lemma {:induction false} NameOfExactly(users: seq<TwitterUser>, id: string)
    ensures IsNameOf(NameOf(users, id), users, id)
  {
    if users != [] {
      if users[0].id == id {
        LowerTwice(users[0].userName);
        LowerForgetsCase(Lower(users[0].userName), users[0].userName);
      } else {
        NameOfExactly(users[1..], id);
        assert forall i | 0 <= i < |users| - 1 :: users[1..][i] == users[i + 1];
        NameIsBehind(NameOf(users, id), users, id);
      }
    }
  }

  lemma NameIsBehind(name: string, users: seq<TwitterUser>, id: string)
    requires users != [] && users[0].id != id && IsNameOf(name, users[1..], id)
    ensures IsNameOf(name, users, id)
  {
    var rest := users[1..];
    assert forall i | 0 < i < |users| :: rest[i - 1] == users[i];
    if exists i | 0 <= i < |rest| :: rest[i].id == id {
      var i :| 0 <= i < |rest| && rest[i].id == id && SameButForCase(name, rest[i].userName)
               && forall j | 0 <= j < i :: rest[j].id != id;
      assert users[i + 1] == rest[i];
      assert forall j | 0 <= j < i + 1 :: users[j].id != id;
    } else {
      assert forall i | 0 <= i < |users| :: users[i].id != id;
    }
  }

  method ConvertTweet(raw: RawTweet, kind: string, includes: Option<Includes>) returns (r: Option<Tweet>)
    ensures r == Convert(raw, kind, includes)
  {
    if raw.createdAt.None? {
      return None;
    }
    var medias: seq<Media> := [];
    var username := "";
    if includes.Some? {
      var media := includes.value.media;
      for i := 0 to |raw.mediaKeys|
        invariant medias == Medias(raw.mediaKeys[..i], media)
      {
        for j := 0 to |media|
          invariant medias == Medias(raw.mediaKeys[..i], media) + MediaFor(raw.mediaKeys[i], media[..j])
        {
          assert media[..j + 1][..j] == media[..j];
          if raw.mediaKeys[i] == media[j].key {
            medias := medias + [ToMedia(media[j])];
          }
        }
        assert media[..|media|] == media;
        assert raw.mediaKeys[..i + 1][..i] == raw.mediaKeys[..i];
      }
      assert raw.mediaKeys[..|raw.mediaKeys|] == raw.mediaKeys;
      var users := includes.value.users;
      var k := 0;
      while k < |users|
        invariant 0 <= k <= |users|
        invariant username == ""
        invariant NameOf(users, raw.authorId) == NameOf(users[k..], raw.authorId)
      {
        if raw.authorId == users[k].id {
          username := Lower(users[k].userName);
          break;
        }
        k := k + 1;
      }
      assert username == NameOf(users, raw.authorId);
    }
    return Some(Tweet(raw.id, raw.authorId, username, kind, DropLink(raw.text), raw.createdAt.value,
                      raw.sensitive, [], medias));
  }

  /** The fields of a tweet that come from the tweet itself and not from the way it was fetched. */
  datatype Core = Core(id: string, authorId: string, text: string, published: int, sensitive: bool)

  function CoreOf(t: Tweet): Core {
    Core(t.id, t.authorId, t.text, t.published, t.sensitive)
  }

  predicate CarriesCore(raw: RawTweet, t: Tweet) {
    && raw.createdAt.Some?
    && CoreOf(t) == Core(raw.id, raw.authorId, DropLink(raw.text), raw.createdAt.value, raw.sensitive)
  }

  /** What Twitter has for a tweet: the tweet, the name of its author and its media. A None says nothing. */
  datatype Content = Content(raw: RawTweet, username: Option<string>, medias: Option<seq<Media>>)

  /** A stored tweet agrees with Twitter on everything but its referenced type and its nested references. */
  predicate Carries(c: Content, t: Tweet) {
    && CarriesCore(c.raw, t)
    && (c.username.Some? ==> t.authorUsername == Lower(c.username.value))
    && (c.medias.Some? ==> t.medias == c.medias.value)
  }

  /** A tweet as a response with these lists gives it, under this type. */
  ghost predicate IsConverted(raw: RawTweet, kind: string, includes: Option<Includes>, t: Tweet) {
    && CarriesCore(raw, t) && t.referencedType == kind && t.refs == []
    && (if includes.Some? then IsNameOf(t.authorUsername, includes.value.users, raw.authorId)
        else t.authorUsername == "")
    && (forall m :: m in t.medias <==>
          includes.Some? && exists r | r in includes.value.media :: r.key in raw.mediaKeys && IsMediaOf(m, r))
  }

  lemma ConvertExactly(raw: RawTweet, kind: string, includes: Option<Includes>)
    ensures Convert(raw, kind, includes).Some? <==> raw.createdAt.Some?
    ensures Convert(raw, kind, includes).Some? ==> IsConverted(raw, kind, includes, Convert(raw, kind, includes).value)
  {
    if includes.Some? {
      NameOfExactly(includes.value.users, raw.authorId);
      forall m ensures m in Medias(raw.mediaKeys, includes.value.media) <==>
                       exists r | r in includes.value.media :: r.key in raw.mediaKeys && IsMediaOf(m, r) {
        MediasExactly(raw.mediaKeys, includes.value.media, m);
      }
    }
  }

  /** The lists that come with a response say the same. */
  predicate Tells(includes: Option<Includes>, c: Content) {
    && (c.username.Some? ==> includes.Some? && NameOf(includes.value.users, c.raw.authorId) == Lower(c.username.value))
    && (c.medias.Some? ==> includes.Some? && Medias(c.raw.mediaKeys, includes.value.media) == c.medias.value)
  }

  lemma NormalCarries(c: Content, t: Tweet)
    requires Carries(c, t)
    ensures Carries(c, Normal(t))
  {
    if c.username.Some? {
      LowerTwice(c.username.value);
    }
  }

  /** The accounts and media of Twitter. A response is complete for a tweet if it lists nothing else, the
      author of the tweet among the accounts, and each of its media once. */
  predicate Complete(names: map<string, string>, media: map<string, RawMedia>, raw: RawTweet, includes: Includes) {
    && raw.authorId in names && (forall key | key in raw.mediaKeys :: key in media)
    && (forall u | u in includes.users :: u.id in names && names[u.id] == u.userName)
    && (exists u | u in includes.users :: u.id == raw.authorId)
    && (forall key | key in raw.mediaKeys :: ListedOnce(key, media[key], includes.media))
  }

  predicate ListedOnce(key: string, m: RawMedia, media: seq<RawMedia>) {
    exists i | 0 <= i < |media| ::
      media[i] == m && m.key == key && forall j | 0 <= j < |media| && j != i :: media[j].key != key
  }

  lemma {:induction false} NameIsListed(users: seq<TwitterUser>, id: string, name: string)
    requires forall u | u in users && u.id == id :: u.userName == name
    requires exists u | u in users :: u.id == id
    ensures NameOf(users, id) == Lower(name)
  {
    if users[0].id != id {
      assert forall u | u in users[1..] :: u in users;
      var u :| u in users && u.id == id;
      assert u in users[1..];
      NameIsListed(users[1..], id, name);
    }
  }

  lemma {:induction false} MediaListedNowhere(key: string, media: seq<RawMedia>)
    requires forall j | 0 <= j < |media| :: media[j].key != key
    ensures MediaFor(key, media) == []
  {
    if media != [] {
      MediaListedNowhere(key, media[..|media| - 1]);
    }
  }

  lemma {:induction false} MediaListedOnce(key: string, m: RawMedia, media: seq<RawMedia>)
    requires ListedOnce(key, m, media)
    ensures MediaFor(key, media) == [ToMedia(m)]
  {
    var i :| 0 <= i < |media| && media[i] == m && m.key == key
             && forall j | 0 <= j < |media| && j != i :: media[j].key != key;
    var n := |media| - 1;
    if i == n {
      MediaListedNowhere(key, media[..n]);
    } else {
      assert media[..n][i] == m;
      MediaListedOnce(key, m, media[..n]);
    }
  }

  function MediaOf(keys: seq<string>, media: map<string, RawMedia>): seq<Media>
    requires forall key | key in keys :: key in media
  {
    seq(|keys|, i requires 0 <= i < |keys| => ToMedia(media[keys[i]]))
  }

  lemma {:induction false} MediasInOrder(keys: seq<string>, media: map<string, RawMedia>, listed: seq<RawMedia>)
    requires forall key | key in keys :: key in media && ListedOnce(key, media[key], listed)
    ensures Medias(keys, listed) == MediaOf(keys, media)
  {
    if keys != [] {
      var n := |keys| - 1;
      assert forall key | key in keys[..n] :: key in keys;
      MediasInOrder(keys[..n], media, listed);
      MediaListedOnce(keys[n], media[keys[n]], listed);
      assert MediaOf(keys, media) == MediaOf(keys[..n], media) + [ToMedia(media[keys[n]])];
    }
  }

  /** When each medium is listed once, the media come out one by one in the order of the keys. */
  lemma MediasAreListed(keys: seq<string>, media: map<string, RawMedia>, listed: seq<RawMedia>)
    requires forall key | key in keys :: key in media && ListedOnce(key, media[key], listed)
    ensures |Medias(keys, listed)| == |keys|
    ensures forall i | 0 <= i < |keys| :: IsMediaOf(Medias(keys, listed)[i], media[keys[i]])
  {
    MediasInOrder(keys, media, listed);
  }

  /** From a complete response every conversion of the tweet yields its author's name, and its media one by
      one in the order of the tweet. */
  lemma CompleteIncludesTell(names: map<string, string>, media: map<string, RawMedia>, raw: RawTweet,
      includes: Includes)
    requires Complete(names, media, raw, includes)
    ensures Tells(Some(includes), Content(raw, Some(names[raw.authorId]), Some(MediaOf(raw.mediaKeys, media))))
  {
    NameIsListed(includes.users, raw.authorId, names[raw.authorId]);
    MediasInOrder(raw.mediaKeys, media, includes.media);
  }

  // ---------- retweets ----------

  const RETWEETED := "retweeted"

  /** The tweet that this one repeats: its first reference of that type. */
  function Retweet(t: Tweet): (r: Option<Tweet>)
    ensures r.None? <==> forall x | x in t.refs :: x.referencedType != RETWEETED
    ensures r.Some? ==> exists i | 0 <= i < |t.refs| ::
      t.refs[i] == r.value && r.value.referencedType == RETWEETED
      && forall j | 0 <= j < i :: t.refs[j].referencedType != RETWEETED
  {
    FirstRetweet(t.refs)
  }

  function FirstRetweet(refs: seq<Tweet>): (r: Option<Tweet>)
    ensures r.None? <==> forall x | x in refs :: x.referencedType != RETWEETED
    ensures r.Some? ==> exists i | 0 <= i < |refs| ::
      refs[i] == r.value && r.value.referencedType == RETWEETED
      && forall j | 0 <= j < i :: refs[j].referencedType != RETWEETED
  {
    if refs == [] then None
    else if refs[0].referencedType == RETWEETED then Some(refs[0])
    else
      var rest := FirstRetweet(refs[1..]);
      assert forall i | 0 <= i < |refs| - 1 :: refs[i + 1] == refs[1..][i];
      rest
  }

  // ---------- normal form ----------

  /** Store and GetTweet both rewrite the author name to lower case. */
  function Normal(t: Tweet): (r: Tweet)
    ensures SameButForCase(r.authorUsername, t.authorUsername) && forall c | c in r.authorUsername :: !IsCapital(c)
    ensures r == t.(authorUsername := r.authorUsername)
  {
    LowerTwice(t.authorUsername);
    LowerForgetsCase(Lower(t.authorUsername), t.authorUsername);
    t.(authorUsername := Lower(t.authorUsername))
  }

  function NormalAll(ts: seq<Tweet>): (r: seq<Tweet>)
    ensures |r| == |ts|
    ensures forall i :: 0 <= i < |ts| ==> r[i] == Normal(ts[i])
  {
    seq(|ts|, i requires 0 <= i < |ts| => Normal(ts[i]))
  }

  lemma NormalTwice(t: Tweet)
    ensures Normal(Normal(t)) == Normal(t)
  {
    LowerTwice(t.authorUsername);
  }

  lemma NameIsLower(users: seq<TwitterUser>, id: string)
    ensures Lower(NameOf(users, id)) == NameOf(users, id)
  {
    if users != [] {
      LowerTwice(users[0].userName);
    }
  }

  // ---------- copies at any depth ----------

  /** Every tweet in the list and every copy nested in one of them, at any depth. */
  ghost function Copies(ts: seq<Tweet>): set<Tweet> {
    if ts == [] then {} else {ts[0]} + Copies(ts[0].refs) + Copies(ts[1..])
  }

  lemma CopiesOfMember(ts: seq<Tweet>, t: Tweet)
    requires t in ts
    ensures t in Copies(ts) && Copies(t.refs) <= Copies(ts)
  {
    if t != ts[0] {
      CopiesOfMember(ts[1..], t);
    }
  }

  lemma CopiesFromMembers(ts: seq<Tweet>, x: Tweet)
    requires x in Copies(ts)
    ensures exists t | t in ts :: x == t || x in Copies(t.refs)
  {
    if x == ts[0] || x in Copies(ts[0].refs) {
      assert ts[0] in ts;
    } else {
      CopiesFromMembers(ts[1..], x);
      var t :| t in ts[1..] && (x == t || x in Copies(t.refs));
      assert t in ts;
    }
  }

  function Ids(ts: seq<Tweet>): (r: seq<string>)
    ensures |r| == |ts|
    ensures forall i :: 0 <= i < |ts| ==> r[i] == ts[i].id
  {
    seq(|ts|, i requires 0 <= i < |ts| => ts[i].id)
  }

  function AuthorIds(ts: seq<Tweet>): (r: seq<string>)
    ensures |r| == |ts|
    ensures forall i :: 0 <= i < |ts| ==> r[i] == ts[i].authorId
  {
    seq(|ts|, i requires 0 <= i < |ts| => ts[i].authorId)
  }
}

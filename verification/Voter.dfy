/** Who may follow: internal/authorization/access_decision_manager.go and voter/ActivityVoter.go. */
module Voter {
  import opened Options
  import opened Text

  /** A parsed URL. `host` is what net/url keeps as the host: with its port, and with the brackets of an IPv6
      address. `rest` is what else the text holds: user information, query and fragment. Two URLs print the same
      text exactly when they have the same parts. */
  datatype Url = Url(scheme: string, host: string, path: string, rest: string)

  /** A port, as far as there is one, is what follows the last colon. */
  function WithoutPort(host: string): string {
    var colon := LastIndexOf(host, ':');
    if colon.Some? && AllDigits(host[colon.value + 1..]) then host[..colon.value] else host
  }

  function WithoutBrackets(name: string): string {
    if |name| >= 2 && name[0] == '[' && name[|name| - 1] == ']' then name[1..|name| - 1] else name
  }

  function Hostname(u: Url): string {
    WithoutBrackets(WithoutPort(u.host))
  }

  lemma PortIsDropped(name: string, digits: string)
    requires AllDigits(digits)
    ensures WithoutPort(name + ":" + digits) == name
  {
    var host := name + ":" + digits;
    assert host[|name|] == ':' && host[|name| + 1..] == digits && host[..|name|] == name;
    assert forall k | |name| < k < |host| :: host[k] in digits;
  }

  lemma NoPortIsDropped(name: string)
    requires ':' in name ==> name[|name| - 1] == ']'
    ensures WithoutPort(name) == name
  {
    var colon := LastIndexOf(name, ':');
    if colon.Some? {
      var rest := name[colon.value + 1..];
      assert |rest| > 0 && rest[|rest| - 1] == ']' && rest[|rest| - 1] in rest;
    }
  }

  /** As a URL is written, with brackets around an address that holds colons. */
  function Written(name: string): string {
    if ':' in name then "[" + name + "]" else name
  }

  /** The name or the address is recovered from the host of a URL, with a port and without. */
  lemma HostnameIsRecovered(u: Url, name: string, digits: string)
    requires u.host == Written(name) || u.host == Written(name) + ":" + digits
    requires AllDigits(digits) && (':' !in name && name != "" ==> name[0] != '[')
    ensures Hostname(u) == name
  {
    if u.host == Written(name) {
      NoPortIsDropped(Written(name));
    } else {
      PortIsDropped(Written(name), digits);
    }
    if ':' in name {
      assert Written(name)[1..|name| + 1] == name;
    }
  }

  /** The values of an ActivityStreams property; None stands for a value that is not an IRI. */
  type Property = seq<Option<Url>>

  /** The only shape that serialises to one string. */
  function SingleIri(p: Property): (r: Option<Url>)
    ensures r.Some? <==> |p| == 1 && p[0].Some?
  {
    if |p| == 1 then p[0] else None
  }

  function LastPiece(path: string): string {
    var pieces := SplitPath(path);
    pieces[|pieces| - 1]
  }

  datatype Attribute = CanFollow | OtherAttribute

  datatype Voter = ActivityVoter(allowedUsers: seq<string>)

  /** "@name@host"; None without a slash in the path. */
  function UrlToUsername(u: Url): Option<string> {
    if |SplitPath(u.path)| <= 1 then None else Some("@" + LastPiece(u.path) + "@" + Hostname(u))
  }

  predicate EndsWithAny(name: string, entries: seq<string>) {
    exists entry | entry in entries :: HasSuffix(name, entry)
  }

  predicate MayFollow(v: Voter, actor: Property) {
    match SingleIri(actor)
    case None => false
    case Some(u) => UrlToUsername(u).Some? && EndsWithAny(UrlToUsername(u).value, v.allowedUsers)
  }

  predicate Vote(v: Voter, actor: Property, attr: Attribute) {
    attr.CanFollow? && MayFollow(v, actor)
  }

  predicate IsGranted(voters: seq<Voter>, actor: Property, attr: Attribute) {
    exists v | v in voters :: Vote(v, actor, attr)
  }

  // ---------- what an entry of the list means ----------

  lemma {:induction false} HasSlash(path: string)
    ensures |SplitPath(path)| > 1 <==> '/' in path
  {
    if path != [] {
      HasSlash(path[1..]);
      assert path == [path[0]] + path[1..];
    }
  }

  /** The last piece is what follows the last slash, or all there is. */
  lemma {:induction false} LastPieceIsTheTail(path: string)
    ensures '/' !in LastPiece(path)
    ensures path == LastPiece(path) || HasSuffix(path, "/" + LastPiece(path))
  {
    SplitPathExactly(path);
    JoinEndsWithLast(SplitPath(path));
    assert LastPiece(path) in SplitPath(path);
  }

  lemma {:induction false} JoinEndsWithLast(pieces: seq<string>)
    requires pieces != []
    ensures JoinPath(pieces) == pieces[|pieces| - 1] || HasSuffix(JoinPath(pieces), "/" + pieces[|pieces| - 1])
  {
    if |pieces| > 1 {
      var last := pieces[|pieces| - 1];
      JoinEndsWithLast(pieces[1..]);
      assert pieces[1..][|pieces| - 2] == last;
      if JoinPath(pieces[1..]) == last {
        assert JoinPath(pieces) == pieces[0] + ("/" + last);
        Suffix(pieces[0], "/" + last);
      } else {
        var front := SuffixSplits(JoinPath(pieces[1..]), "/" + last);
        assert JoinPath(pieces) == (pieces[0] + "/" + front) + ("/" + last);
        Suffix(pieces[0] + "/" + front, "/" + last);
      }
    }
  }

  lemma Suffix(front: string, tail: string)
    ensures HasSuffix(front + tail, tail)
  {
    assert (front + tail)[|front|..] == tail;
  }

  lemma SuffixSplits(s: string, tail: string) returns (front: string)
    requires HasSuffix(s, tail)
    ensures s == front + tail
  {
    front := s[..|s| - |tail|];
  }

  lemma AtInTail(a: string, b: string, s: string, t: string)
    requires a + "@" + s == b + t && |t| > |s|
    ensures '@' in t
  {
    assert (a + "@" + s)[|a|] == '@';
    assert t[|a| - |b|] == '@';
  }

  /** Two equal texts, each cut at an `@` that the rest does not contain, are cut at the same place. */
  lemma SameTail(a: string, b: string, s: string, t: string)
    requires a + "@" + s == b + "@" + t && '@' !in s && '@' !in t
    ensures a == b && s == t
  {
    if |s| < |t| {
      AtInTail(a, b + "@", s, t);
    } else if |t| < |s| {
      AtInTail(b, a + "@", t, s);
    } else {
      var whole := a + "@" + s;
      assert whole[..|a|] == a && whole[..|b|] == b && whole[|a| + 1..] == s && whole[|b| + 1..] == t;
    }
  }

  /** The name an actor is compared under. */
  function FullName(u: Url): string {
    "@" + LastPiece(u.path) + "@" + Hostname(u)
  }

  lemma OneEntry(u: Url, entry: string)
    requires '/' in u.path
    ensures IsGranted([ActivityVoter([entry])], [Some(u)], CanFollow) <==> HasSuffix(FullName(u), entry)
  {
    HasSlash(u.path);
    var v := ActivityVoter([entry]);
    assert v in [v] && entry in [entry];
    assert Vote(v, [Some(u)], CanFollow) <==> HasSuffix(FullName(u), entry);
  }

  /** An entry "@host" grants every actor of that host and nobody else. */
  lemma HostEntryExactly(u: Url, host: string)
    requires '/' in u.path && '@' !in host && '@' !in Hostname(u)
    ensures IsGranted([ActivityVoter(["@" + host])], [Some(u)], CanFollow) <==> Hostname(u) == host
  {
    OneEntry(u, "@" + host);
    var front := "@" + LastPiece(u.path);
    if HasSuffix(FullName(u), "@" + host) {
      var rest := SuffixSplits(FullName(u), "@" + host);
      assert front + "@" + Hostname(u) == rest + "@" + host;
      SameTail(front, rest, Hostname(u), host);
    }
    if Hostname(u) == host {
      assert FullName(u) == front + ("@" + host);
      Suffix(front, "@" + host);
    }
  }

  /** An entry "@name@host" grants, on that host, the name itself and whatever ends with "@name". */
  lemma UserEntryExactly(u: Url, name: string, host: string)
    requires '/' in u.path && '@' !in host && '@' !in Hostname(u) && '@' !in name
    ensures IsGranted([ActivityVoter(["@" + name + "@" + host])], [Some(u)], CanFollow)
       <==> Hostname(u) == host && (LastPiece(u.path) == name || HasSuffix(LastPiece(u.path), "@" + name))
  {
    var entry := "@" + name + "@" + host;
    OneEntry(u, entry);
    if HasSuffix(FullName(u), entry) {
      UserSuffixFits(LastPiece(u.path), Hostname(u), name, host);
    }
    if Hostname(u) == host && (LastPiece(u.path) == name || HasSuffix(LastPiece(u.path), "@" + name)) {
      UserSuffixFound(LastPiece(u.path), name, host);
    }
  }

  lemma UserSuffixFits(piece: string, hostname: string, name: string, host: string)
    requires '@' !in host && '@' !in hostname && HasSuffix("@" + piece + "@" + hostname, "@" + name + "@" + host)
    ensures hostname == host && (piece == name || HasSuffix(piece, "@" + name))
  {
    var rest := SuffixSplits("@" + piece + "@" + hostname, "@" + name + "@" + host);
    assert rest + ("@" + name + "@" + host) == (rest + ("@" + name)) + "@" + host;
    SameTail("@" + piece, rest + ("@" + name), hostname, host);
    if rest == [] {
      assert piece == ("@" + piece)[1..] == ("@" + name)[1..] == name;
    } else {
      assert piece == ("@" + piece)[1..] == rest[1..] + ("@" + name);
      Suffix(rest[1..], "@" + name);
    }
  }

  lemma UserSuffixFound(piece: string, name: string, host: string)
    requires piece == name || HasSuffix(piece, "@" + name)
    ensures HasSuffix("@" + piece + "@" + host, "@" + name + "@" + host)
  {
    var entry := "@" + name + "@" + host;
    if piece != name {
      var front := SuffixSplits(piece, "@" + name);
      assert "@" + piece + "@" + host == ("@" + front) + entry;
      Suffix("@" + front, entry);
    } else {
      assert [] + entry == entry;
      Suffix([], entry);
    }
  }

  lemma SuffixOfSuffix(front: string, tail: string, entry: string)
    requires |entry| <= |tail|
    ensures HasSuffix(front + tail, entry) <==> HasSuffix(tail, entry)
  {
    var whole := front + tail;
    assert whole[|whole| - |entry|..] == tail[|tail| - |entry|..];
  }

  lemma LongSuffixHasAt(front: string, hostname: string, entry: string)
    requires |entry| > |hostname| && HasSuffix(front + "@" + hostname, entry)
    ensures '@' in entry
  {
    var rest := SuffixSplits(front + "@" + hostname, entry);
    AtInTail(front, rest, hostname, entry);
  }

  /** An entry without any `@` is compared with the end of the host name only. */
  lemma BareEntryExactly(u: Url, entry: string)
    requires '/' in u.path && '@' !in entry
    ensures IsGranted([ActivityVoter([entry])], [Some(u)], CanFollow) <==> HasSuffix(Hostname(u), entry)
  {
    OneEntry(u, entry);
    var front := "@" + LastPiece(u.path);
    if |entry| <= |Hostname(u)| {
      SuffixOfSuffix(front + "@", Hostname(u), entry);
    } else if HasSuffix(FullName(u), entry) {
      LongSuffixHasAt(front, Hostname(u), entry);
    }
  }

  /** Who is granted what, in full: only following, and only to a single actor whose path has a slash and whose
      full name ends with an entry of one of the voters. */
  lemma GrantedExactly(voters: seq<Voter>, actor: Property, attr: Attribute)
    ensures IsGranted(voters, actor, attr)
       <==> && attr == CanFollow && |actor| == 1 && actor[0].Some? && '/' in actor[0].value.path
            && exists v | v in voters :: exists entry | entry in v.allowedUsers ::
                 HasSuffix("@" + LastPiece(actor[0].value.path) + "@" + Hostname(actor[0].value), entry)
  {
    if |actor| == 1 && actor[0].Some? {
      HasSlash(actor[0].value.path);
      forall v | v in voters
        ensures Vote(v, actor, attr) <==>
                && attr == CanFollow && '/' in actor[0].value.path
                && exists entry | entry in v.allowedUsers ::
                     HasSuffix("@" + LastPiece(actor[0].value.path) + "@" + Hostname(actor[0].value), entry)
      {
      }
    }
  }

  /** Any number of voters and entries: one entry decides, and only for CanFollow on a single actor. */
  lemma GrantedByOneEntry(voters: seq<Voter>, actor: Property, attr: Attribute)
    ensures IsGranted(voters, actor, attr)
       <==> attr == CanFollow && exists v | v in voters :: exists entry | entry in v.allowedUsers ::
              IsGranted([ActivityVoter([entry])], actor, CanFollow)
  {
    forall v, entry | v in voters && entry in v.allowedUsers
      ensures IsGranted([ActivityVoter([entry])], actor, CanFollow)
         <==> SingleIri(actor).Some? && UrlToUsername(actor[0].value).Some?
              && HasSuffix(UrlToUsername(actor[0].value).value, entry)
    {
      var one := ActivityVoter([entry]);
      assert one in [one] && entry in [entry];
      assert IsGranted([one], actor, CanFollow) <==> Vote(one, actor, CanFollow);
    }
    if IsGranted(voters, actor, attr) {
      var v :| v in voters && Vote(v, actor, attr);
      var entry :| entry in v.allowedUsers && HasSuffix(UrlToUsername(actor[0].value).value, entry);
      assert IsGranted([ActivityVoter([entry])], actor, CanFollow);
    }
    if v, entry :| attr == CanFollow && v in voters && entry in v.allowedUsers
                   && IsGranted([ActivityVoter([entry])], actor, CanFollow) {
      assert Vote(v, actor, CanFollow);
    }
  }
}

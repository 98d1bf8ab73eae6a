/** The memoised queries of the generated models: their keys are plain concatenations of column names
    (internal/models/boil_types.go, internal/models/users.go and its mirror image actors.go). */
module QueryCache {
  import opened Options
  import opened Text

  datatype Columns = Columns(kind: int, cols: seq<string>)

  function Concat(parts: seq<string>): string {
    if parts == [] then "" else parts[0] + Concat(parts[1..])
  }

  function KindAndCols(c: Columns): string {
    Itoa(c.kind) + Concat(c.cols)
  }

  function CacheKey(columns: Columns, nzDefaults: seq<string>): string {
    Itoa(columns.kind) + Concat(columns.cols) + if nzDefaults == [] then "" else "." + Concat(nzDefaults)
  }

  lemma {:induction false} ConcatLast(parts: seq<string>, last: string)
    ensures Concat(parts + [last]) == Concat(parts) + last
  {
    if parts == [] {
      assert [] + [last] == [last];
    } else {
      assert (parts + [last])[1..] == parts[1..] + [last];
      ConcatLast(parts[1..], last);
    }
  }

  /** A buffer that only grows at its end. */
  class Buffer {
    var text: string

    constructor ()
      ensures text == ""
    {
      text := "";
    }

    method WriteString(s: string)
      modifies this
      ensures text == old(text) + s
    {
      text := text + s;
    }

    method WriteAll(parts: seq<string>)
      modifies this
      ensures text == old(text) + Concat(parts)
    {
      for i := 0 to |parts|
        invariant text == old(text) + Concat(parts[..i])
      {
        ConcatLast(parts[..i], parts[i]);
        assert parts[..i + 1] == parts[..i] + [parts[i]];
        WriteString(parts[i]);
      }
      assert parts[..|parts|] == parts;
    }

    method WriteColumns(c: Columns)
      modifies this
      ensures text == old(text) + KindAndCols(c)
    {
      WriteString(Itoa(c.kind));
      WriteAll(c.cols);
      Assoc(old(text), Itoa(c.kind), Concat(c.cols));
    }
  }

  lemma Assoc(a: string, b: string, c: string)
    ensures (a + b) + c == a + (b + c)
  {
  }

  /** makeCacheKey. */
  method MakeCacheKey(columns: Columns, nzDefaults: seq<string>) returns (key: string)
    ensures key == CacheKey(columns, nzDefaults)
  {
    var buf := new Buffer();
    buf.WriteString(Itoa(columns.kind));
    buf.WriteAll(columns.cols);
    if |nzDefaults| != 0 {
      buf.WriteString(".");
    }
    buf.WriteAll(nzDefaults);
    key := buf.text;
  }

  datatype UpsertArgs = UpsertArgs(
    updateOnConflict: bool, conflict: seq<string>, update: Columns, insert: Columns, nzDefaults: seq<string>)

  /** Five parts, a dot between any two. */
  function UpsertKey(u: UpsertArgs): string {
    (if u.updateOnConflict then "t" else "f")
    + "." + Concat(u.conflict)
    + "." + KindAndCols(u.update)
    + "." + KindAndCols(u.insert)
    + "." + Concat(u.nzDefaults)
  }

  /** The key as Upsert builds it in line. */
  method MakeUpsertKey(u: UpsertArgs) returns (key: string)
    ensures key == UpsertKey(u)
  {
    var buf := new Buffer();
    if u.updateOnConflict {
      buf.WriteString("t");
    } else {
      buf.WriteString("f");
    }
    assert buf.text == if u.updateOnConflict then "t" else "f";
    buf.WriteString(".");
    buf.WriteAll(u.conflict);
    buf.WriteString(".");
    buf.WriteColumns(u.update);
    buf.WriteString(".");
    buf.WriteColumns(u.insert);
    buf.WriteString(".");
    buf.WriteAll(u.nzDefaults);
    key := buf.text;
  }

  // ---------- the key determines the columns ----------

  predicate Prefix(s: string, t: string) {
    |s| <= |t| && t[..|s|] == s
  }

  predicate Plain(name: string) {
    name != [] && '.' !in name && !IsDigit(name[0]) && name[0] != '-'
  }

  /** Names that are never confused when they are written one after the other. */
  predicate Code(names: seq<string>) {
    && (forall a | a in names :: Plain(a))
    && (forall a, b | a in names && b in names && Prefix(a, b) :: a == b)
  }

  predicate Over(names: seq<string>, parts: seq<string>) {
    forall p | p in parts :: p in names
  }

  const USER_COLUMNS := ["username", "id", "private_key", "created_at"]
  const ACTOR_COLUMNS := ["id", "url", "public_key"]

  /** The columns of both tables are such names. */
  lemma ColumnsAreCodes()
    ensures Code(USER_COLUMNS) && Code(ACTOR_COLUMNS)
  {
    forall a, b | a in USER_COLUMNS && b in USER_COLUMNS && Prefix(a, b) ensures a == b {
      assert a[0] == b[..|a|][0];
    }
    forall a, b | a in ACTOR_COLUMNS && b in ACTOR_COLUMNS && Prefix(a, b) ensures a == b {
      assert a[0] == b[..|a|][0];
    }
  }

  lemma {:induction false} UniquelyRead(names: seq<string>, a: seq<string>, b: seq<string>)
    requires Code(names) && Over(names, a) && Over(names, b) && Concat(a) == Concat(b)
    ensures a == b
  {
    if a == [] || b == [] {
      NoDots(names, a);
      NoDots(names, b);
    } else {
      var rest, rest' := Concat(a[1..]), Concat(b[1..]);
      SameStart(a[0], rest, b[0], rest');
      assert a[0] in names && b[0] in names;
      assert rest == Concat(a)[|a[0]|..] && rest' == Concat(b)[|b[0]|..];
      UniquelyRead(names, a[1..], b[1..]);
    }
  }

  lemma SameStart(s: string, rest: string, t: string, rest': string)
    requires s + rest == t + rest'
    ensures Prefix(s, t) || Prefix(t, s)
  {
    var whole := s + rest;
    assert whole[..|s|] == s && whole[..|t|] == t;
    if |s| <= |t| {
      assert t[..|s|] == whole[..|s|];
    } else {
      assert s[..|t|] == whole[..|t|];
    }
  }

  lemma {:induction false} NoDots(names: seq<string>, parts: seq<string>)
    requires Code(names) && Over(names, parts)
    ensures '.' !in Concat(parts) && (Concat(parts) != [] ==> !IsDigit(Concat(parts)[0]) && Concat(parts)[0] != '-')
    ensures Concat(parts) == [] <==> parts == []
  {
    if parts != [] {
      assert parts[0] in names;
      NoDots(names, parts[1..]);
    }
  }

  /** Where the longer of two fronts goes on, the text behind the shorter one starts. */
  lemma Overlap(s: string, rest: string, t: string, rest': string)
    requires s + rest == t + rest' && |s| < |t|
    ensures rest != [] && rest[0] == t[|s|]
  {
    assert (s + rest)[|s|] == rest[0];
    assert (t + rest')[|s|] == t[|s|];
  }

  lemma SameFront(s: string, rest: string, t: string, rest': string)
    requires s + rest == t + rest' && |s| == |t|
    ensures s == t && rest == rest'
  {
    var whole := s + rest;
    assert whole[..|s|] == s && whole[..|t|] == t && whole[|s|..] == rest && whole[|t|..] == rest';
  }

  /** What follows the text up to its first dot; without a dot, nothing follows. */
  function AfterDot(more: bool, rest: string): string {
    if more then "." + rest else ""
  }

  /** A text is cut in one way at its first dot. */
  lemma SameAtDot(s: string, more: bool, rest: string, t: string, more': bool, rest': string)
    requires s + AfterDot(more, rest) == t + AfterDot(more', rest') && '.' !in s && '.' !in t
    ensures s == t && more == more' && (more ==> rest == rest')
  {
    var tail, tail' := AfterDot(more, rest), AfterDot(more', rest');
    if |s| < |t| {
      Overlap(s, tail, t, tail');
    } else if |t| < |s| {
      Overlap(t, tail', s, tail);
    } else {
      SameFront(s, tail, t, tail');
      assert more ==> tail[1..] == rest;
      assert more' ==> tail'[1..] == rest';
    }
  }

  predicate IsNumberChar(c: char) {
    IsDigit(c) || c == '-'
  }

  predicate NoNumberAhead(rest: string) {
    rest != [] ==> !IsNumberChar(rest[0])
  }

  lemma ItoaChars(n: int)
    ensures Itoa(n) != [] && (Itoa(n)[0] == '-' <==> n < 0)
    ensures forall c | c in Itoa(n) :: IsNumberChar(c)
  {
    if n >= 0 {
      assert Digits(n)[0] in Digits(n);
    }
  }

  /** A number and what follows it are told apart when what follows starts otherwise. */
  lemma SameNumber(m: int, rest: string, n: int, rest': string)
    requires Itoa(m) + rest == Itoa(n) + rest' && NoNumberAhead(rest) && NoNumberAhead(rest')
    ensures m == n && rest == rest'
  {
    ItoaChars(m);
    ItoaChars(n);
    if |Itoa(m)| < |Itoa(n)| {
      Overlap(Itoa(m), rest, Itoa(n), rest');
    } else if |Itoa(n)| < |Itoa(m)| {
      Overlap(Itoa(n), rest', Itoa(m), rest);
    } else {
      SameFront(Itoa(m), rest, Itoa(n), rest');
      SameItoa(m, n);
    }
  }

  lemma SameItoa(m: int, n: int)
    requires Itoa(m) == Itoa(n)
    ensures m == n
  {
    ItoaChars(m);
    ItoaChars(n);
    if m < 0 {
      assert Digits(-m) == Itoa(m)[1..] == Itoa(n)[1..] == Digits(-n);
      SameDigits(-m, -n);
    } else {
      SameDigits(m, n);
    }
  }

  lemma SameDigits(m: nat, n: nat)
    requires Digits(m) == Digits(n)
    ensures m == n
  {
    DigitsValue(m);
    DigitsValue(n);
  }

  lemma KeyParts(names: seq<string>, c: Columns, nz: seq<string>)
    requires Code(names) && Over(names, c.cols)
    ensures CacheKey(c, nz) == Itoa(c.kind) + (Concat(c.cols) + AfterDot(nz != [], Concat(nz)))
    ensures NoNumberAhead(Concat(c.cols) + AfterDot(nz != [], Concat(nz))) && '.' !in Concat(c.cols)
  {
    NoDots(names, c.cols);
  }

  /** On names that form a code, the key determines the columns and the defaults. */
  lemma CacheKeyInjective(names: seq<string>, c: Columns, nz: seq<string>, c': Columns, nz': seq<string>)
    requires Code(names) && Over(names, c.cols) && Over(names, nz) && Over(names, c'.cols) && Over(names, nz')
    requires CacheKey(c, nz) == CacheKey(c', nz')
    ensures c == c' && nz == nz'
  {
    KeyParts(names, c, nz);
    KeyParts(names, c', nz');
    var tail, tail' := AfterDot(nz != [], Concat(nz)), AfterDot(nz' != [], Concat(nz'));
    SameNumber(c.kind, Concat(c.cols) + tail, c'.kind, Concat(c'.cols) + tail');
    SameAtDot(Concat(c.cols), nz != [], Concat(nz), Concat(c'.cols), nz' != [], Concat(nz'));
    UniquelyRead(names, c.cols, c'.cols);
    UniquelyRead(names, nz, nz');
  }

  predicate UpsertOver(names: seq<string>, u: UpsertArgs) {
    Over(names, u.conflict) && Over(names, u.update.cols) && Over(names, u.insert.cols) && Over(names, u.nzDefaults)
  }

  lemma NoDotInColumns(names: seq<string>, c: Columns)
    requires Code(names) && Over(names, c.cols)
    ensures '.' !in KindAndCols(c) && NoNumberAhead(Concat(c.cols))
  {
    NoDots(names, c.cols);
    ItoaChars(c.kind);
  }

  lemma SameColumns(names: seq<string>, c: Columns, c': Columns)
    requires Code(names) && Over(names, c.cols) && Over(names, c'.cols) && KindAndCols(c) == KindAndCols(c')
    ensures c == c'
  {
    NoDotInColumns(names, c);
    NoDotInColumns(names, c');
    SameNumber(c.kind, Concat(c.cols), c'.kind, Concat(c'.cols));
    UniquelyRead(names, c.cols, c'.cols);
  }

  /** The key seen from the front: each part, and what follows its dot. */
  lemma UpsertKeyTails(u: UpsertArgs) returns (s1: string, s2: string, s3: string, s4: string)
    ensures s4 == Concat(u.nzDefaults) && s3 == KindAndCols(u.insert) + ("." + s4)
    ensures s2 == KindAndCols(u.update) + ("." + s3) && s1 == Concat(u.conflict) + ("." + s2)
    ensures UpsertKey(u) == (if u.updateOnConflict then "t" else "f") + ("." + s1)
  {
    s4 := Concat(u.nzDefaults);
    s3 := KindAndCols(u.insert) + ("." + s4);
    s2 := KindAndCols(u.update) + ("." + s3);
    s1 := Concat(u.conflict) + ("." + s2);
    var front := if u.updateOnConflict then "t" else "f";
    ThreeParts(front, Concat(u.conflict), "." + s2);
    ThreeParts(front + "." + Concat(u.conflict), KindAndCols(u.update), "." + s3);
    ThreeParts(front + "." + Concat(u.conflict) + "." + KindAndCols(u.update), KindAndCols(u.insert), "." + s4);
    Assoc(front + "." + Concat(u.conflict) + "." + KindAndCols(u.update) + "." + KindAndCols(u.insert), ".", s4);
  }

  lemma ThreeParts(front: string, part: string, rest: string)
    ensures front + "." + part + rest == front + ("." + (part + rest))
  {
    Assoc(front + ".", part, rest);
    Assoc(front, ".", part + rest);
  }

  lemma UpsertKeyInjective(names: seq<string>, u: UpsertArgs, v: UpsertArgs)
    requires Code(names) && UpsertOver(names, u) && UpsertOver(names, v) && UpsertKey(u) == UpsertKey(v)
    ensures u == v
  {
    NoDots(names, u.conflict);
    NoDots(names, v.conflict);
    NoDotInColumns(names, u.update);
    NoDotInColumns(names, v.update);
    NoDotInColumns(names, u.insert);
    NoDotInColumns(names, v.insert);
    var s1, s2, s3, s4 := UpsertKeyTails(u);
    var t1, t2, t3, t4 := UpsertKeyTails(v);
    SameAtDot(if u.updateOnConflict then "t" else "f", true, s1, if v.updateOnConflict then "t" else "f", true, t1);
    SameAtDot(Concat(u.conflict), true, s2, Concat(v.conflict), true, t2);
    SameAtDot(KindAndCols(u.update), true, s3, KindAndCols(v.update), true, t3);
    SameAtDot(KindAndCols(u.insert), true, s4, KindAndCols(v.insert), true, t4);
    UniquelyRead(names, u.conflict, v.conflict);
    SameColumns(names, u.update, v.update);
    SameColumns(names, u.insert, v.insert);
    UniquelyRead(names, u.nzDefaults, v.nzDefaults);
  }

  // ---------- the caches ----------

  datatype Query = Query(text: string, valueMapping: seq<nat>, retMapping: seq<nat>)

  /** Building a query from scratch; None when no column is left or a column has no field. */
  type Builder = (Columns, seq<string>) -> Option<Query>
  type UpsertBuilder = UpsertArgs -> Option<Query>

  /** Whatever the cache answers for columns of the table is what building the query again would give. */
  ghost predicate Faithful(names: seq<string>, cache: map<string, Query>, build: Builder) {
    forall c: Columns, nz: seq<string> | Over(names, c.cols) && Over(names, nz) ::
      CacheKey(c, nz) in cache ==> build(c, nz) == Some(cache[CacheKey(c, nz)])
  }

  ghost predicate UpsertFaithful(names: seq<string>, cache: map<string, Query>, build: UpsertBuilder) {
    forall u: UpsertArgs | UpsertOver(names, u) :: UpsertKey(u) in cache ==> build(u) == Some(cache[UpsertKey(u)])
  }

  lemma StoreKeepsFaithful(names: seq<string>, cache: map<string, Query>, build: Builder, c: Columns, nz: seq<string>)
    requires Code(names) && Over(names, c.cols) && Over(names, nz) && Faithful(names, cache, build)
             && build(c, nz).Some?
    ensures Faithful(names, cache[CacheKey(c, nz) := build(c, nz).value], build)
  {
    forall c': Columns, nz': seq<string>
      | Over(names, c'.cols) && Over(names, nz') && CacheKey(c', nz') == CacheKey(c, nz)
      ensures c' == c && nz' == nz
    {
      CacheKeyInjective(names, c', nz', c, nz);
    }
  }

  lemma StoreKeepsUpsertFaithful(names: seq<string>, cache: map<string, Query>, build: UpsertBuilder, u: UpsertArgs)
    requires Code(names) && UpsertOver(names, u) && UpsertFaithful(names, cache, build) && build(u).Some?
    ensures UpsertFaithful(names, cache[UpsertKey(u) := build(u).value], build)
  {
    forall v: UpsertArgs | UpsertOver(names, v) && UpsertKey(v) == UpsertKey(u) ensures v == u {
      UpsertKeyInjective(names, v, u);
    }
  }

  /** The three caches of one model, and the statements it has sent to the database. */
  class Model {
    var insertCache: map<string, Query>
    var updateCache: map<string, Query>
    var upsertCache: map<string, Query>
    var sent: seq<Query>
    const names: seq<string>
    const buildInsert: Builder
    const buildUpdate: Builder
    const buildUpsert: UpsertBuilder

    constructor (names: seq<string>, buildInsert: Builder, buildUpdate: Builder, buildUpsert: UpsertBuilder)
      requires Code(names)
      ensures Valid() && sent == []
      ensures this.names == names && this.buildInsert == buildInsert
      ensures this.buildUpdate == buildUpdate && this.buildUpsert == buildUpsert
    {
      this.names, this.buildInsert, this.buildUpdate, this.buildUpsert := names, buildInsert, buildUpdate, buildUpsert;
      insertCache, updateCache, upsertCache, sent := map[], map[], map[], [];
    }

    ghost predicate Valid()
      reads this
    {
      && Code(names)
      && Faithful(names, insertCache, buildInsert)
      && Faithful(names, updateCache, buildUpdate)
      && UpsertFaithful(names, upsertCache, buildUpsert)
    }

    /** What is sent is always the query built afresh; the cache never shows. */
    ghost predicate Sends(before: seq<Query>, built: Option<Query>, execOk: bool, ok: bool)
      reads this
    {
      && sent == (if built.Some? then before + [built.value] else before)
      && (ok <==> built.Some? && execOk)
    }

    /** `execOk`: whether the database takes the statement. Only then is a new query remembered. */
    method Insert(columns: Columns, nzDefaults: seq<string>, execOk: bool) returns (ok: bool)
      requires Valid() && Over(names, columns.cols) && Over(names, nzDefaults)
      modifies this
      ensures Valid() && Sends(old(sent), buildInsert(columns, nzDefaults), execOk, ok)
      ensures insertCache == if ok then old(insertCache)[CacheKey(columns, nzDefaults) := sent[|sent| - 1]]
                             else old(insertCache)
      ensures updateCache == old(updateCache) && upsertCache == old(upsertCache)
    {
      var key := MakeCacheKey(columns, nzDefaults);
      var cached := key in insertCache;
      var query;
      if cached {
        query := insertCache[key];
      } else {
        var built := buildInsert(columns, nzDefaults);
        if built.None? {
          return false;
        }
        query := built.value;
      }
      sent := sent + [query];
      if !execOk {
        return false;
      }
      if !cached {
        StoreKeepsFaithful(names, insertCache, buildInsert, columns, nzDefaults);
        insertCache := insertCache[key := query];
      }
      ok := true;
    }

    method Update(columns: Columns, execOk: bool) returns (ok: bool)
      requires Valid() && Over(names, columns.cols)
      modifies this
      ensures Valid() && Sends(old(sent), buildUpdate(columns, []), execOk, ok)
      ensures updateCache == if ok then old(updateCache)[CacheKey(columns, []) := sent[|sent| - 1]]
                             else old(updateCache)
      ensures insertCache == old(insertCache) && upsertCache == old(upsertCache)
    {
      var key := MakeCacheKey(columns, []);
      var cached := key in updateCache;
      var query;
      if cached {
        query := updateCache[key];
      } else {
        var built := buildUpdate(columns, []);
        if built.None? {
          return false;
        }
        query := built.value;
      }
      sent := sent + [query];
      if !execOk {
        return false;
      }
      if !cached {
        StoreKeepsFaithful(names, updateCache, buildUpdate, columns, []);
        updateCache := updateCache[key := query];
      }
      ok := true;
    }

    method Upsert(u: UpsertArgs, execOk: bool) returns (ok: bool)
      requires Valid() && UpsertOver(names, u)
      modifies this
      ensures Valid() && Sends(old(sent), buildUpsert(u), execOk, ok)
      ensures upsertCache == if ok then old(upsertCache)[UpsertKey(u) := sent[|sent| - 1]] else old(upsertCache)
      ensures insertCache == old(insertCache) && updateCache == old(updateCache)
    {
      var key := MakeUpsertKey(u);
      var cached := key in upsertCache;
      var query;
      if cached {
        query := upsertCache[key];
      } else {
        var built := buildUpsert(u);
        if built.None? {
          return false;
        }
        query := built.value;
      }
      sent := sent + [query];
      if !execOk {
        return false;
      }
      if !cached {
        StoreKeepsUpsertFaithful(names, upsertCache, buildUpsert, u);
        upsertCache := upsertCache[key := query];
      }
      ok := true;
    }
  }

  /** The cache after calls of any number of threads: each store takes place under the lock, whatever was
      stored since the thread looked. */
  function StoreAll(cache: map<string, Query>, build: Builder, calls: seq<(Columns, seq<string>)>): map<string, Query>
    decreases |calls|
  {
    if calls == [] then cache
    else
      var (c, nz) := calls[0];
      StoreAll(if build(c, nz).Some? then cache[CacheKey(c, nz) := build(c, nz).value] else cache, build, calls[1..])
  }

  /** In every interleaving, whatever any cache answers is the query built afresh. */
  lemma {:induction false} StoresStayFaithful(names: seq<string>, cache: map<string, Query>, build: Builder,
                                              calls: seq<(Columns, seq<string>)>)
    requires Code(names) && Faithful(names, cache, build)
    requires forall i | 0 <= i < |calls| :: Over(names, calls[i].0.cols) && Over(names, calls[i].1)
    ensures Faithful(names, StoreAll(cache, build, calls), build)
    decreases |calls|
  {
    if calls != [] {
      var (c, nz) := calls[0];
      if build(c, nz).Some? {
        StoreKeepsFaithful(names, cache, build, c, nz);
        StoresStayFaithful(names, cache[CacheKey(c, nz) := build(c, nz).value], build, calls[1..]);
      } else {
        StoresStayFaithful(names, cache, build, calls[1..]);
      }
    }
  }

  function StoreAllUpserts(cache: map<string, Query>, build: UpsertBuilder, calls: seq<UpsertArgs>): map<string, Query>
    decreases |calls|
  {
    if calls == [] then cache
    else
      var u := calls[0];
      StoreAllUpserts(if build(u).Some? then cache[UpsertKey(u) := build(u).value] else cache, build, calls[1..])
  }

  lemma {:induction false} UpsertStoresStayFaithful(names: seq<string>, cache: map<string, Query>, build: UpsertBuilder,
                                                    calls: seq<UpsertArgs>)
    requires Code(names) && UpsertFaithful(names, cache, build)
    requires forall i | 0 <= i < |calls| :: UpsertOver(names, calls[i])
    ensures UpsertFaithful(names, StoreAllUpserts(cache, build, calls), build)
    decreases |calls|
  {
    if calls != [] {
      var u := calls[0];
      if build(u).Some? {
        StoreKeepsUpsertFaithful(names, cache, build, u);
        UpsertStoresStayFaithful(names, cache[UpsertKey(u) := build(u).value], build, calls[1..]);
      } else {
        UpsertStoresStayFaithful(names, cache, build, calls[1..]);
      }
    }
  }
}
